/** Unsigned machine words: the shift and mask operators, and the div/mod facts they satisfy. */
module Bits {

  type u8 = x: int | 0 <= x < 0x100
  type u16 = x: int | 0 <= x < 0x1_0000
  type u32 = x: int | 0 <= x < 0x1_0000_0000
  type u64 = x: int | 0 <= x < 0x1_0000_0000_0000_0000

  /** Unsigned 64-bit arithmetic wraps around: x modulo 2^64. */
  function Wrap(x: int): (r: u64) {
    if 0 <= x < 0x1_0000_0000_0000_0000 then x else x % 0x1_0000_0000_0000_0000
  }

  lemma WrapWrap(x: int, y: int)
    ensures Wrap(Wrap(x) + y) == Wrap(x + y)
  {
    ModShift(x, 0);
    ModShift(Wrap(x) + y, -(x / 0x1_0000_0000_0000_0000));
  }

  lemma ModShift(x: int, n: int)
    ensures Wrap(x) == x % 0x1_0000_0000_0000_0000
    ensures Wrap(x - n * 0x1_0000_0000_0000_0000) == Wrap(x)
  {
  }

  /** Wrapping does not disturb the low bits. */
  lemma WrapKeepsPageOffset(x: int)
    ensures Wrap(x) % 4096 == x % 4096
  {
    ModShift(x, 0);
    AddPages(Wrap(x), (x / 0x1_0000_0000_0000_0000) * 0x10_0000_0000_0000);
  }

  lemma AddPages(x: int, pages: int)
    ensures (x + pages * 4096) % 4096 == x % 4096
  {
  }

  lemma AlignedSums(x: int, y: int)
    requires x % 4096 == 0 && y % 4096 == 0
    ensures (x + y) % 4096 == 0 && (x - y) % 4096 == 0
  {
  }

  function Pow2(k: nat): (r: nat)
    ensures r > 0
  {
    if k == 0 then 1 else 2 * Pow2(k - 1)
  }

  lemma {:induction false} Pow2Monotone(j: nat, k: nat)
    requires j <= k
    ensures Pow2(j) <= Pow2(k)
  {
    if j < k {
      Pow2Monotone(j, k - 1);
    }
  }

  lemma {:induction false} PowerSum(j: nat, k: nat)
    ensures Pow2(j + k) == Pow2(k) * Pow2(j)
  {
    if j > 0 {
      PowerSum(j - 1, k);
      Double(Pow2(k), Pow2(j - 1));
    }
  }

  /** Bitwise `&`. */
  function And(x: nat, y: nat): (r: nat) {
    if x == 0 then 0 else (if x % 2 == 1 && y % 2 == 1 then 1 else 0) + 2 * And(x / 2, y / 2)
  }

  /** Bitwise `|`. */
  function Or(x: nat, y: nat): (r: nat)
    decreases x + y
  {
    if x == 0 && y == 0 then 0
    else (if x % 2 == 1 || y % 2 == 1 then 1 else 0) + 2 * Or(x / 2, y / 2)
  }

  /** `~x` on 64 bits. */
  function Not(x: u64): u64 {
    0xFFFF_FFFF_FFFF_FFFF - x
  }

  /** `x << k` on 64 bits. */
  function Shl(x: nat, k: nat): u64 {
    Wrap(x * Pow2(k))
  }

  /** `x >> k`. */
  function Shr(x: nat, k: nat): nat {
    DivModOf(x, Pow2(k));
    x / Pow2(k)
  }

  lemma DivModUnique(x: nat, d: nat, q: nat, r: nat)
    requires r < d && x == q * d + r
    ensures x / d == q && x % d == r
  {
    var q', r' := x / d, x % d;
    if q < q' {
      Scale(q + 1, q', d);
    } else if q' < q {
      Scale(q' + 1, q, d);
    }
  }

  lemma Scale(a: nat, b: nat, d: nat)
    requires a <= b
    ensures a * d <= b * d
    ensures (a + 1) * d == a * d + d
  {
  }

  /** Halving x shifts its quotient and remainder by a power of two down by one bit. */
  lemma HalveDivMod(x: nat, k: nat)
    requires k > 0
    ensures x / Pow2(k) == (x / 2) / Pow2(k - 1)
    ensures x % Pow2(k) == 2 * ((x / 2) % Pow2(k - 1)) + x % 2
  {
    var p := Pow2(k - 1);
    var q, r := (x / 2) / p, (x / 2) % p;
    assert x / 2 == q * p + r;
    assert x == q * (2 * p) + (2 * r + x % 2);
    DivModUnique(x, 2 * p, q, 2 * r + x % 2);
  }

  /** Masking with k low ones is the remainder by 2^k. */
  lemma AndLowMask(x: nat, k: nat)
    ensures And(x, Pow2(k) - 1) == x % Pow2(k)
  {
    DivModOf(x, Pow2(k));
    AndLowBits(x / Pow2(k), x % Pow2(k), k);
  }

  lemma DivModOf(x: nat, d: nat)
    requires d > 0
    ensures 0 <= x / d && x == (x / d) * d + x % d
  {
  }

  lemma {:induction false} AndLowBits(q: nat, r: nat, k: nat)
    requires r < Pow2(k)
    ensures And(q * Pow2(k) + r, Pow2(k) - 1) == r
  {
    if k == 0 {
      AndZero(q);
    } else {
      var p := Pow2(k - 1);
      AndLowBits(q, r / 2, k - 1);
      Double(q, p);
      AndOfHalves(q * p + r / 2, r % 2, p - 1, 1);
      assert 2 * (q * p + r / 2) + r % 2 == q * Pow2(k) + r;
    }
  }

  lemma AndOfHalves(x: nat, b: nat, y: nat, d: nat)
    requires b < 2 && d < 2
    ensures And(2 * x + b, 2 * y + d) == (if b == 1 && d == 1 then 1 else 0) + 2 * And(x, y)
  {
    assert (2 * x + b) / 2 == x && (2 * y + d) / 2 == y;
  }

  lemma {:induction false} AndZero(x: nat)
    ensures And(x, 0) == 0
  {
    if x > 0 {
      AndZero(x / 2);
    }
  }

  /** Clearing the k low bits of a w-bit word subtracts the remainder by 2^k. */
  lemma {:induction false} AndHighMask(x: nat, k: nat, w: nat)
    requires k <= w && x < Pow2(w)
    ensures Pow2(k) <= Pow2(w)
    ensures And(x, Pow2(w) - Pow2(k)) == x - x % Pow2(k)
  {
    if k == 0 {
      AndLowMask(x, w);
      ModSmall(x, Pow2(w));
    } else {
      AndHighMask(x / 2, k - 1, w - 1);
      HalveDivMod(x, k);
      assert (Pow2(w) - Pow2(k)) / 2 == Pow2(w - 1) - Pow2(k - 1);
    }
  }

  lemma ModSmall(x: nat, d: nat)
    requires x < d
    ensures x % d == x && x / d == 0
  {
    DivModUnique(x, d, 0, x);
  }

  /** An `|` whose right operand fits below the left operand's low zero bits is a sum. */
  lemma {:induction false} OrDisjoint(a: nat, b: nat, k: nat)
    requires b < Pow2(k)
    ensures Or(a * Pow2(k), b) == a * Pow2(k) + b
  {
    if k == 0 {
      OrZero(a);
    } else {
      var p := Pow2(k - 1);
      assert a * Pow2(k) == 2 * (a * p);
      if a * p != 0 || b != 0 {
        OrDisjoint(a, b / 2, k - 1);
      }
    }
  }

  lemma {:induction false} OrZero(a: nat)
    ensures Or(a, 0) == a
  {
    if a > 0 {
      OrZero(a / 2);
    }
  }

  lemma {:induction false} OrCommutes(a: nat, b: nat)
    ensures Or(a, b) == Or(b, a)
    decreases a + b
  {
    if a + b > 0 {
      OrCommutes(a / 2, b / 2);
    }
  }

  /** `|` acts on the bits above and below position k separately. */
  lemma {:induction false} OrSplit(a: nat, b: nat, c: nat, d: nat, k: nat)
    requires b < Pow2(k) && d < Pow2(k)
    ensures Or(a * Pow2(k) + b, c * Pow2(k) + d) == Or(a, c) * Pow2(k) + Or(b, d)
  {
    if k > 0 {
      var p := Pow2(k - 1);
      Double(a, p);
      Double(c, p);
      Double(Or(a, c), p);
      OrSplit(a, b / 2, c, d / 2, k - 1);
      OrSplitStep(a * p, b, c * p, d, Or(a, c) * p);
    }
  }

  lemma OrSplitStep(x: nat, b: nat, y: nat, d: nat, high: nat)
    requires Or(x + b / 2, y + d / 2) == high + Or(b / 2, d / 2)
    ensures Or(2 * x + b, 2 * y + d) == 2 * high + Or(b, d)
  {
    OrOfHalves(x + b / 2, b % 2, y + d / 2, d % 2);
    assert 2 * (x + b / 2) + b % 2 == 2 * x + b && 2 * (y + d / 2) + d % 2 == 2 * y + d;
    OrHalve(b, d);
  }

  lemma Double(a: nat, p: nat)
    ensures 0 <= a * p && a * (2 * p) == 2 * (a * p)
  {
  }

  lemma OrOfHalves(x: nat, b: nat, y: nat, d: nat)
    requires b < 2 && d < 2
    ensures Or(2 * x + b, 2 * y + d) == (if b == 1 || d == 1 then 1 else 0) + 2 * Or(x, y)
  {
    assert (2 * x + b) / 2 == x && (2 * y + d) / 2 == y;
    OrHalve(2 * x + b, 2 * y + d);
  }

  lemma OrHalve(x: nat, y: nat)
    ensures Or(x, y) == (if x % 2 == 1 || y % 2 == 1 then 1 else 0) + 2 * Or(x / 2, y / 2)
  {
  }

  /** `|` with k low ones keeps those ones. */
  lemma {:induction false} OrOnes(x: nat, k: nat)
    requires x < Pow2(k)
    ensures Or(Pow2(k) - 1, x) == Pow2(k) - 1
  {
    if k > 0 {
      OrOnes(x / 2, k - 1);
      OrOfHalves(Pow2(k - 1) - 1, 1, x / 2, x % 2);
    }
  }

  /** The powers of two that occur as shift counts and field widths. */
  lemma Powers()
    ensures Pow2(3) == 8 && Pow2(5) == 32 && Pow2(10) == 0x400 && Pow2(12) == 0x1000
    ensures Pow2(16) == 0x1_0000 && Pow2(18) == 0x4_0000 && Pow2(20) == 0x10_0000
    ensures Pow2(21) == 0x20_0000 && Pow2(22) == 0x40_0000 && Pow2(27) == 0x800_0000
    ensures Pow2(30) == 0x4000_0000 && Pow2(31) == 0x8000_0000 && Pow2(32) == 0x1_0000_0000
    ensures Pow2(39) == 0x80_0000_0000 && Pow2(40) == 0x100_0000_0000
    ensures Pow2(64) == 0x1_0000_0000_0000_0000
  {
    assert Pow2(8) == 0x100;
    assert Pow2(16) == 0x1_0000;
    assert Pow2(24) == 0x100_0000;
    assert Pow2(32) == 0x1_0000_0000;
    assert Pow2(40) == 0x100_0000_0000;
    assert Pow2(48) == 0x1_0000_0000_0000;
    assert Pow2(56) == 0x100_0000_0000_0000;
  }
}

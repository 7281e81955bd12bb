/** Little-endian values in byte buffers. */
module ByteBuffers {
  import opened Bits

  type byte = u8

  function FromBytes(bytes: seq<byte>): nat {
    if bytes == [] then 0 else bytes[0] + 256 * FromBytes(bytes[1..])
  }

  function ToBytes(value: nat, n: nat): (bytes: seq<byte>)
    ensures |bytes| == n
    decreases n
  {
    if n == 0 then [] else [value % 256] + ToBytes(value / 256, n - 1)
  }

  lemma {:induction false} BytesRoundTrip(value: nat, n: nat)
    requires value < Pow2(8 * n)
    ensures FromBytes(ToBytes(value, n)) == value
    decreases n
  {
    if n > 0 {
      PowerSum(8, 8 * (n - 1));
      assert Pow2(8) == 256;
      assert value / 256 < Pow2(8 * (n - 1));
      BytesRoundTrip(value / 256, n - 1);
      assert ToBytes(value, n)[1..] == ToBytes(value / 256, n - 1);
    }
  }

  lemma {:induction false} FromBytesBelow(bytes: seq<byte>)
    ensures 0 <= FromBytes(bytes) < Pow2(8 * |bytes|)
  {
    if bytes != [] {
      var n := |bytes| - 1;
      FromBytesBelow(bytes[1..]);
      PowerSum(8, 8 * n);
      assert Pow2(8) == 256;
    }
  }

  /** Bytes of a value are its remainders by powers of 256. */
  lemma {:induction false} BytesOfValue(value: nat, n: nat, at: nat, m: nat)
    requires at + m <= n
    ensures FromBytes(ToBytes(value, n)[at..at + m]) == value / Pow2(8 * at) % Pow2(8 * m)
    decreases n
  {
    hide Pow2, FromBytes, ToBytes;
    if at > 0 {
      BytesOfValue(value / 256, n - 1, at - 1, m);
      LaterBytes(value, n, at, m);
      DropByte(value, 8 * (at - 1));
    } else {
      DropNothing(value);
      LowBytes(value, n, m);
      assert ToBytes(value, n)[0..0 + m] == ToBytes(value, n)[..m];
    }
  }

  lemma LaterBytes(value: nat, n: nat, at: nat, m: nat)
    requires at > 0 && at + m <= n
    ensures ToBytes(value, n)[at..at + m] == ToBytes(value / 256, n - 1)[at - 1..at - 1 + m]
  {
  }

  lemma DropNothing(value: nat)
    ensures value / Pow2(8 * 0) == value
  {
    assert Pow2(0) == 1;
  }

  lemma DropByte(value: nat, k: nat)
    ensures value / 256 / Pow2(k) == value / Pow2(k + 8)
  {
    var q, p := value / 256, Pow2(k);
    PowerSum(k, 8);
    assert Pow2(8) == 256;
    DivModOf(q, p);
    var high, low := q / p, q % p;
    assert value == (high * p + low) * 256 + value % 256;
    assert (high * p) * 256 == high * (256 * p);
    DivModUnique(value, 256 * p, high, low * 256 + value % 256);
  }

  lemma {:induction false} LowBytes(value: nat, n: nat, m: nat)
    requires m <= n
    ensures FromBytes(ToBytes(value, n)[..m]) == value % Pow2(8 * m)
    decreases n
  {
    hide Pow2, ToBytes, FromBytes;
    if m == 0 {
      NoBytes(value);
      assert ToBytes(value, n)[..0] == [];
    } else {
      LowBytes(value / 256, n - 1, m - 1);
      FirstBytes(value, n, m);
      KeepByte(value, 8 * (m - 1));
    }
  }

  lemma NoBytes(value: nat)
    ensures FromBytes([]) == 0 == value % Pow2(8 * 0)
  {
    assert Pow2(0) == 1;
  }

  lemma FirstBytes(value: nat, n: nat, m: nat)
    requires 0 < m <= n
    ensures FromBytes(ToBytes(value, n)[..m]) == value % 256 + 256 * FromBytes(ToBytes(value / 256, n - 1)[..m - 1])
  {
    assert ToBytes(value, n)[..m][1..] == ToBytes(value / 256, n - 1)[..m - 1];
  }

  lemma KeepByte(value: nat, k: nat)
    ensures value % 256 + 256 * (value / 256 % Pow2(k)) == value % Pow2(k + 8)
  {
    PowerSum(k, 8);
    assert Pow2(8) == 256;
    hide Pow2;
    var q, p := value / 256, Pow2(k);
    DivModOf(q, p);
    var high, low := q / p, q % p;
    assert value == (high * p + low) * 256 + value % 256;
    assert (high * p) * 256 == high * (256 * p);
    DivModUnique(value, 256 * p, high, low * 256 + value % 256);
  }

  /** The n-byte value at an offset of a buffer. */
  function Load(buffer: seq<byte>, at: nat, n: nat): (value: nat)
    requires at + n <= |buffer|
    ensures value < Pow2(8 * n)
  {
    FromBytesBelow(buffer[at..at + n]);
    FromBytes(buffer[at..at + n])
  }

  /** Stores an n-byte value at an offset of a buffer. */
  function Store(buffer: seq<byte>, at: nat, n: nat, value: nat): (after: seq<byte>)
    requires at + n <= |buffer|
    ensures |after| == |buffer|
  {
    buffer[..at] + ToBytes(value, n) + buffer[at + n..]
  }

  lemma LoadStored(buffer: seq<byte>, at: nat, n: nat, value: nat)
    requires at + n <= |buffer| && value < Pow2(8 * n)
    ensures Load(Store(buffer, at, n, value), at, n) == value
  {
    assert Store(buffer, at, n, value)[at..at + n] == ToBytes(value, n);
    BytesRoundTrip(value, n);
  }

  lemma LoadElsewhere(buffer: seq<byte>, at: nat, n: nat, value: nat, from: nat, m: nat)
    requires at + n <= |buffer| && from + m <= |buffer| && (from + m <= at || at + n <= from)
    ensures Load(Store(buffer, at, n, value), from, m) == Load(buffer, from, m)
  {
    assert Store(buffer, at, n, value)[from..from + m] == buffer[from..from + m];
  }
}

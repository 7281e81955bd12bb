/** What the register files of the two backends share: register names and values, and legal outcomes of calls. */
module Registers {
  import opened Bits
  import opened ByteBuffers
  import opened SubRegisters
  import Gdt

  /**
   * A register. Segments count from CS, SS, DS, ES, FS, GS, LDTR to TR, tables are GDTR
   * and IDTR, controls CR0, CR2, CR3 and CR4, and debug registers DR0 to DR3, DR6 and DR7.
   */
  datatype Reg =
    | General(alias: Alias) | Segment(index: nat) | Table(index: nat) | Control(index: nat) | Efer | Debug(index: nat)
    | ST(index: nat) | MM(index: nat) | XMM(index: nat) | Other

  /** The registers both backends read and write. */
  predicate IsSupported(reg: Reg) {
    match reg
    case General(alias) => alias.Valid()
    case Segment(i) => i < 8
    case Table(i) => i < 2
    case Control(i) => i < 4
    case Efer => true
    case Debug(i) => i < 6
    case Other => false
    case _ => IsFpu(reg)
  }

  predicate IsFpu(reg: Reg) {
    match reg
    case ST(i) => i < 8
    case MM(i) => i < 8
    case XMM(i) => i < 16
    case _ => false
  }

  /** All of them. */
  function SupportedRegs(): seq<Reg> {
    seq<Reg>(4, i requires 0 <= i < 4 => General(Alias(i, High8)))
    + seq<Reg>(16, i requires 0 <= i < 16 => General(Alias(i, Low8)))
    + seq<Reg>(16, i requires 0 <= i < 16 => General(Alias(i, Low16)))
    + seq<Reg>(16, i requires 0 <= i < 16 => General(Alias(i, Low32)))
    + seq<Reg>(16, i requires 0 <= i < 16 => General(Alias(i, Full)))
    + seq<Reg>(8, i requires 0 <= i < 8 => Segment(i)) + seq<Reg>(2, i requires 0 <= i < 2 => Table(i))
    + seq<Reg>(4, i requires 0 <= i < 4 => Control(i)) + [Efer]
    + seq<Reg>(6, i requires 0 <= i < 6 => Debug(i))
    + seq<Reg>(8, i requires 0 <= i < 8 => ST(i)) + seq<Reg>(8, i requires 0 <= i < 8 => MM(i))
    + seq<Reg>(16, i requires 0 <= i < 16 => XMM(i))
  }

  /** The place of a register in that list. */
  function PlaceOf(reg: Reg): (p: nat)
    requires IsSupported(reg)
    ensures p < 121
  {
    match reg
    case General(Alias(i, High8)) => i
    case General(Alias(i, Low8)) => 4 + i
    case General(Alias(i, Low16)) => 20 + i
    case General(Alias(i, Low32)) => 36 + i
    case General(Alias(i, Full)) => 52 + i
    case Segment(i) => 68 + i
    case Table(i) => 76 + i
    case Control(i) => 78 + i
    case Efer => 82
    case Debug(i) => 83 + i
    case ST(i) => 89 + i
    case MM(i) => 97 + i
    case XMM(i) => 105 + i
  }

  /** 121 registers are supported: each has its own place in the list, and the list holds nothing else. */
  lemma SupportedAre121()
    ensures |SupportedRegs()| == 121
    ensures forall reg :: IsSupported(reg) ==> SupportedRegs()[PlaceOf(reg)] == reg
    ensures forall i | 0 <= i < 121 :: IsSupported(SupportedRegs()[i]) && PlaceOf(SupportedRegs()[i]) == i
  {
  }

  /** The first n registers are supported, and the one after them is not. */
  predicate SupportedPrefix(regs: seq<Reg>, n: nat) {
    n <= |regs| && (forall i | 0 <= i < n :: IsSupported(regs[i])) && (n < |regs| ==> !IsSupported(regs[n]))
  }

  lemma PrefixUnique(regs: seq<Reg>, m: nat, n: nat)
    requires SupportedPrefix(regs, m) && SupportedPrefix(regs, n)
    ensures m == n
  {
  }

  // ----- Values ------------------------------------------------------------------------

  /** The value union, as the three 64-bit words its members lie in. */
  datatype RegValue = RegValue(low: u64, middle: u64, high: u64)

  function ToWord(x: u64): bv64 {
    x as bv64
  }

  function FromWord(x: bv64): u64 {
    x as int
  }

  /** The segment member: selector at byte 0, base at 8, limit at 16, attributes at 20. */
  function SegmentOf(v: RegValue): Gdt.Segment {
    Gdt.Segment(v.low % 0x1_0000, v.middle, v.high % 0x1_0000_0000, v.high / 0x1_0000_0000 % 0x1_0000)
  }

  function OfSegment(s: Gdt.Segment): RegValue {
    RegValue(s.selector, s.base, s.limit + s.attributes * 0x1_0000_0000)
  }

  /** The table member: base at byte 0, limit at 8. */
  function TableOf(v: RegValue): Gdt.TableRegister {
    Gdt.TableRegister(v.low, v.middle % 0x1_0000)
  }

  function OfTable(t: Gdt.TableRegister): RegValue {
    RegValue(t.base, t.limit, 0)
  }

  /** The bytes of the member that belongs to a register; the others are zero. */
  function Member(reg: Reg, v: RegValue): RegValue {
    match reg
    case General(alias) => RegValue(FromWord(Truncate(ToWord(v.low), alias.part)), 0, 0)
    case Segment(_) => OfSegment(SegmentOf(v))
    case Table(_) => OfTable(TableOf(v))
    case ST(_) => RegValue(v.low, v.middle % 0x1_0000, 0)
    case XMM(_) => RegValue(v.low, v.middle, 0)
    case _ => RegValue(v.low, 0, 0)
  }

  lemma SegmentMember(s: Gdt.Segment)
    ensures SegmentOf(OfSegment(s)) == s
  {
    DivModUnique(OfSegment(s).high, 0x1_0000_0000, s.attributes, s.limit);
  }

  /** The 24 bytes of a value. */
  function BytesOf(v: RegValue): (bytes: seq<byte>)
    ensures |bytes| == 24
  {
    ToBytes(v.low, 8) + ToBytes(v.middle, 8) + ToBytes(v.high, 8)
  }

  lemma LanesLie(v: RegValue, at: nat, m: nat)
    requires at + m <= 8
    ensures Load(BytesOf(v), at, m) == v.low / Pow2(8 * at) % Pow2(8 * m)
    ensures Load(BytesOf(v), 8 + at, m) == v.middle / Pow2(8 * at) % Pow2(8 * m)
    ensures Load(BytesOf(v), 16 + at, m) == v.high / Pow2(8 * at) % Pow2(8 * m)
  {
    hide Pow2, FromBytes, ToBytes;
    BytesOfValue(v.low, 8, at, m);
    BytesOfValue(v.middle, 8, at, m);
    BytesOfValue(v.high, 8, at, m);
    SlicesOf(ToBytes(v.low, 8), ToBytes(v.middle, 8), ToBytes(v.high, 8), at, m);
  }

  lemma SlicesOf(a: seq<byte>, b: seq<byte>, c: seq<byte>, at: nat, m: nat)
    requires |a| == |b| == |c| == 8 && at + m <= 8
    ensures var all := a + b + c;
            && all[at..at + m] == a[at..at + m] && all[8 + at..8 + at + m] == b[at..at + m]
            && all[16 + at..16 + at + m] == c[at..at + m]
  {
  }

  /** Where the union's members lie in its bytes. */
  lemma MembersLie(v: RegValue)
    ensures var s, t, bytes := SegmentOf(v), TableOf(v), BytesOf(v);
            && s.selector == Load(bytes, 0, 2) && s.base == Load(bytes, 8, 8)
            && s.limit == Load(bytes, 16, 4) && s.attributes == Load(bytes, 20, 2)
            && t.base == Load(bytes, 0, 8) && t.limit == Load(bytes, 8, 2)
  {
    hide Load, BytesOf, Pow2;
    MemberPowers();
    LanesLie(v, 0, 2);
    LanesLie(v, 0, 4);
    LanesLie(v, 0, 8);
    LanesLie(v, 4, 2);
  }

  lemma MemberPowers()
    ensures Pow2(8 * 0) == 1 && Pow2(8 * 2) == 0x1_0000 && Pow2(8 * 4) == 0x1_0000_0000
    ensures Pow2(8 * 8) == Pow2(64) == 0x1_0000_0000_0000_0000
  {
    Powers();
    assert Pow2(0) == 1;
  }

  /** A write to register a can be seen in register b. */
  predicate Share(a: Reg, b: Reg) {
    match (a, b)
    case (General(x), General(y)) => Overlap(x, y)
    case (ST(i), MM(j)) => i == j
    case (MM(i), ST(j)) => i == j
    case _ => a == b
  }

  datatype Assignment = Assignment(reg: Reg, value: RegValue)

  function RegsOf(writes: seq<Assignment>): (regs: seq<Reg>)
    ensures |regs| == |writes|
    ensures forall i | 0 <= i < |writes| :: regs[i] == writes[i].reg
  {
    seq(|writes|, i requires 0 <= i < |writes| => writes[i].reg)
  }

  datatype FpuControl =
    FpuControl(cw: u16, sw: u16, tw: u16, op: u16, cs: u16, rip: u64, ds: u16, rdp: u64)

  // ----- Calls -------------------------------------------------------------------------

  /** What a call returns; the array reads also say whether they got through the whole array. */
  datatype Outcome =
    | Value(value: RegValue) | Values(values: seq<RegValue>, all: bool)
    | FpuState(control: FpuControl) | Mxcsr(mxcsr: u32)
    | Done | Unsupported | InvalidArguments | Failed

  /** A call fails, as far as failing may change the state, or does what the specification says. */
  predicate LegalStep<S(==), Op>(spec: (S, Op) -> (S, Outcome), fails: (S, Op, S) -> bool,
                                 before: S, op: Op, outcome: Outcome, after: S)
  {
    if outcome.Failed? then fails(before, op, after) else (after, outcome) == spec(before, op)
  }

  /** A sequence of calls that is legal one by one, through the states on the way. */
  predicate Legal<S(==), Op>(spec: (S, Op) -> (S, Outcome), fails: (S, Op, S) -> bool,
                             ops: seq<Op>, outcomes: seq<Outcome>, states: seq<S>)
  {
    && |outcomes| == |ops| && |states| == |ops| + 1
    && forall i | 0 <= i < |ops| :: LegalStep(spec, fails, states[i], ops[i], outcomes[i], states[i + 1])
  }

  /** All calls on a specification, one after the other. */
  function RunAll<S, Op>(spec: (S, Op) -> (S, Outcome), s: S, ops: seq<Op>): (r: (S, seq<Outcome>))
    ensures |r.1| == |ops|
    decreases |ops|
  {
    if ops == [] then (s, [])
    else
      var n := |ops| - 1;
      var (before, outcomes) := RunAll(spec, s, ops[..n]);
      var (after, outcome) := spec(before, ops[n]);
      (after, outcomes + [outcome])
  }

  /** Without failures, outcomes and states are those of the specification. */
  lemma {:induction false} LegalWithoutFailure<S, Op>(spec: (S, Op) -> (S, Outcome), fails: (S, Op, S) -> bool,
                                                      ops: seq<Op>, outcomes: seq<Outcome>, states: seq<S>)
    requires Legal(spec, fails, ops, outcomes, states) && Failed !in outcomes
    ensures RunAll(spec, states[0], ops) == (states[|ops|], outcomes)
    decreases |ops|
  {
    if ops != [] {
      var n := |ops| - 1;
      LegalWithoutFailure(spec, fails, ops[..n], outcomes[..n], states[..n + 1]);
      assert outcomes == outcomes[..n] + [outcomes[n]];
      assert outcomes[n] in outcomes;
      assert LegalStep(spec, fails, states[n], ops[n], outcomes[n], states[n + 1]);
    } else {
      assert outcomes == [];
    }
  }
}

/** The register structures of the KVM backend and what their accessors read and write. */
module KvmRegisters {
  import opened Bits
  import opened SubRegisters
  import opened Registers
  import opened FpuRegisters
  import Gdt

  type Segments = s: seq<Gdt.KvmSegment> | |s| == 8 witness seq<Gdt.KvmSegment>(8, i => ZERO_SEGMENT)
  type Tables = s: seq<Gdt.TableRegister> | |s| == 2 witness seq<Gdt.TableRegister>(2, i => Gdt.TableRegister(0, 0))
  type Controls = s: seq<u64> | |s| == 4 witness seq<u64>(4, i => 0)
  type DebugRegs = s: seq<u64> | |s| == 6 witness seq<u64>(6, i => 0)

  const ZERO_SEGMENT := Gdt.KvmSegment(0, 0, 0, 0, 0, 0, 0, 0, 0, 0, 0)

  datatype SystemRegs = SystemRegs(segments: Segments, tables: Tables, controls: Controls, efer: u64)

  /** The four groups of registers. */
  datatype Machine = Machine(gprs: KvmFile, sregs: SystemRegs, debug: DebugRegs, fpu: KvmFpu)

  datatype Group = Regs | Sregs | DebugGroup | Fpu

  function GroupOf(reg: Reg): Group
    requires IsSupported(reg)
  {
    match reg
    case General(_) => Regs
    case Segment(_) => Sregs
    case Table(_) => Sregs
    case Control(_) => Sregs
    case Efer => Sregs
    case Debug(_) => DebugGroup
    case _ => Fpu
  }

  function Read(m: Machine, reg: Reg): RegValue
    requires IsSupported(reg)
  {
    match reg
    case General(alias) => RegValue(FromWord(KvmRead(m.gprs, alias)), 0, 0)
    case Segment(i) => OfSegment(Gdt.LoadSegment(m.sregs.segments[i]))
    case Table(i) => OfTable(m.sregs.tables[i])
    case Control(i) => RegValue(m.sregs.controls[i], 0, 0)
    case Efer => RegValue(m.sregs.efer, 0, 0)
    case Debug(i) => RegValue(m.debug[i], 0, 0)
    case _ => KvmReadFpu(m.fpu, reg)
  }

  /** EFER is written from the 32-bit member of the value. */
  function WriteSystem(s: SystemRegs, reg: Reg, v: RegValue): SystemRegs
    requires IsSupported(reg) && GroupOf(reg).Sregs?
  {
    match reg
    case Segment(i) => s.(segments := s.segments[i := Gdt.StoreSegment(SegmentOf(v))])
    case Table(i) => s.(tables := s.tables[i := TableOf(v)])
    case Control(i) => s.(controls := s.controls[i := v.low])
    case Efer => s.(efer := v.low % 0x1_0000_0000)
  }

  function Write(m: Machine, reg: Reg, v: RegValue): Machine
    requires IsSupported(reg)
  {
    match GroupOf(reg)
    case Regs => m.(gprs := KvmWrite(m.gprs, reg.alias, ToWord(v.low)))
    case Sregs => m.(sregs := WriteSystem(m.sregs, reg, v))
    case DebugGroup => m.(debug := m.debug[reg.index := v.low])
    case Fpu => m.(fpu := KvmWriteFpu(m.fpu, reg, v))
  }

  /**
   * A register reads back the member it was written with, except exactly for a
   * segment with attribute bits 11:8 and an EFER value with upper bits.
   */
  lemma ReadBackIff(m: Machine, reg: Reg, v: RegValue)
    requires IsSupported(reg)
    ensures Read(Write(m, reg, v), reg) == Member(reg, v) <==>
            && (reg.Segment? ==> SegmentOf(v).attributes / 0x100 % 0x10 == 0)
            && (reg.Efer? ==> v.low < 0x1_0000_0000)
  {
    hide Read, Write, Member, SegmentOf;
    match GroupOf(reg)
    case Regs => GprReadBack(m, reg, v);
    case Sregs => SystemReadBackIff(m, reg, v);
    case DebugGroup => DebugReadBack(m, reg, v);
    case Fpu => FpuReadBack(m, reg, v);
  }

  lemma GprReadBack(m: Machine, reg: Reg, v: RegValue)
    requires reg.General? && IsSupported(reg)
    ensures Read(Write(m, reg, v), reg) == Member(reg, v)
  {
    hide KvmRead, KvmWrite, Truncate, ToWord, FromWord;
    FileReadBack(m.gprs, reg.alias, ToWord(v.low));
  }

  lemma FileReadBack(file: KvmFile, alias: Alias, value: bv64)
    ensures KvmRead(KvmWrite(file, alias, value), alias) == Truncate(value, alias.part)
  {
    hide KvmReadWord, KvmWriteWord, Truncate;
    WrittenIsRead(file[alias.gpr], alias.part, value);
  }

  lemma SystemReadBackIff(m: Machine, reg: Reg, v: RegValue)
    requires IsSupported(reg) && GroupOf(reg).Sregs?
    ensures Read(Write(m, reg, v), reg) == Member(reg, v) <==>
            && (reg.Segment? ==> SegmentOf(v).attributes / 0x100 % 0x10 == 0)
            && (reg.Efer? ==> v.low < 0x1_0000_0000)
  {
    hide KvmRead, KvmWrite, Truncate, KvmReadFpu, KvmWriteFpu, SegmentOf, OfSegment, Gdt.LoadSegment, Gdt.StoreSegment;
    if reg.Segment? {
      SegmentReadBackIff(SegmentOf(v));
    }
  }

  lemma DebugReadBack(m: Machine, reg: Reg, v: RegValue)
    requires reg.Debug? && IsSupported(reg)
    ensures Read(Write(m, reg, v), reg) == Member(reg, v)
  {
  }

  lemma FpuReadBack(m: Machine, reg: Reg, v: RegValue)
    requires IsFpu(reg)
    ensures Read(Write(m, reg, v), reg) == Member(reg, v)
  {
    hide KvmReadFpu, KvmWriteFpu, Member;
    KvmFpuReadBack(m.fpu, reg, v);
  }

  /** Departure: a code segment with attribute bit 8 and an EFER value of 2^32 do not read back. */
  lemma AttributesAreCut(m: Machine)
    ensures var v := RegValue(0, 0, 0x100_0000_0000); Read(Write(m, Segment(0), v), Segment(0)) != Member(Segment(0), v)
    ensures var v := RegValue(0x1_0000_0000, 0, 0); Read(Write(m, Efer, v), Efer) != Member(Efer, v)
  {
    hide Read, Write, Member;
    ReadBackIff(m, Segment(0), RegValue(0, 0, 0x100_0000_0000));
    ReadBackIff(m, Efer, RegValue(0x1_0000_0000, 0, 0));
  }

  lemma SegmentReadBackIff(s: Gdt.Segment)
    ensures OfSegment(Gdt.LoadSegment(Gdt.StoreSegment(s))) == OfSegment(s) <==> s.attributes / 0x100 % 0x10 == 0
  {
    hide Gdt.LoadSegment, Gdt.StoreSegment, OfSegment, SegmentOf;
    Gdt.KvmSegmentRoundTripIff(s);
    SegmentMember(s);
    SegmentMember(Gdt.LoadSegment(Gdt.StoreSegment(s)));
  }

  lemma OtherKept(m: Machine, a: Reg, b: Reg, v: RegValue)
    requires IsSupported(a) && IsSupported(b) && !Share(a, b)
    ensures Read(Write(m, a, v), b) == Read(m, b)
  {
    hide KvmRead, KvmWrite, KvmReadFpu, KvmWriteFpu, OfSegment, SegmentOf, Gdt.LoadSegment, Gdt.StoreSegment;
    if a.General? && b.General? {
      OtherAliasKept(m.gprs, a.alias, b.alias, ToWord(v.low));
    } else if IsFpu(a) && IsFpu(b) {
      KvmFpuOtherKept(m.fpu, a, b, v);
    }
  }

  /** Writes an array of registers up to the first one that is not supported. */
  function WriteAll(m: Machine, writes: seq<Assignment>): (Machine, bool)
    decreases |writes|
  {
    if writes == [] then (m, true)
    else if !IsSupported(writes[0].reg) then (m, false)
    else WriteAll(Write(m, writes[0].reg, writes[0].value), writes[1..])
  }

  /** The values of the registers up to the first one that is not supported, in their order. */
  function ReadAll(m: Machine, regs: seq<Reg>): (values: seq<RegValue>)
    ensures SupportedPrefix(regs, |values|)
    ensures forall i | 0 <= i < |values| :: values[i] == Read(m, regs[i])
  {
    hide Read, IsSupported;
    if regs == [] || !IsSupported(regs[0]) then []
    else [Read(m, regs[0])] + ReadAll(m, regs[1..])
  }

  /** Nothing else has these values. */
  lemma ReadAllIs(m: Machine, regs: seq<Reg>, values: seq<RegValue>)
    requires SupportedPrefix(regs, |values|)
    requires forall i | 0 <= i < |values| :: values[i] == Read(m, regs[i])
    ensures ReadAll(m, regs) == values
  {
    hide Read, IsSupported;
    PrefixUnique(regs, |values|, |ReadAll(m, regs)|);
  }

  /** Over any sequence of writes the last value written is read, if no register that shares bits was written since. */
  lemma {:induction false} LastValueIsRead(m: Machine, reg: Reg, v: RegValue, later: seq<Assignment>)
    requires IsSupported(reg)
    requires forall w | w in later :: !Share(w.reg, reg)
    ensures Read(WriteAll(Write(m, reg, v), later).0, reg) == Read(Write(m, reg, v), reg)
  {
    hide Read, Write;
    OthersKept(Write(m, reg, v), reg, later);
  }

  lemma {:induction false} OthersKept(m: Machine, reg: Reg, writes: seq<Assignment>)
    requires IsSupported(reg)
    requires forall w | w in writes :: !Share(w.reg, reg)
    ensures Read(WriteAll(m, writes).0, reg) == Read(m, reg)
    decreases |writes|
  {
    hide Read, Write;
    if writes != [] && IsSupported(writes[0].reg) {
      OtherKept(m, writes[0].reg, reg, writes[0].value);
      OthersKept(Write(m, writes[0].reg, writes[0].value), reg, writes[1..]);
    }
  }

  /** What a register reads back does not depend on what it held. */
  lemma ReadBackAlike(m: Machine, m': Machine, reg: Reg, v: RegValue)
    requires IsSupported(reg)
    ensures Read(Write(m, reg, v), reg) == Read(Write(m', reg, v), reg)
  {
    hide KvmRead, KvmWrite, Truncate, KvmReadFpu, KvmWriteFpu, SegmentOf, OfSegment, Gdt.LoadSegment, Gdt.StoreSegment;
    if reg.General? {
      FileReadBack(m.gprs, reg.alias, ToWord(v.low));
      FileReadBack(m'.gprs, reg.alias, ToWord(v.low));
    } else if IsFpu(reg) {
      KvmFpuReadBack(m.fpu, reg, v);
      KvmFpuReadBack(m'.fpu, reg, v);
    }
  }

  /** An array write is a write of its supported prefix. */
  lemma {:induction false} WriteAllPrefix(m: Machine, writes: seq<Assignment>, n: nat)
    requires SupportedPrefix(RegsOf(writes), n)
    ensures WriteAll(m, writes) == (WriteAll(m, writes[..n]).0, n == |writes|)
    decreases n
  {
    hide Read, Write, IsSupported;
    if n > 0 {
      var rest := writes[1..];
      assert RegsOf(writes)[0] == writes[0].reg;
      assert forall i | 0 <= i < |rest| :: RegsOf(rest)[i] == RegsOf(writes)[i + 1];
      WriteAllPrefix(Write(m, writes[0].reg, writes[0].value), rest, n - 1);
      assert writes[..n][1..] == rest[..n - 1];
    } else if writes != [] {
      assert RegsOf(writes)[0] == writes[0].reg;
    }
  }

  lemma {:induction false} WriteAllSplit(m: Machine, first: seq<Assignment>, rest: seq<Assignment>)
    requires forall w | w in first :: IsSupported(w.reg)
    ensures WriteAll(m, first + rest) == WriteAll(WriteAll(m, first).0, rest)
    decreases |first|
  {
    hide Read, Write, IsSupported;
    if first == [] {
      assert first + rest == rest;
    } else {
      assert (first + rest)[1..] == first[1..] + rest;
      WriteAllSplit(Write(m, first[0].reg, first[0].value), first[1..], rest);
    }
  }

  lemma WriteAllHead(m: Machine, w: Assignment, rest: seq<Assignment>)
    requires IsSupported(w.reg)
    ensures WriteAll(m, [w] + rest) == WriteAll(Write(m, w.reg, w.value), rest)
  {
    hide Write, IsSupported;
    assert ([w] + rest)[1..] == rest;
  }

  lemma PrefixSupported(writes: seq<Assignment>, n: nat)
    requires SupportedPrefix(RegsOf(writes), n)
    ensures forall j | 0 <= j < n :: IsSupported(writes[j].reg)
  {
  }

  /**
   * An array write goes through the supported prefix in order: each register in
   * it reads back its own value unless a later one in it shares bits.
   */
  lemma ArrayWriteIsRead(m: Machine, writes: seq<Assignment>, n: nat, i: nat)
    requires SupportedPrefix(RegsOf(writes), n) && i < n
    requires forall j | i < j < n :: !Share(writes[j].reg, writes[i].reg)
    ensures IsSupported(writes[i].reg)
    ensures Read(WriteAll(m, writes).0, writes[i].reg) ==
            Read(Write(m, writes[i].reg, writes[i].value), writes[i].reg)
  {
    hide Read, Write, WriteAll, IsSupported, Share;
    PrefixSupported(writes, n);
    WriteAllPrefix(m, writes, n);
    hide SupportedPrefix;
    assert writes[..n] == writes[..i] + ([writes[i]] + writes[i + 1..n]);
    MiddleIsRead(m, writes[..i], writes[i], writes[i + 1..n]);
  }

  lemma MiddleIsRead(m: Machine, first: seq<Assignment>, w: Assignment, rest: seq<Assignment>)
    requires IsSupported(w.reg) && forall x | x in first :: IsSupported(x.reg)
    requires forall x | x in rest :: !Share(x.reg, w.reg)
    ensures Read(WriteAll(m, first + ([w] + rest)).0, w.reg) == Read(Write(m, w.reg, w.value), w.reg)
  {
    hide Read, Write, WriteAll, IsSupported, Share;
    var before := WriteAll(m, first).0;
    WriteAllSplit(m, first, [w] + rest);
    WriteAllHead(before, w, rest);
    OthersKept(Write(before, w.reg, w.value), w.reg, rest);
    ReadBackAlike(before, m, w.reg, w.value);
  }

  /** And it leaves every register that shares bits with none of them. */
  lemma ArrayWriteLeaves(m: Machine, writes: seq<Assignment>, n: nat, reg: Reg)
    requires SupportedPrefix(RegsOf(writes), n) && IsSupported(reg)
    requires forall j | 0 <= j < n :: !Share(writes[j].reg, reg)
    ensures Read(WriteAll(m, writes).0, reg) == Read(m, reg)
  {
    hide Read, Write, IsSupported, Share;
    WriteAllPrefix(m, writes, n);
    OthersKept(m, reg, writes[..n]);
  }
}

/** The register structures of the HAXM backend, and their agreement with those of KVM. */
module HaxmRegisters {
  import opened Bits
  import opened SubRegisters
  import opened Registers
  import opened FpuRegisters
  import Gdt
  import KvmRegisters

  /** A segment or table descriptor; ar holds the attributes. */
  datatype SegmentDesc = SegmentDesc(selector: u16, limit: u32, base: u64, ar: u32)

  type Segments = s: seq<SegmentDesc> | |s| == 8 witness seq<SegmentDesc>(8, i => SegmentDesc(0, 0, 0, 0))
  type Tables = s: seq<SegmentDesc> | |s| == 2 witness seq<SegmentDesc>(2, i => SegmentDesc(0, 0, 0, 0))

  datatype MainRegs = MainRegs(gprs: HaxmFile, segments: Segments, tables: Tables, controls: KvmRegisters.Controls,
                               debug: KvmRegisters.DebugRegs, efer: u32)

  /** The two groups of registers. */
  datatype Machine = Machine(main: MainRegs, fpu: HaxmFpu)

  function LoadSegment(d: SegmentDesc): Gdt.Segment {
    Gdt.Segment(d.selector, d.base, d.limit, d.ar % 0x1_0000)
  }

  function StoreSegment(s: Gdt.Segment): SegmentDesc {
    SegmentDesc(s.selector, s.limit, s.base, s.attributes)
  }

  function LoadTable(d: SegmentDesc): Gdt.TableRegister {
    Gdt.TableRegister(d.base, d.limit % 0x1_0000)
  }

  function StoreTable(d: SegmentDesc, t: Gdt.TableRegister): SegmentDesc {
    d.(base := t.base, limit := t.limit)
  }

  function ReadMain(m: MainRegs, reg: Reg): RegValue
    requires IsSupported(reg) && !IsFpu(reg)
  {
    match reg
    case General(alias) => RegValue(FromWord(HaxmRead(m.gprs, alias)), 0, 0)
    case Segment(i) => OfSegment(LoadSegment(m.segments[i]))
    case Table(i) => OfTable(LoadTable(m.tables[i]))
    case Control(i) => RegValue(m.controls[i], 0, 0)
    case Efer => RegValue(m.efer, 0, 0)
    case Debug(i) => RegValue(m.debug[i], 0, 0)
  }

  function WriteMain(m: MainRegs, reg: Reg, v: RegValue): MainRegs
    requires IsSupported(reg) && !IsFpu(reg)
  {
    match reg
    case General(alias) => m.(gprs := HaxmWrite(m.gprs, alias, ToWord(v.low)))
    case Segment(i) => m.(segments := m.segments[i := StoreSegment(SegmentOf(v))])
    case Table(i) => m.(tables := m.tables[i := StoreTable(m.tables[i], TableOf(v))])
    case Control(i) => m.(controls := m.controls[i := v.low])
    case Efer => m.(efer := v.low % 0x1_0000_0000)
    case Debug(i) => m.(debug := m.debug[i := v.low])
  }

  function Read(m: Machine, reg: Reg): RegValue
    requires IsSupported(reg)
  {
    if IsFpu(reg) then HaxmReadFpu(m.fpu, reg) else ReadMain(m.main, reg)
  }

  function Write(m: Machine, reg: Reg, v: RegValue): Machine
    requires IsSupported(reg)
  {
    if IsFpu(reg) then m.(fpu := HaxmWriteFpu(m.fpu, reg, v)) else m.(main := WriteMain(m.main, reg, v))
  }

  /** Writes an array of registers up to the first one that is not supported. */
  function WriteAll(m: Machine, writes: seq<Assignment>): (Machine, bool)
    decreases |writes|
  {
    if writes == [] then (m, true)
    else if !IsSupported(writes[0].reg) then (m, false)
    else WriteAll(Write(m, writes[0].reg, writes[0].value), writes[1..])
  }

  /** The values of the registers up to the first one that is not supported, in their order. */
  function ReadAll(m: Machine, regs: seq<Reg>): (values: seq<RegValue>)
    ensures SupportedPrefix(regs, |values|)
    ensures forall i | 0 <= i < |values| :: values[i] == Read(m, regs[i])
  {
    hide Read, IsSupported;
    if regs == [] || !IsSupported(regs[0]) then []
    else [Read(m, regs[0])] + ReadAll(m, regs[1..])
  }

  /** Nothing else has these values. */
  lemma ReadAllIs(m: Machine, regs: seq<Reg>, values: seq<RegValue>)
    requires SupportedPrefix(regs, |values|)
    requires forall i | 0 <= i < |values| :: values[i] == Read(m, regs[i])
    ensures ReadAll(m, regs) == values
  {
    hide Read, IsSupported;
    PrefixUnique(regs, |values|, |ReadAll(m, regs)|);
  }

  // ----- Agreement with KVM --------------------------------------------------------------

  /** A HAXM machine in the KVM structures. */
  function KvmOf(m: Machine): KvmRegisters.Machine {
    KvmRegisters.Machine(Words(m.main.gprs), SystemOf(m.main), m.main.debug, KvmFpuOf(m.fpu))
  }

  function SystemOf(m: MainRegs): KvmRegisters.SystemRegs {
    KvmRegisters.SystemRegs(
      seq<Gdt.KvmSegment>(8, i requires 0 <= i < 8 => Gdt.StoreSegment(LoadSegment(m.segments[i]))),
      seq<Gdt.TableRegister>(2, i requires 0 <= i < 2 => LoadTable(m.tables[i])),
      m.controls, m.efer)
  }

  /** A write of SPL, BPL, SIL or DIL. */
  predicate IsByteThroughWord(reg: Reg) {
    reg.General? && IsStackOrIndexByte(reg.alias)
  }

  lemma GprWriteAgrees(file: HaxmFile, alias: Alias, value: bv64)
    requires alias.Valid() && !IsStackOrIndexByte(alias)
    ensures Words(HaxmWrite(file, alias, value)) == KvmWrite(Words(file), alias, value)
  {
    hide Word, HaxmWriteCell, KvmWriteWord;
    CellWritesAgreeIff(file[alias.gpr], alias, value);
  }

  lemma SystemWriteAgrees(m: MainRegs, reg: Reg, v: RegValue)
    requires IsSupported(reg) && KvmRegisters.GroupOf(reg).Sregs?
    ensures SystemOf(WriteMain(m, reg, v)) == KvmRegisters.WriteSystem(SystemOf(m), reg, v)
  {
    hide Gdt.StoreSegment, SegmentOf;
    var l, r := SystemOf(WriteMain(m, reg, v)), KvmRegisters.WriteSystem(SystemOf(m), reg, v);
    match reg
    case Segment(_) =>
      SegmentStored(SegmentOf(v));
      assert l.segments == r.segments;
    case Table(_) => assert l.tables == r.tables;
    case _ =>
  }

  lemma SegmentStored(s: Gdt.Segment)
    ensures LoadSegment(StoreSegment(s)) == s
  {
    ModSmall(s.attributes, 0x1_0000);
  }

  lemma WriteAgrees(m: Machine, reg: Reg, v: RegValue)
    requires IsSupported(reg) && !IsByteThroughWord(reg)
    ensures KvmOf(Write(m, reg, v)) == KvmRegisters.Write(KvmOf(m), reg, v)
  {
    hide HaxmWrite, KvmWrite, Words, HaxmWriteFpu, KvmWriteFpu, KvmFpuOf, SystemOf, KvmRegisters.WriteSystem;
    if !IsFpu(reg) {
      OtherGroups(m.main, reg, v);
    }
    match KvmRegisters.GroupOf(reg)
    case Regs => GprWriteAgrees(m.main.gprs, reg.alias, ToWord(v.low));
    case Sregs => SystemWriteAgrees(m.main, reg, v);
    case DebugGroup =>
    case Fpu => FpuWritesAgree(m.fpu, reg, v);
  }

  /** A write changes the parts of the main registers that it names. */
  lemma OtherGroups(m: MainRegs, reg: Reg, v: RegValue)
    requires IsSupported(reg) && !IsFpu(reg)
    ensures !KvmRegisters.GroupOf(reg).Sregs? ==> SystemOf(WriteMain(m, reg, v)) == SystemOf(m)
    ensures !reg.General? ==> WriteMain(m, reg, v).gprs == m.gprs
  {
    hide Gdt.StoreSegment, HaxmWrite;
  }

  /** The backends read a register alike, except exactly a segment whose attribute bits 11:8 are set. */
  lemma ReadAgreesIff(m: Machine, reg: Reg)
    requires IsSupported(reg)
    ensures Read(m, reg) == KvmRegisters.Read(KvmOf(m), reg) <==>
            (reg.Segment? ==> LoadSegment(m.main.segments[reg.index]).attributes / 0x100 % 0x10 == 0)
  {
    hide Word, HaxmReadCell, KvmReadWord, Gdt.LoadSegment, Gdt.StoreSegment, HaxmReadFpu, KvmReadFpu;
    if IsFpu(reg) {
      FpuReadsAgree(m.fpu, reg);
    }
    match reg
    case General(alias) => CellReadsAgree(m.main.gprs[alias.gpr], alias);
    case Segment(i) =>
      KvmRegisters.SegmentReadBackIff(LoadSegment(m.main.segments[i]));
    case _ =>
  }

  /**
   * After any sequence of writes that avoids SPL, BPL, SIL and DIL, the two
   * backends hold the same registers, and read each of them alike except exactly
   * a segment whose attribute bits 11:8 are set.
   */
  lemma {:induction false} RegisterFilesAgree(m: Machine, writes: seq<Assignment>)
    requires forall w | w in writes :: !IsByteThroughWord(w.reg)
    ensures var (after, all) := WriteAll(m, writes);
            && (KvmOf(after), all) == KvmRegisters.WriteAll(KvmOf(m), writes)
            && forall reg | IsSupported(reg) ::
                 Read(after, reg) == KvmRegisters.Read(KvmRegisters.WriteAll(KvmOf(m), writes).0, reg) <==>
                 (reg.Segment? ==> LoadSegment(after.main.segments[reg.index]).attributes / 0x100 % 0x10 == 0)
    decreases |writes|
  {
    hide Read, Write, KvmRegisters.Read, KvmRegisters.Write, KvmOf, LoadSegment;
    if writes == [] || !IsSupported(writes[0].reg) {
      forall reg | IsSupported(reg)
        ensures Read(m, reg) == KvmRegisters.Read(KvmOf(m), reg) <==>
                (reg.Segment? ==> LoadSegment(m.main.segments[reg.index]).attributes / 0x100 % 0x10 == 0)
      {
        ReadAgreesIff(m, reg);
      }
    } else {
      WriteAgrees(m, writes[0].reg, writes[0].value);
      RegisterFilesAgree(Write(m, writes[0].reg, writes[0].value), writes[1..]);
    }
  }

  /** A register reads back the member it was written with, except exactly an EFER value with upper bits. */
  lemma ReadBackIff(m: Machine, reg: Reg, v: RegValue)
    requires IsSupported(reg)
    ensures Read(Write(m, reg, v), reg) == Member(reg, v) <==> (reg.Efer? ==> v.low < 0x1_0000_0000)
  {
    if IsFpu(reg) {
      FpuReadBack(m.fpu, reg, v);
    } else {
      MainReadBackIff(m.main, reg, v);
    }
  }

  lemma FpuReadBack(f: HaxmFpu, reg: Reg, v: RegValue)
    requires IsFpu(reg)
    ensures HaxmReadFpu(HaxmWriteFpu(f, reg, v), reg) == Member(reg, v)
  {
    hide HaxmReadFpu, HaxmWriteFpu, KvmReadFpu, KvmWriteFpu, Member, KvmFpuOf;
    FpuReadsAgree(HaxmWriteFpu(f, reg, v), reg);
    FpuWritesAgree(f, reg, v);
    KvmFpuReadBack(KvmFpuOf(f), reg, v);
  }

  lemma MainReadBackIff(m: MainRegs, reg: Reg, v: RegValue)
    requires IsSupported(reg) && !IsFpu(reg)
    ensures ReadMain(WriteMain(m, reg, v), reg) == Member(reg, v) <==> (reg.Efer? ==> v.low < 0x1_0000_0000)
  {
    hide HaxmRead, HaxmWrite, Truncate, SegmentOf, OfSegment, LoadSegment, StoreSegment;
    if reg.General? {
      GprReadBack(m.gprs, reg.alias, ToWord(v.low));
    } else if reg.Segment? {
      SegmentStored(SegmentOf(v));
    }
  }

  lemma GprReadBack(file: HaxmFile, alias: Alias, value: bv64)
    requires alias.Valid()
    ensures HaxmRead(HaxmWrite(file, alias, value), alias) == Truncate(value, alias.part)
  {
    hide HaxmReadCell, HaxmWriteCell, Truncate;
    CellReadBack(file[alias.gpr], alias, value);
  }

  /** An alias is read back also where it is written through the 16-bit field. */
  lemma CellReadBack(c: Cell, alias: Alias, value: bv64)
    requires alias.Valid()
    ensures HaxmReadCell(HaxmWriteCell(c, alias, value), alias) == Truncate(value, alias.part)
  {
    hide Word, KvmReadWord, KvmWriteWord, Bytes, Join, HaxmReadCell, HaxmWriteCell;
    CellReadsAgree(HaxmWriteCell(c, alias, value), alias);
    if IsStackOrIndexByte(alias) {
      ByteOfWordField(c, alias, value);
    } else {
      CellWritesAgreeIff(c, alias, value);
      WrittenIsRead(Word(c), alias.part, value);
    }
  }

  lemma ByteOfWordField(c: Cell, alias: Alias, value: bv64)
    requires IsStackOrIndexByte(alias)
    ensures HaxmReadCell(HaxmWriteCell(c, alias, value), alias) == Truncate(value, alias.part)
  {
    hide Word;
  }

  lemma OtherKept(m: Machine, a: Reg, b: Reg, v: RegValue)
    requires IsSupported(a) && IsSupported(b) && !Share(a, b)
    ensures Read(Write(m, a, v), b) == Read(m, b)
  {
    hide HaxmRead, HaxmWrite, HaxmReadFpu, HaxmWriteFpu, OfSegment, SegmentOf, LoadSegment, StoreSegment;
    if a.General? && b.General? {
      CellOtherKept(m.main.gprs, a.alias, b.alias, ToWord(v.low));
    } else if IsFpu(a) && IsFpu(b) {
      FpuOtherKept(m.fpu, a, b, v);
    }
  }

  lemma FpuOtherKept(f: HaxmFpu, a: Reg, b: Reg, v: RegValue)
    requires IsFpu(a) && IsFpu(b) && !Share(a, b)
    ensures HaxmReadFpu(HaxmWriteFpu(f, a, v), b) == HaxmReadFpu(f, b)
  {
    hide HaxmReadFpu, HaxmWriteFpu, KvmReadFpu, KvmWriteFpu, KvmFpuOf, Share;
    FpuReadsAgree(f, b);
    FpuReadsAgree(HaxmWriteFpu(f, a, v), b);
    FpuWritesAgree(f, a, v);
    KvmFpuOtherKept(KvmFpuOf(f), a, b, v);
  }

  /** Aliases that share no bits are kept, also where one is written through the 16-bit field. */
  lemma CellOtherKept(file: HaxmFile, a: Alias, b: Alias, value: bv64)
    requires a.Valid() && b.Valid() && !Overlap(a, b)
    ensures HaxmRead(HaxmWrite(file, a, value), b) == HaxmRead(file, b)
  {
    hide Word, HaxmReadCell, HaxmWriteCell, KvmReadWord, KvmWriteWord;
    if a.gpr == b.gpr {
      var c := file[a.gpr];
      assert !IsStackOrIndexByte(a);
      CellWritesAgreeIff(c, a, value);
      CellReadsAgree(HaxmWriteCell(c, a, value), b);
      CellReadsAgree(c, b);
      BytesApart(Word(c), value);
    }
  }

  lemma {:induction false} OthersKept(m: Machine, reg: Reg, writes: seq<Assignment>)
    requires IsSupported(reg)
    requires forall w | w in writes :: !Share(w.reg, reg)
    ensures Read(WriteAll(m, writes).0, reg) == Read(m, reg)
    decreases |writes|
  {
    hide Read, Write;
    if writes != [] && IsSupported(writes[0].reg) {
      OtherKept(m, writes[0].reg, reg, writes[0].value);
      OthersKept(Write(m, writes[0].reg, writes[0].value), reg, writes[1..]);
    }
  }

  /** What a register reads back does not depend on what it held. */
  lemma ReadBackAlike(m: Machine, m': Machine, reg: Reg, v: RegValue)
    requires IsSupported(reg)
    ensures Read(Write(m, reg, v), reg) == Read(Write(m', reg, v), reg)
  {
    hide HaxmRead, HaxmWrite, Truncate, HaxmReadFpu, HaxmWriteFpu, SegmentOf, OfSegment, LoadSegment, StoreSegment;
    if reg.General? {
      GprReadBack(m.main.gprs, reg.alias, ToWord(v.low));
      GprReadBack(m'.main.gprs, reg.alias, ToWord(v.low));
    } else if IsFpu(reg) {
      FpuReadBack(m.fpu, reg, v);
      FpuReadBack(m'.fpu, reg, v);
    }
  }

  /** An array write is a write of its supported prefix. */
  lemma {:induction false} WriteAllPrefix(m: Machine, writes: seq<Assignment>, n: nat)
    requires SupportedPrefix(RegsOf(writes), n)
    ensures WriteAll(m, writes) == (WriteAll(m, writes[..n]).0, n == |writes|)
    decreases n
  {
    hide Read, Write, IsSupported;
    if n > 0 {
      var rest := writes[1..];
      assert RegsOf(writes)[0] == writes[0].reg;
      assert forall i | 0 <= i < |rest| :: RegsOf(rest)[i] == RegsOf(writes)[i + 1];
      WriteAllPrefix(Write(m, writes[0].reg, writes[0].value), rest, n - 1);
      assert writes[..n][1..] == rest[..n - 1];
    } else if writes != [] {
      assert RegsOf(writes)[0] == writes[0].reg;
    }
  }

  lemma {:induction false} WriteAllSplit(m: Machine, first: seq<Assignment>, rest: seq<Assignment>)
    requires forall w | w in first :: IsSupported(w.reg)
    ensures WriteAll(m, first + rest) == WriteAll(WriteAll(m, first).0, rest)
    decreases |first|
  {
    hide Read, Write, IsSupported;
    if first == [] {
      assert first + rest == rest;
    } else {
      assert (first + rest)[1..] == first[1..] + rest;
      WriteAllSplit(Write(m, first[0].reg, first[0].value), first[1..], rest);
    }
  }

  lemma WriteAllHead(m: Machine, w: Assignment, rest: seq<Assignment>)
    requires IsSupported(w.reg)
    ensures WriteAll(m, [w] + rest) == WriteAll(Write(m, w.reg, w.value), rest)
  {
    hide Write, IsSupported;
    assert ([w] + rest)[1..] == rest;
  }

  lemma PrefixSupported(writes: seq<Assignment>, n: nat)
    requires SupportedPrefix(RegsOf(writes), n)
    ensures forall j | 0 <= j < n :: IsSupported(writes[j].reg)
  {
  }

  /**
   * An array write goes through the supported prefix in order: each register in
   * it reads back its own value unless a later one in it shares bits.
   */
  lemma ArrayWriteIsRead(m: Machine, writes: seq<Assignment>, n: nat, i: nat)
    requires SupportedPrefix(RegsOf(writes), n) && i < n
    requires forall j | i < j < n :: !Share(writes[j].reg, writes[i].reg)
    ensures IsSupported(writes[i].reg)
    ensures Read(WriteAll(m, writes).0, writes[i].reg) ==
            Read(Write(m, writes[i].reg, writes[i].value), writes[i].reg)
  {
    hide Read, Write, WriteAll, IsSupported, Share;
    PrefixSupported(writes, n);
    WriteAllPrefix(m, writes, n);
    hide SupportedPrefix;
    assert writes[..n] == writes[..i] + ([writes[i]] + writes[i + 1..n]);
    MiddleIsRead(m, writes[..i], writes[i], writes[i + 1..n]);
  }

  lemma MiddleIsRead(m: Machine, first: seq<Assignment>, w: Assignment, rest: seq<Assignment>)
    requires IsSupported(w.reg) && forall x | x in first :: IsSupported(x.reg)
    requires forall x | x in rest :: !Share(x.reg, w.reg)
    ensures Read(WriteAll(m, first + ([w] + rest)).0, w.reg) == Read(Write(m, w.reg, w.value), w.reg)
  {
    hide Read, Write, WriteAll, IsSupported, Share;
    var before := WriteAll(m, first).0;
    WriteAllSplit(m, first, [w] + rest);
    WriteAllHead(before, w, rest);
    OthersKept(Write(before, w.reg, w.value), w.reg, rest);
    ReadBackAlike(before, m, w.reg, w.value);
  }

  /** And it leaves every register that shares bits with none of them. */
  lemma ArrayWriteLeaves(m: Machine, writes: seq<Assignment>, n: nat, reg: Reg)
    requires SupportedPrefix(RegsOf(writes), n) && IsSupported(reg)
    requires forall j | 0 <= j < n :: !Share(writes[j].reg, reg)
    ensures Read(WriteAll(m, writes).0, reg) == Read(m, reg)
  {
    hide Read, Write, IsSupported, Share;
    WriteAllPrefix(m, writes, n);
    OthersKept(m, reg, writes[..n]);
  }
}

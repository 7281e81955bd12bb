/** The HAXM virtual processor's write-back register cache, against an uncached register file. */
module HaxmCache {
  import opened Bits
  import opened Wrappers
  import opened Registers
  import opened FpuRegisters
  import opened HaxmRegisters

  /**
   * A call on the virtual processor. The array calls take None for a null array.
   * Running the guest is a function of the machine it runs on.
   */
  datatype Op =
    | RegRead(reg: Reg) | RegReads(regs: Option<seq<Reg>>)
    | RegWrite(reg: Reg, value: RegValue) | RegWrites(writes: Option<seq<Assignment>>)
    | GetFPUControl | SetFPUControl(control: FpuControl)
    | GetMXCSR | SetMXCSR(mxcsr: u32) | GetMXCSRMask | SetMXCSRMask(mask: u32)
    | Run(guest: Machine -> Machine)

  /** What each call does to a machine without a cache. */
  function Spec(m: Machine, op: Op): (Machine, Outcome) {
    match op
    case RegRead(reg) => (m, if IsSupported(reg) then Value(Read(m, reg)) else Unsupported)
    case RegReads(None) => (m, InvalidArguments)
    case RegReads(Some(regs)) => (m, Values(ReadAll(m, regs), |ReadAll(m, regs)| == |regs|))
    case RegWrite(reg, v) => if IsSupported(reg) then (Write(m, reg, v), Done) else (m, Unsupported)
    case RegWrites(None) => (m, InvalidArguments)
    case RegWrites(Some(writes)) =>
      var (after, all) := WriteAll(m, writes);
      (after, if all then Done else Unsupported)
    case GetFPUControl => (m, FpuState(HaxmFpuControl(m.fpu)))
    case SetFPUControl(c) => (m.(fpu := HaxmSetFpuControl(m.fpu, c)), Done)
    case GetMXCSR => (m, Mxcsr(m.fpu.mxcsr))
    case SetMXCSR(w) => (m.(fpu := m.fpu.(mxcsr := w)), Done)
    case GetMXCSRMask => (m, Mxcsr(m.fpu.mxcsrMask))
    case SetMXCSRMask(w) => (m.(fpu := m.fpu.(mxcsrMask := w)), Done)
    case Run(guest) => (guest(m), Done)
  }

  // ----- Laws of the uncached machine ------------------------------------------------------

  predicate IsGet(op: Op) {
    op.RegRead? || op.RegReads? || op.GetFPUControl? || op.GetMXCSR? || op.GetMXCSRMask?
  }

  predicate IsSet(op: Op) {
    op.RegWrite? || op.SetFPUControl? || op.SetMXCSR? || op.SetMXCSRMask?
  }

  /** The call sets what the other one gets, or a part of it. */
  predicate Affects(set_: Op, get: Op) {
    match (set_, get)
    case (RegWrite(a, _), RegRead(b)) => Share(a, b)
    case (SetFPUControl(_), GetFPUControl) => true
    case (SetMXCSR(_), GetMXCSR) => true
    case (SetMXCSRMask(_), GetMXCSRMask) => true
    case _ => false
  }

  lemma GetsChangeNothing(m: Machine, get: Op)
    requires IsGet(get)
    ensures Spec(m, get).0 == m
  {
  }

  /** A call that sets something leaves what every other call gets. */
  lemma OthersGetAlike(m: Machine, set_: Op, get: Op)
    requires IsSet(set_) && IsGet(get) && !get.RegReads? && !Affects(set_, get)
    ensures Spec(Spec(m, set_).0, get).1 == Spec(m, get).1
  {
    hide ReadMain, WriteMain, HaxmReadFpu, HaxmWriteFpu, HaxmFpuControl, HaxmSetFpuControl, Read, Write;
    match set_
    case RegWrite(reg, v) =>
      if IsSupported(reg) {
        WriteAffects(m, reg, v, get);
      }
    case SetFPUControl(c) => ControlAffects(m, c, get);
    case SetMXCSR(w) => MxcsrAffects(m, w, get);
    case SetMXCSRMask(w) => MxcsrAffects(m, w, get);
  }

  lemma WriteAffects(m: Machine, reg: Reg, v: RegValue, get: Op)
    requires IsSupported(reg) && IsGet(get) && !get.RegReads? && !Affects(Op.RegWrite(reg, v), get)
    ensures Spec(Write(m, reg, v), get).1 == Spec(m, get).1
  {
    hide ReadMain, WriteMain, HaxmReadFpu, HaxmWriteFpu, HaxmFpuControl, Read;
    if get.RegRead? && IsSupported(get.reg) {
      OtherKept(m, reg, get.reg, v);
    } else if IsFpu(reg) {
      HaxmFpuFrames(m.fpu, HaxmFpuControl(m.fpu), reg, v);
    }
  }

  lemma ControlAffects(m: Machine, c: FpuControl, get: Op)
    requires IsGet(get) && !get.RegReads? && !get.GetFPUControl?
    ensures Spec(m.(fpu := HaxmSetFpuControl(m.fpu, c)), get).1 == Spec(m, get).1
  {
    hide ReadMain, HaxmReadFpu, HaxmSetFpuControl;
    HaxmFpuFrames(m.fpu, c, ST(0), RegValue(0, 0, 0));
    if get.RegRead? && IsFpu(get.reg) {
      HaxmFpuFrames(m.fpu, c, get.reg, RegValue(0, 0, 0));
    }
  }

  lemma MxcsrAffects(m: Machine, w: u32, get: Op)
    requires IsGet(get) && !get.RegReads?
    ensures !get.GetMXCSR? ==> Spec(m.(fpu := m.fpu.(mxcsr := w)), get).1 == Spec(m, get).1
    ensures !get.GetMXCSRMask? ==> Spec(m.(fpu := m.fpu.(mxcsrMask := w)), get).1 == Spec(m, get).1
  {
    hide ReadMain, LoadST, LoadMM, LoadXMM;
  }

  /** What is set is got: MXCSR and its mask always, control values and registers under the exact conditions. */
  lemma SetIsGot(m: Machine, w: u32, c: FpuControl, reg: Reg, v: RegValue)
    ensures Spec(Spec(m, SetMXCSR(w)).0, GetMXCSR).1 == Mxcsr(w)
    ensures Spec(Spec(m, SetMXCSRMask(w)).0, GetMXCSRMask).1 == Mxcsr(w)
    ensures Spec(Spec(m, SetFPUControl(c)).0, GetFPUControl).1 == FpuState(c) <==>
            c.tw < 0x100 && c.rip < 0x1_0000_0000 && c.rdp < 0x1_0000_0000
    ensures Spec(Spec(m, Op.RegWrite(reg, v)).0, RegRead(reg)).1 == Value(Member(reg, v)) <==>
            IsSupported(reg) && (reg.Efer? ==> v.low < 0x1_0000_0000)
  {
    hide Read, Write, Member, HaxmFpuControl, HaxmSetFpuControl;
    HaxmFpuControlReadBackIff(m.fpu, c);
    if IsSupported(reg) {
      ReadBackIff(m, reg, v);
    }
  }

  /** A failing call changes nothing. */
  predicate Unchanged(before: Machine, op: Op, after: Machine) {
    after == before
  }

  /** Whether each hypervisor call made on the way succeeds. */
  datatype Answers = Answers(getMain: bool, getFpu: bool, setMain: bool, setFpu: bool, run: bool)

  class HaxmVirtualProcessor {
    var regs: MainRegs
    var fpuRegs: HaxmFpu
    var regsDirty: bool
    var regsChanged: bool
    var fpuRegsChanged: bool
    /** The hypervisor's own copy. */
    var hypervisor: Machine

    /** A dirty cache holds no pending write, and a clean group without one equals the hypervisor's copy. */
    ghost predicate Valid()
      reads this
    {
      && (regsDirty ==> !regsChanged && !fpuRegsChanged)
      && (!regsDirty && !regsChanged ==> regs == hypervisor.main)
      && (!regsDirty && !fpuRegsChanged ==> fpuRegs == hypervisor.fpu)
    }

    /** The machine a caller sees. */
    ghost function Seen(): Machine
      reads this
    {
      if regsDirty then hypervisor else Machine(regs, fpuRegs)
    }

    constructor (regs: MainRegs, fpuRegs: HaxmFpu, hypervisor: Machine)
      ensures Valid() && Seen() == hypervisor && this.hypervisor == hypervisor
    {
      this.regs := regs;
      this.fpuRegs := fpuRegs;
      this.hypervisor := hypervisor;
      regsDirty := true;
      regsChanged := false;
      fpuRegsChanged := false;
    }

    /**
     * Pushes pending groups and ignores whether that worked. The hypervisor ends
     * up with the machine the caller sees exactly when every pending group was
     * pushed or equals the hypervisor's copy anyway; otherwise a write is lost.
     */
    method UpdateRegisters(a: Answers)
      requires Valid()
      modifies this
      ensures Seen() == old(Seen()) && regsDirty == old(regsDirty) && !regsChanged && !fpuRegsChanged
      ensures hypervisor.main == (if old(regsChanged) && a.setMain then old(regs) else old(hypervisor.main))
      ensures hypervisor.fpu == (if old(fpuRegsChanged) && a.setFpu then old(fpuRegs) else old(hypervisor.fpu))
      ensures hypervisor == old(Seen()) <==>
                && (old(regsChanged) ==> a.setMain || old(regs) == old(hypervisor.main))
                && (old(fpuRegsChanged) ==> a.setFpu || old(fpuRegs) == old(hypervisor.fpu))
      ensures Valid() <==> hypervisor == old(Seen())
    {
      if regsChanged {
        if a.setMain {
          hypervisor := hypervisor.(main := regs);
        }
        regsChanged := false;
      }
      if fpuRegsChanged {
        if a.setFpu {
          hypervisor := hypervisor.(fpu := fpuRegs);
        }
        fpuRegsChanged := false;
      }
    }

    /** Fetches both groups when the cache is dirty; a failure leaves it dirty. */
    method RefreshRegisters(a: Answers) returns (ok: bool)
      requires Valid()
      modifies this
      ensures Valid() && Seen() == old(Seen()) && hypervisor == old(hypervisor)
      ensures ok == (!old(regsDirty) || (a.getMain && a.getFpu)) && ok == !regsDirty
      ensures regsChanged == old(regsChanged) && fpuRegsChanged == old(fpuRegsChanged)
    {
      if regsDirty {
        if !a.getMain {
          return false;
        }
        regs := hypervisor.main;
        if !a.getFpu {
          return false;
        }
        fpuRegs := hypervisor.fpu;
        regsDirty := false;
      }
      return true;
    }

    /** A register write on a clean cache sets the flag of the group it belongs to. */
    method HaxmRegWrite(reg: Reg, value: RegValue) returns (outcome: Outcome)
      requires Valid() && !regsDirty
      modifies this
      ensures Valid() && (Seen(), outcome) == Spec(old(Seen()), RegWrite(reg, value))
      ensures hypervisor == old(hypervisor) && !regsDirty
      ensures regsChanged == (old(regsChanged) || (IsSupported(reg) && !IsFpu(reg)))
      ensures fpuRegsChanged == (old(fpuRegsChanged) || (IsSupported(reg) && IsFpu(reg)))
    {
      hide WriteMain, HaxmWriteFpu;
      if !IsSupported(reg) {
        return Unsupported;
      } else if IsFpu(reg) {
        fpuRegs := HaxmWriteFpu(fpuRegs, reg, value);
        fpuRegsChanged := true;
      } else {
        regs := WriteMain(regs, reg, value);
        regsChanged := true;
      }
      return Done;
    }

    /** Writes an array of registers and stops at the first one that is not supported. */
    method HaxmRegWrites(writes: seq<Assignment>) returns (outcome: Outcome)
      requires Valid() && !regsDirty
      modifies this
      ensures Valid() && (Seen(), outcome) == Spec(old(Seen()), RegWrites(Some(writes)))
      ensures hypervisor == old(hypervisor) && !regsDirty
    {
      hide Write, IsSupported;
      for i := 0 to |writes|
        invariant Valid() && !regsDirty && hypervisor == old(hypervisor)
        invariant WriteAll(Seen(), writes[i..]) == WriteAll(old(Seen()), writes)
      {
        assert writes[i..][0] == writes[i] && writes[i..][1..] == writes[i + 1..];
        outcome := HaxmRegWrite(writes[i].reg, writes[i].value);
        if !outcome.Done? {
          return;
        }
      }
      return Done;
    }

    /** Reads an array of registers up to the first one that is not supported. */
    method HaxmRegReads(regs: seq<Reg>) returns (outcome: Outcome)
      requires Valid() && !regsDirty
      ensures outcome == Spec(Seen(), RegReads(Some(regs))).1 && outcome.Values?
      ensures SupportedPrefix(regs, |outcome.values|)
      ensures forall i | 0 <= i < |outcome.values| :: outcome.values[i] == Read(Seen(), regs[i])
      ensures outcome.all <==> forall reg | reg in regs :: IsSupported(reg)
    {
      hide Read, IsSupported, ReadAll;
      var values: seq<RegValue> := [];
      for i := 0 to |regs|
        invariant |values| == i
        invariant forall j | 0 <= j < i :: IsSupported(regs[j]) && values[j] == Read(Seen(), regs[j])
      {
        if !IsSupported(regs[i]) {
          ReadAllIs(Seen(), regs, values);
          assert regs[i] in regs;
          return Values(values, false);
        }
        values := values + [Read(Machine(this.regs, fpuRegs), regs[i])];
      }
      ReadAllIs(Seen(), regs, values);
      return Values(values, true);
    }

    method RunImpl(a: Answers, guest: Machine -> Machine) returns (outcome: Outcome)
      requires Valid()
      modifies this
      ensures outcome == if a.run then Done else Failed
      ensures (old(regsChanged) ==> a.setMain) && (old(fpuRegsChanged) ==> a.setFpu) ==>
                Valid() && Seen() == if a.run then guest(old(Seen())) else old(Seen())
      ensures a.run ==> Valid() && Seen() == guest(Machine(
                if old(regsChanged) && !a.setMain then old(hypervisor.main) else old(Seen().main),
                if old(fpuRegsChanged) && !a.setFpu then old(hypervisor.fpu) else old(Seen().fpu)))
    {
      UpdateRegisters(a);
      if !a.run {
        return Failed;
      }
      hypervisor := guest(hypervisor);
      regsDirty := true;
      return Done;
    }

    /** One call. Pending pushes are taken to succeed; every other hypervisor call may fail. */
    method Perform(op: Op, a: Answers) returns (outcome: Outcome)
      requires Valid() && a.setMain && a.setFpu
      modifies this
      ensures Valid() && LegalStep(Spec, Unchanged, old(Seen()), op, outcome, Seen())
    {
      hide Read, Write, ReadAll, WriteAll, HaxmFpuControl, HaxmSetFpuControl, IsSupported;
      if op.Run? {
        outcome := RunImpl(a, op.guest);
        return;
      }
      if (op.RegReads? && op.regs.None?) || (op.RegWrites? && op.writes.None?) {
        return InvalidArguments;
      }
      var refreshed := RefreshRegisters(a);
      if !refreshed {
        return Failed;
      }
      if op.RegRead? {
        outcome := if IsSupported(op.reg) then Value(Read(Machine(regs, fpuRegs), op.reg)) else Unsupported;
      } else if op.RegReads? {
        outcome := HaxmRegReads(op.regs.value);
      } else if op.RegWrite? {
        outcome := HaxmRegWrite(op.reg, op.value);
      } else if op.RegWrites? {
        outcome := HaxmRegWrites(op.writes.value);
      } else {
        outcome := PerformFpu(op);
      }
    }

    /** The calls on FPU control and MXCSR, on a clean cache. */
    method PerformFpu(op: Op) returns (outcome: Outcome)
      requires Valid() && !regsDirty
      requires op.GetFPUControl? || op.SetFPUControl? || op.GetMXCSR? || op.SetMXCSR?
            || op.GetMXCSRMask? || op.SetMXCSRMask?
      modifies this
      ensures Valid() && (Seen(), outcome) == Spec(old(Seen()), op)
    {
      hide HaxmFpuControl, HaxmSetFpuControl;
      match op
      case GetFPUControl => outcome := FpuState(HaxmFpuControl(fpuRegs));
      case SetFPUControl(c) =>
        fpuRegs := HaxmSetFpuControl(fpuRegs, c);
        fpuRegsChanged := true;
        outcome := Done;
      case GetMXCSR => outcome := Mxcsr(fpuRegs.mxcsr);
      case SetMXCSR(w) =>
        fpuRegs := fpuRegs.(mxcsr := w);
        fpuRegsChanged := true;
        outcome := Done;
      case GetMXCSRMask => outcome := Mxcsr(fpuRegs.mxcsrMask);
      case SetMXCSRMask(w) =>
        fpuRegs := fpuRegs.(mxcsrMask := w);
        fpuRegsChanged := true;
        outcome := Done;
    }

    /**
     * Any sequence of calls: each either fails and changes nothing a caller sees,
     * or does what the uncached machine does. Without failures the outcomes and
     * the final machine are those of the uncached machine.
     */
    method Execute(ops: seq<Op>, answers: seq<Answers>) returns (outcomes: seq<Outcome>, ghost machines: seq<Machine>)
      requires Valid() && |answers| == |ops|
      requires forall a | a in answers :: a.setMain && a.setFpu
      modifies this
      ensures Valid() && Legal(Spec, Unchanged, ops, outcomes, machines)
      ensures machines[0] == old(Seen()) && machines[|ops|] == Seen()
      ensures Failed !in outcomes ==> RunAll(Spec, old(Seen()), ops) == (Seen(), outcomes)
    {
      hide LegalStep;
      outcomes := [];
      machines := [Seen()];
      for i := 0 to |ops|
        invariant Valid() && Legal(Spec, Unchanged, ops[..i], outcomes, machines)
        invariant machines[0] == old(Seen()) && machines[i] == Seen()
      {
        assert answers[i] in answers;
        var outcome := Perform(ops[i], answers[i]);
        outcomes := outcomes + [outcome];
        machines := machines + [Seen()];
      }
      assert ops[..|ops|] == ops;
      if Failed !in outcomes {
        LegalWithoutFailure(Spec, Unchanged, ops, outcomes, machines);
      }
    }
  }

  /** Departure: a HAXM instruction pointer above 2^32 reads back cut to its low half. */
  lemma FpuPointerIsCut(m: Machine, c: FpuControl)
    requires c == FpuControl(0, 0, 0, 0, 0, 0x1_0000_0000, 0, 0)
    ensures RunAll(Spec, m, [SetFPUControl(c), GetFPUControl]).1 == [Done, FpuState(c.(rip := 0))]
  {
    var ops := [SetFPUControl(c), GetFPUControl];
    assert ops[..1] == [SetFPUControl(c)] && ops[..1][..0] == [];
    assert RunAll(Spec, m, []) == (m, []);
    assert RunAll(Spec, m, ops[..1]).1 == [Done];
  }
}

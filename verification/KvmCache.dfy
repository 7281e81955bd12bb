/** The KVM virtual processor's register cache: four groups with their own flags, and pushes that may fail. */
module KvmCache {
  import opened Bits
  import opened ByteBuffers
  import opened Registers
  import opened FpuRegisters
  import opened KvmRegisters
  import SubRegisters
  import Gdt

  datatype Op =
    | RegRead(reg: Reg) | RegReads(regs: seq<Reg>)
    | RegWrite(reg: Reg, value: RegValue) | RegWrites(writes: seq<Assignment>)
    | GetFPUControl | SetFPUControl(control: FpuControl)
    | GetMXCSR | SetMXCSR(mxcsr: u32) | MXCSRMask
    | Run(guest: Machine -> Machine)

  // ----- A machine without a cache -------------------------------------------------------

  function Uncached(m: Machine, op: Op): (Machine, Outcome) {
    match op
    case RegRead(reg) => (m, if IsSupported(reg) then Value(Read(m, reg)) else Unsupported)
    case RegReads(regs) => (m, Values(ReadAll(m, regs), |ReadAll(m, regs)| == |regs|))
    case RegWrite(reg, v) => if IsSupported(reg) then (Write(m, reg, v), Done) else (m, Unsupported)
    case RegWrites(writes) =>
      var (after, all) := WriteAll(m, writes);
      (after, if all then Done else Unsupported)
    case GetFPUControl => (m, FpuState(KvmFpuControl(m.fpu)))
    case SetFPUControl(c) => (m.(fpu := KvmSetFpuControl(m.fpu, c)), Done)
    case GetMXCSR => (m, Mxcsr(m.fpu.mxcsr))
    case SetMXCSR(w) => (m.(fpu := m.fpu.(mxcsr := w)), Done)
    case MXCSRMask => (m, Unsupported)
    case Run(guest) => (guest(m), Done)
  }

  // ----- Laws of the uncached machine ------------------------------------------------------

  predicate IsGet(op: Op) {
    op.RegRead? || op.RegReads? || op.GetFPUControl? || op.GetMXCSR? || op.MXCSRMask?
  }

  predicate IsSet(op: Op) {
    op.RegWrite? || op.SetFPUControl? || op.SetMXCSR?
  }

  /** The call sets what the other one gets, or a part of it. */
  predicate Affects(set_: Op, get: Op) {
    match (set_, get)
    case (RegWrite(a, _), RegRead(b)) => Share(a, b)
    case (SetFPUControl(_), GetFPUControl) => true
    case (SetMXCSR(_), GetMXCSR) => true
    case _ => false
  }

  lemma GetsChangeNothing(m: Machine, get: Op)
    requires IsGet(get)
    ensures Uncached(m, get).0 == m
  {
  }

  /** A call that sets something leaves what every other call gets. */
  lemma OthersGetAlike(m: Machine, set_: Op, get: Op)
    requires IsSet(set_) && IsGet(get) && !get.RegReads? && !Affects(set_, get)
    ensures Uncached(Uncached(m, set_).0, get).1 == Uncached(m, get).1
  {
    hide Read, Write, KvmFpuControl, KvmSetFpuControl;
    match set_
    case RegWrite(reg, v) =>
      if IsSupported(reg) {
        WriteAffects(m, reg, v, get);
      }
    case SetFPUControl(c) => ControlAffects(m, c, get);
    case SetMXCSR(w) => MxcsrAffects(m, w, get);
  }

  lemma WriteAffects(m: Machine, reg: Reg, v: RegValue, get: Op)
    requires IsSupported(reg) && IsGet(get) && !get.RegReads? && !Affects(Op.RegWrite(reg, v), get)
    ensures Uncached(Write(m, reg, v), get).1 == Uncached(m, get).1
  {
    hide Read, WriteSystem, KvmWriteFpu, KvmFpuControl, SubRegisters.KvmWrite;
    if get.RegRead? && IsSupported(get.reg) {
      OtherKept(m, reg, get.reg, v);
    } else if IsFpu(reg) {
      KvmFpuFrames(m.fpu, KvmFpuControl(m.fpu), reg, v);
    }
  }

  lemma ControlAffects(m: Machine, c: FpuControl, get: Op)
    requires IsGet(get) && !get.RegReads? && !get.GetFPUControl?
    ensures Uncached(m.(fpu := KvmSetFpuControl(m.fpu, c)), get).1 == Uncached(m, get).1
  {
    hide KvmReadFpu, KvmSetFpuControl, SubRegisters.KvmRead, Gdt.LoadSegment;
    KvmFpuFrames(m.fpu, c, ST(0), RegValue(0, 0, 0));
    if get.RegRead? && IsFpu(get.reg) {
      KvmFpuFrames(m.fpu, c, get.reg, RegValue(0, 0, 0));
    }
  }

  lemma MxcsrAffects(m: Machine, w: u32, get: Op)
    requires IsGet(get) && !get.RegReads? && !get.GetMXCSR?
    ensures Uncached(m.(fpu := m.fpu.(mxcsr := w)), get).1 == Uncached(m, get).1
  {
    hide LoadST, LoadMM, LoadXMM, SubRegisters.KvmRead, Gdt.LoadSegment;
  }

  /** What is set is got: MXCSR always, control values and registers under the exact conditions. */
  lemma SetIsGot(m: Machine, w: u32, c: FpuControl, reg: Reg, v: RegValue)
    ensures Uncached(Uncached(m, SetMXCSR(w)).0, GetMXCSR).1 == Mxcsr(w)
    ensures Uncached(Uncached(m, SetFPUControl(c)).0, GetFPUControl).1 == FpuState(c) <==>
            c.tw < 0x100 && c.cs == 0 && c.ds == 0
    ensures Uncached(Uncached(m, Op.RegWrite(reg, v)).0, RegRead(reg)).1 == Value(Member(reg, v)) <==>
            && IsSupported(reg) && (reg.Segment? ==> SegmentOf(v).attributes / 0x100 % 0x10 == 0)
            && (reg.Efer? ==> v.low < 0x1_0000_0000)
  {
    hide Read, Write, Member, KvmFpuControl, KvmSetFpuControl, SegmentOf;
    KvmFpuControlReadBackIff(m.fpu, c);
    if IsSupported(reg) {
      ReadBackIff(m, reg, v);
    }
  }

  predicate Unchanged(before: Machine, op: Op, after: Machine) {
    after == before
  }

  // ----- The cached machine --------------------------------------------------------------

  /** Machine onto with the named groups of machine from. */
  function Pushed(onto: Machine, from: Machine, groups: set<Group>): Machine {
    Machine(if Regs in groups then from.gprs else onto.gprs, if Sregs in groups then from.sregs else onto.sregs,
            if DebugGroup in groups then from.debug else onto.debug, if Fpu in groups then from.fpu else onto.fpu)
  }

  /** What a caller sees, the hypervisor's own copy, and the groups flagged for the next push. */
  datatype State = State(seen: Machine, hypervisor: Machine, changed: set<Group>) {
    /** The machine the next run starts from. */
    function Next(): Machine {
      Pushed(hypervisor, seen, changed)
    }

    /** A run would start from what the caller sees. */
    predicate Coherent() {
      Next() == seen
    }
  }

  /** The groups the array write touches. */
  function GroupsOf(writes: seq<Assignment>): set<Group> {
    if writes == [] || !IsSupported(writes[0].reg) then {} else {GroupOf(writes[0].reg)} + GroupsOf(writes[1..])
  }

  /** The groups a call flags. */
  function Flags(op: Op): set<Group> {
    match op
    case RegWrite(reg, _) => if IsSupported(reg) then {GroupOf(reg)} else {}
    case RegWrites(writes) => GroupsOf(writes)
    case SetMXCSR(_) => {Fpu}
    case _ => {}
  }

  function Union(changed: set<Group>, groups: set<Group>): (r: set<Group>)
    ensures r == changed + groups
  {
    if groups == {} then changed else changed + groups
  }

  /** Every call acts on what the caller sees; a run starts from the machine of the pushed groups. */
  function Spec(s: State, op: Op): (State, Outcome) {
    if op.Run? then
      var m := op.guest(s.Next());
      (State(m, m, {}), Done)
    else
      var (seen, outcome) := Uncached(s.seen, op);
      (State(seen, s.hypervisor, Union(s.changed, Flags(op))), outcome)
  }

  /** A failing run may have pushed some groups, which changes nothing for the caller or the next run. */
  predicate Fails(before: State, op: Op, after: State) {
    if op.Run? then after.seen == before.seen && after.Next() == before.Next() && after.changed <= before.changed
    else after == before
  }

  /** For each group, whether fetching and pushing it succeeds; and whether the run does. */
  datatype Answers = Answers(get: set<Group>, push: set<Group>, run: bool)

  const GROUPS: set<Group> := {Regs, Sregs, DebugGroup, Fpu}

  /** The changed groups that come before the first one whose push fails. */
  function PushedBefore(changed: set<Group>, push: set<Group>): set<Group> {
    if Regs in changed && Regs !in push then {}
    else if Sregs in changed && Sregs !in push then changed * {Regs}
    else if DebugGroup in changed && DebugGroup !in push then changed * {Regs, Sregs}
    else if Fpu in changed && Fpu !in push then changed * {Regs, Sregs, DebugGroup}
    else changed
  }

  /** The order in which the groups are pushed. */
  function Rank(g: Group): nat {
    match g
    case Regs => 0
    case Sregs => 1
    case DebugGroup => 2
    case Fpu => 3
  }

  /** A group is pushed exactly when it is flagged and the pushes of it and of all flagged groups before it succeed. */
  lemma PushedBeforeIff(changed: set<Group>, push: set<Group>, g: Group)
    ensures g in PushedBefore(changed, push) <==>
            g in changed && forall h | h in changed && Rank(h) <= Rank(g) :: h in push
  {
    assert Rank(Regs) == 0 && Rank(Sregs) == 1 && Rank(DebugGroup) == 2 && Rank(Fpu) == 3;
  }

  /** The register is supported and of the group. */
  predicate IsOf(reg: Reg, g: Group) {
    match g
    case Regs => reg.General? && reg.alias.Valid()
    case Sregs => IsSupported(reg) && (reg.Segment? || reg.Table? || reg.Control? || reg.Efer?)
    case DebugGroup => reg.Debug? && reg.index < 6
    case Fpu => IsFpu(reg)
  }

  /** A call flags a group exactly when it writes a register of it that it gets to, or MXCSR for the FPU group. */
  lemma FlagsIff(op: Op, g: Group)
    ensures g in Flags(op) <==>
            || (op.RegWrite? && IsOf(op.reg, g)) || (op.SetMXCSR? && g.Fpu?)
            || (op.RegWrites? && exists i | 0 <= i < |op.writes| ::
                  IsOf(op.writes[i].reg, g) && forall j | 0 <= j < i :: IsSupported(op.writes[j].reg))
  {
    if op.RegWrites? {
      GroupsOfIff(op.writes, g);
    }
  }

  lemma {:induction false} GroupsOfIff(writes: seq<Assignment>, g: Group)
    ensures g in GroupsOf(writes) <==>
            exists i | 0 <= i < |writes| ::
              IsOf(writes[i].reg, g) && forall j | 0 <= j < i :: IsSupported(writes[j].reg)
  {
    if writes != [] {
      var rest := writes[1..];
      GroupsOfIff(rest, g);
      hide IsOf, IsSupported;
      HeadGroup(writes, g);
      if IsSupported(writes[0].reg) && g in GroupsOf(rest) {
        var i :| 0 <= i < |rest| && IsOf(rest[i].reg, g) && forall j | 0 <= j < i :: IsSupported(rest[j].reg);
        assert writes[i + 1] == rest[i];
        assert forall j | 0 <= j < i + 1 :: j > 0 ==> writes[j] == rest[j - 1];
      }
      if i :| 0 <= i < |writes| && IsOf(writes[i].reg, g) && forall j | 0 <= j < i :: IsSupported(writes[j].reg) {
        if i > 0 {
          assert rest[i - 1] == writes[i];
          assert forall j | 0 <= j < i - 1 :: rest[j] == writes[j + 1];
        }
      }
    }
  }

  lemma HeadGroup(writes: seq<Assignment>, g: Group)
    requires writes != []
    ensures IsOf(writes[0].reg, g) ==> g in GroupsOf(writes) && IsSupported(writes[0].reg)
    ensures IsSupported(writes[0].reg) ==>
              (g in GroupsOf(writes) <==> IsOf(writes[0].reg, g) || g in GroupsOf(writes[1..]))
    ensures !IsSupported(writes[0].reg) ==> g !in GroupsOf(writes)
  {
  }

  lemma AllGroups(groups: set<Group>)
    ensures groups <= GROUPS
    ensures Regs !in groups && Sregs !in groups && DebugGroup !in groups && Fpu !in groups ==> groups == {}
    ensures Regs in groups && Sregs in groups && DebugGroup in groups && Fpu in groups ==> groups == GROUPS
  {
    forall g | g in groups
      ensures g in GROUPS
    {
      match g
      case Regs =>
      case Sregs =>
      case DebugGroup =>
      case Fpu =>
    }
  }

  const ZERO_SYSTEM := SystemRegs(seq<Gdt.KvmSegment>(8, i => ZERO_SEGMENT),
                                  seq<Gdt.TableRegister>(2, i => Gdt.TableRegister(0, 0)), seq<u64>(4, i => 0), 0)
  const ZERO_BLOCKS: SixteenBlocks := seq<Block>(16, i => ZERO_BLOCK)
  const ZERO_FPU := KvmFpu(ZERO_BLOCKS[..8], 0, 0, 0, 0, 0, 0, ZERO_BLOCKS, 0)

  /** A zeroed cache, but for the debug group. */
  function ZeroCache(debug: DebugRegs): Machine {
    Machine(seq<bv64>(16, i => 0), ZERO_SYSTEM, debug, ZERO_FPU)
  }

  /** Every register and control value of a zeroed cache is zero, debug registers aside. */
  lemma ZeroCacheReadsZero(debug: DebugRegs, reg: Reg)
    requires IsSupported(reg) && !reg.Debug?
    ensures Read(ZeroCache(debug), reg) == RegValue(0, 0, 0)
    ensures KvmFpuControl(ZeroCache(debug).fpu) == FpuControl(0, 0, 0, 0, 0, 0, 0, 0) && ZeroCache(debug).fpu.mxcsr == 0
  {
    if IsFpu(reg) {
      ZeroBlockReadsZero();
    } else if reg.General? {
      assert SubRegisters.KvmReadWord(0, reg.alias.part) == 0;
    }
  }

  lemma ZeroBlockReadsZero()
    ensures LoadST(ZERO_BLOCK) == LoadMM(ZERO_BLOCK) == LoadXMM(ZERO_BLOCK) == RegValue(0, 0, 0)
  {
    ZeroBytes(ZERO_BLOCK[0..8]);
    ZeroBytes(ZERO_BLOCK[8..16]);
    ZeroBytes(ZERO_BLOCK[8..10]);
  }

  lemma {:induction false} ZeroBytes(bytes: seq<byte>)
    requires forall i | 0 <= i < |bytes| :: bytes[i] == 0
    ensures FromBytes(bytes) == 0
  {
    if bytes != [] {
      ZeroBytes(bytes[1..]);
    }
  }

  class KvmVirtualProcessor {
    var gprs: SubRegisters.KvmFile
    var sregs: SystemRegs
    var debug: DebugRegs
    var fpu: KvmFpu
    var regsDirty: bool
    var changed: set<Group>
    /** The hypervisor's own copy. */
    var hypervisor: Machine

    function Cache(): Machine
      reads this
    {
      Machine(gprs, sregs, debug, fpu)
    }

    /** A dirty cache has no flag set. */
    ghost predicate Valid()
      reads this
    {
      regsDirty ==> changed == {}
    }

    ghost function Now(): State
      reads this
    {
      State(if regsDirty then hypervisor else Cache(), hypervisor, changed)
    }

    /**
     * Departure: the constructor marks a zeroed cache as current, and does not
     * set the debug group at all. What a caller sees is the machine the first run
     * starts from exactly when the hypervisor's state equals that cache.
     */
    constructor (debug: DebugRegs, hypervisor: Machine)
      ensures Valid() && Now() == State(ZeroCache(debug), hypervisor, {})
      ensures Now().Next() == hypervisor
      ensures Now().Coherent() <==> hypervisor == ZeroCache(debug)
    {
      gprs := ZeroCache(debug).gprs;
      sregs := ZERO_SYSTEM;
      this.debug := debug;
      fpu := ZERO_FPU;
      regsDirty := false;
      changed := {};
      this.hypervisor := hypervisor;
    }

    /**
     * Pushes the changed groups in order and stops at the first failure. A group
     * reaches the hypervisor exactly when its flag is set and no push before it
     * fails, and its flag is cleared exactly then.
     */
    method UpdateRegisters(push: set<Group>) returns (ok: bool)
      modifies this`changed, this`hypervisor
      ensures ok == (old(changed) <= push) && (ok ==> changed == {})
      ensures changed == old(changed) - PushedBefore(old(changed), push)
      ensures hypervisor == Pushed(old(hypervisor), Cache(), PushedBefore(old(changed), push))
      ensures old(Valid()) ==> Valid() && Now().seen == old(Now()).seen && Now().Next() == old(Now()).Next()
    {
      if Regs in changed {
        if Regs !in push {
          return false;
        }
        hypervisor := hypervisor.(gprs := gprs);
        changed := changed - {Regs};
      }
      if Sregs in changed {
        if Sregs !in push {
          return false;
        }
        hypervisor := hypervisor.(sregs := sregs);
        changed := changed - {Sregs};
      }
      if DebugGroup in changed {
        if DebugGroup !in push {
          return false;
        }
        hypervisor := hypervisor.(debug := debug);
        changed := changed - {DebugGroup};
      }
      if Fpu in changed {
        if Fpu !in push {
          return false;
        }
        hypervisor := hypervisor.(fpu := fpu);
        changed := changed - {Fpu};
      }
      AllGroups(changed);
      ghost var unpushed := old(changed) - push;
      AllGroups(unpushed);
      assert forall g | g in old(changed) && g !in push :: g in unpushed;
      return true;
    }

    /** Fetches the four groups when the cache is dirty; a failure leaves it dirty. */
    method RefreshRegisters(get: set<Group>) returns (ok: bool)
      requires Valid()
      modifies this`gprs, this`sregs, this`debug, this`fpu, this`regsDirty
      ensures Valid() && Now() == old(Now())
      ensures ok == (!old(regsDirty) || get == GROUPS) && ok == !regsDirty
    {
      AllGroups(get);
      if regsDirty {
        if Regs !in get {
          return false;
        }
        gprs := hypervisor.gprs;
        if Sregs !in get {
          return false;
        }
        sregs := hypervisor.sregs;
        if DebugGroup !in get {
          return false;
        }
        debug := hypervisor.debug;
        if Fpu !in get {
          return false;
        }
        fpu := hypervisor.fpu;
        regsDirty := false;
      }
      return true;
    }

    /** A register write on a clean cache flags the group it belongs to. */
    method KvmRegWrite(reg: Reg, value: RegValue) returns (outcome: Outcome)
      requires Valid() && !regsDirty
      modifies this
      ensures Valid() && !regsDirty && (Now(), outcome) == Spec(old(Now()), RegWrite(reg, value))
    {
      hide WriteSystem, KvmWriteFpu, SubRegisters.KvmWrite;
      if !IsSupported(reg) {
        return Unsupported;
      }
      changed := changed + {GroupOf(reg)};
      outcome := Done;
      match GroupOf(reg)
      case Regs => gprs := SubRegisters.KvmWrite(gprs, reg.alias, ToWord(value.low));
      case Sregs => sregs := WriteSystem(sregs, reg, value);
      case DebugGroup => debug := debug[reg.index := value.low];
      case Fpu => fpu := KvmWriteFpu(fpu, reg, value);
    }

    /** Writes an array of registers and stops at the first one that is not supported. */
    method KvmRegWrites(writes: seq<Assignment>) returns (outcome: Outcome)
      requires Valid() && !regsDirty
      modifies this
      ensures Valid() && !regsDirty && (Now(), outcome) == Spec(old(Now()), RegWrites(writes))
    {
      hide Spec;
      NoWrites(Now());
      for i := 0 to |writes|
        invariant Valid() && !regsDirty
        invariant Spec(Now(), RegWrites(writes[i..])) == Spec(old(Now()), RegWrites(writes))
      {
        OneMoreWrite(Now(), writes[i..]);
        assert writes[i..][0] == writes[i] && writes[i..][1..] == writes[i + 1..];
        outcome := KvmRegWrite(writes[i].reg, writes[i].value);
        if !outcome.Done? {
          return;
        }
      }
      NoWrites(Now());
      return Done;
    }

    /** Reads an array of registers up to the first one that is not supported. */
    method KvmRegReads(regs: seq<Reg>) returns (outcome: Outcome)
      requires Valid() && !regsDirty
      ensures (Now(), outcome) == Spec(Now(), RegReads(regs)) && outcome.Values?
      ensures SupportedPrefix(regs, |outcome.values|)
      ensures forall i | 0 <= i < |outcome.values| :: outcome.values[i] == Read(Now().seen, regs[i])
      ensures outcome.all <==> forall reg | reg in regs :: IsSupported(reg)
    {
      hide Read, IsSupported, ReadAll, Pushed;
      var values: seq<RegValue> := [];
      for i := 0 to |regs|
        invariant |values| == i
        invariant forall j | 0 <= j < i :: IsSupported(regs[j]) && values[j] == Read(Now().seen, regs[j])
      {
        if !IsSupported(regs[i]) {
          ReadAllIs(Now().seen, regs, values);
          assert regs[i] in regs;
          return Values(values, false);
        }
        values := values + [Read(Cache(), regs[i])];
      }
      ReadAllIs(Now().seen, regs, values);
      return Values(values, true);
    }

    /** Departure: the FPU control registers are stored without setting the FPU flag. */
    method SetFPUControl(control: FpuControl, get: set<Group>) returns (outcome: Outcome)
      requires Valid()
      modifies this
      ensures Valid() && outcome == (if old(regsDirty) && get != GROUPS then Failed else Done)
      ensures if outcome.Failed? then Now() == old(Now())
              else (Now(), outcome) == Spec(old(Now()), Op.SetFPUControl(control))
    {
      hide KvmSetFpuControl;
      var refreshed := RefreshRegisters(get);
      if !refreshed {
        return Failed;
      }
      fpu := KvmSetFpuControl(fpu, control);
      return Done;
    }

    method RunImpl(push: set<Group>, run: bool, guest: Machine -> Machine) returns (outcome: Outcome)
      requires Valid()
      modifies this
      ensures Valid() && LegalStep(Spec, Fails, old(Now()), Run(guest), outcome, Now())
      ensures outcome.Failed? <==> !(old(changed) <= push) || !run
    {
      var updated := UpdateRegisters(push);
      if !updated || !run {
        return Failed;
      }
      hypervisor := guest(hypervisor);
      regsDirty := true;
      return Done;
    }

    /** One call, any of whose hypervisor calls may fail. */
    method Perform(op: Op, a: Answers) returns (outcome: Outcome)
      requires Valid()
      modifies this
      ensures Valid() && LegalStep(Spec, Fails, old(Now()), op, outcome, Now())
    {
      hide Read, Write, ReadAll, WriteAll, KvmFpuControl, KvmSetFpuControl, IsSupported;
      if op.Run? {
        outcome := RunImpl(a.push, a.run, op.guest);
        return;
      } else if op.SetFPUControl? {
        outcome := SetFPUControl(op.control, a.get);
        return;
      } else if op.MXCSRMask? {
        return Unsupported;
      }
      var refreshed := RefreshRegisters(a.get);
      if !refreshed {
        return Failed;
      }
      if op.RegRead? {
        outcome := if IsSupported(op.reg) then Value(Read(Cache(), op.reg)) else Unsupported;
      } else if op.RegReads? {
        outcome := KvmRegReads(op.regs);
      } else if op.RegWrite? {
        outcome := KvmRegWrite(op.reg, op.value);
      } else if op.RegWrites? {
        outcome := KvmRegWrites(op.writes);
      } else if op.GetFPUControl? {
        outcome := FpuState(KvmFpuControl(fpu));
      } else if op.GetMXCSR? {
        outcome := Mxcsr(fpu.mxcsr);
      } else {
        fpu := fpu.(mxcsr := op.mxcsr);
        changed := changed + {Fpu};
        outcome := Done;
      }
    }

    /** Any sequence of calls from any state, the constructor's included, with failures anywhere. */
    method Execute(ops: seq<Op>, answers: seq<Answers>) returns (outcomes: seq<Outcome>, ghost states: seq<State>)
      requires Valid() && |answers| == |ops|
      modifies this
      ensures Valid() && Legal(Spec, Fails, ops, outcomes, states)
      ensures states[0] == old(Now()) && states[|ops|] == Now()
    {
      hide LegalStep;
      outcomes := [];
      states := [Now()];
      for i := 0 to |ops|
        invariant Valid() && Legal(Spec, Fails, ops[..i], outcomes, states)
        invariant states[0] == old(Now()) && states[i] == Now()
      {
        var outcome := Perform(ops[i], answers[i]);
        outcomes := outcomes + [outcome];
        states := states + [Now()];
      }
      assert ops[..|ops|] == ops;
    }
  }

  lemma NoWrites(s: State)
    ensures Spec(s, RegWrites([])) == (s, Done)
  {
  }

  lemma OneMoreWrite(s: State, writes: seq<Assignment>)
    requires writes != []
    ensures var (next, outcome) := Spec(s, RegWrite(writes[0].reg, writes[0].value));
            Spec(s, RegWrites(writes)) ==
            if outcome.Done? then Spec(next, RegWrites(writes[1..])) else (next, outcome)
  {
    hide Write;
    if IsSupported(writes[0].reg) {
      var g := {GroupOf(writes[0].reg)};
      assert s.changed + (g + GroupsOf(writes[1..])) == (s.changed + g) + GroupsOf(writes[1..]);
    }
  }

  // ----- Against the uncached machine ------------------------------------------------------

  /** A write changes only the group it flags. */
  lemma WriteInGroup(m: Machine, reg: Reg, v: RegValue)
    requires IsSupported(reg)
    ensures Pushed(m, Write(m, reg, v), {GroupOf(reg)}) == Write(m, reg, v)
  {
    hide WriteSystem, KvmWriteFpu, SubRegisters.KvmWrite;
  }

  lemma {:induction false} WritesInGroups(m: Machine, writes: seq<Assignment>)
    ensures Pushed(m, WriteAll(m, writes).0, GroupsOf(writes)) == WriteAll(m, writes).0
    decreases |writes|
  {
    hide Write;
    if writes != [] && IsSupported(writes[0].reg) {
      WriteInGroup(m, writes[0].reg, writes[0].value);
      WritesInGroups(Write(m, writes[0].reg, writes[0].value), writes[1..]);
    }
  }

  /** So does every call but SetFPUControl. */
  lemma CallInGroups(m: Machine, op: Op)
    requires !op.Run? && !op.SetFPUControl?
    ensures Pushed(m, Uncached(m, op).0, Flags(op)) == Uncached(m, op).0
  {
    hide Read, Write, WriteAll, ReadAll, GroupsOf;
    match op
    case RegWrite(reg, v) =>
      if IsSupported(reg) {
        WriteInGroup(m, reg, v);
      }
    case RegWrites(writes) => WritesInGroups(m, writes);
    case _ =>
  }

  /**
   * From a coherent state each call is one on the uncached machine, and the state
   * stays coherent except exactly when SetFPUControl changes the control
   * registers while the FPU group is not flagged.
   */
  lemma StepIsUncached(s: State, op: Op, outcome: Outcome, s': State)
    requires s.Coherent() && LegalStep(Spec, Fails, s, op, outcome, s')
    ensures LegalStep(Uncached, Unchanged, s.seen, op, outcome, s'.seen)
    ensures s'.Coherent() <==>
            !(op.SetFPUControl? && outcome.Done? && Fpu !in s.changed && s'.seen != s.seen)
  {
    hide Uncached, Flags, GroupsOf;
    if op.Run? {
      RunOnly(s.seen, op);
    } else if op.SetFPUControl? {
      ControlOnly(s.seen, op);
    } else {
      CallInGroups(s.seen, op);
    }
  }

  lemma ControlOnly(m: Machine, op: Op)
    requires op.SetFPUControl?
    ensures Uncached(m, op) == (m.(fpu := KvmSetFpuControl(m.fpu, op.control)), Done) && Flags(op) == {}
  {
  }

  lemma RunOnly(m: Machine, op: Op)
    requires op.Run?
    ensures Uncached(m, op) == (op.guest(m), Done)
  {
  }

  /** What a caller sees along the way. */
  function SeenIn(states: seq<State>): (machines: seq<Machine>)
    ensures |machines| == |states|
  {
    seq(|states|, i requires 0 <= i < |states| => states[i].seen)
  }

  /**
   * Over any sequence of calls without SetFPUControl, from a coherent state and
   * with failures anywhere, no pending write is ever lost: each call fails and
   * changes nothing, or does what the uncached machine does.
   */
  lemma {:induction false} RunIsUncached(ops: seq<Op>, outcomes: seq<Outcome>, states: seq<State>)
    requires Legal(Spec, Fails, ops, outcomes, states) && states[0].Coherent()
    requires forall op | op in ops :: !op.SetFPUControl?
    ensures Legal(Uncached, Unchanged, ops, outcomes, SeenIn(states)) && states[|ops|].Coherent()
    ensures Failed !in outcomes ==> RunAll(Uncached, states[0].seen, ops) == (states[|ops|].seen, outcomes)
    decreases |ops|
  {
    hide Uncached, Spec, Fails, Unchanged, LegalStep;
    if ops != [] {
      var n := |ops| - 1;
      RunIsUncached(ops[..n], outcomes[..n], states[..n + 1]);
      assert ops[n] in ops;
      assert LegalStep(Spec, Fails, states[n], ops[n], outcomes[n], states[n + 1]);
      StepIsUncached(states[n], ops[n], outcomes[n], states[n + 1]);
      var before, machines := SeenIn(states[..n + 1]), SeenIn(states);
      forall i | 0 <= i < n
        ensures LegalStep(Uncached, Unchanged, machines[i], ops[i], outcomes[i], machines[i + 1])
      {
        assert LegalStep(Uncached, Unchanged, before[i], ops[..n][i], outcomes[..n][i], before[i + 1]);
      }
    }
    if Failed !in outcomes {
      LegalWithoutFailure(Uncached, Unchanged, ops, outcomes, SeenIn(states));
    }
  }

  // ----- FPU control writes ----------------------------------------------------------------

  lemma {:induction false} WritesKeepControl(m: Machine, writes: seq<Assignment>)
    ensures KvmFpuControl(WriteAll(m, writes).0.fpu) == KvmFpuControl(m.fpu)
    decreases |writes|
  {
    hide WriteSystem, SubRegisters.KvmWrite;
    if writes != [] && IsSupported(writes[0].reg) {
      WritesKeepControl(Write(m, writes[0].reg, writes[0].value), writes[1..]);
    }
  }

  lemma CallKeepsControl(m: Machine, op: Op)
    requires !op.Run? && !op.SetFPUControl?
    ensures KvmFpuControl(Uncached(m, op).0.fpu) == KvmFpuControl(m.fpu)
  {
    hide Read, ReadAll, WriteSystem, SubRegisters.KvmWrite;
    if op.RegWrites? {
      WritesKeepControl(m, op.writes);
    }
  }

  /** Until the next successful run, a caller sees the control registers written last. */
  lemma {:induction false} ControlIsSeen(ops: seq<Op>, outcomes: seq<Outcome>, states: seq<State>)
    requires Legal(Spec, Fails, ops, outcomes, states)
    requires forall i | 0 <= i < |ops| :: !ops[i].SetFPUControl? && (ops[i].Run? ==> outcomes[i].Failed?)
    ensures KvmFpuControl(states[|ops|].seen.fpu) == KvmFpuControl(states[0].seen.fpu)
    decreases |ops|
  {
    hide Uncached, KvmFpuControl, Flags;
    if ops != [] {
      var n := |ops| - 1;
      ControlIsSeen(ops[..n], outcomes[..n], states[..n + 1]);
      assert LegalStep(Spec, Fails, states[n], ops[n], outcomes[n], states[n + 1]);
      if !ops[n].Run? {
        CallKeepsControl(states[n].seen, ops[n]);
      }
    }
  }

  /**
   * A control write is kept by the next successful run, whatever calls and
   * failures lie between, if and only if the FPU group is flagged when that run
   * starts or the hypervisor holds the same control registers anyway.
   */
  lemma ControlKeptIff(ops: seq<Op>, outcomes: seq<Outcome>, states: seq<State>)
    requires Legal(Spec, Fails, ops, outcomes, states) && |ops| >= 2
    requires ops[0].SetFPUControl? && outcomes[0].Done?
    requires forall i | 1 <= i < |ops| - 1 :: !ops[i].SetFPUControl? && (ops[i].Run? ==> outcomes[i].Failed?)
    requires ops[|ops| - 1].Run? && outcomes[|ops| - 1].Done?
    ensures var n := |ops| - 1;
            var start, written := states[n].Next(), KvmFpuControl(KvmSetFpuControl(states[0].seen.fpu, ops[0].control));
            && states[n + 1].seen == ops[n].guest(start)
            && (KvmFpuControl(start.fpu) == written <==>
                Fpu in states[n].changed || KvmFpuControl(states[n].hypervisor.fpu) == written)
  {
    hide KvmFpuControl, KvmSetFpuControl;
    var n := |ops| - 1;
    assert LegalStep(Spec, Fails, states[0], ops[0], outcomes[0], states[1]);
    assert LegalStep(Spec, Fails, states[n], ops[n], outcomes[n], states[n + 1]);
    forall i | 0 <= i < n - 1
      ensures LegalStep(Spec, Fails, states[1..n + 1][i], ops[1..n][i], outcomes[1..n][i], states[1..n + 1][i + 1])
    {
      assert LegalStep(Spec, Fails, states[i + 1], ops[i + 1], outcomes[i + 1], states[i + 2]);
    }
    ControlIsSeen(ops[1..n], outcomes[1..n], states[1..n + 1]);
  }

  /** Between runs the FPU group is flagged exactly when it was before or a call that went through flags it. */
  lemma {:induction false} FlaggedIff(ops: seq<Op>, outcomes: seq<Outcome>, states: seq<State>)
    requires Legal(Spec, Fails, ops, outcomes, states)
    requires forall op | op in ops :: !op.Run?
    ensures Fpu in states[|ops|].changed <==>
            Fpu in states[0].changed || exists i | 0 <= i < |ops| :: !outcomes[i].Failed? && Fpu in Flags(ops[i])
    decreases |ops|
  {
    hide Uncached, Flags;
    if ops != [] {
      var n := |ops| - 1;
      FlaggedIff(ops[..n], outcomes[..n], states[..n + 1]);
      assert LegalStep(Spec, Fails, states[n], ops[n], outcomes[n], states[n + 1]);
      assert forall i | 0 <= i < n :: ops[..n][i] == ops[i] && outcomes[..n][i] == outcomes[i];
    }
  }

  // ----- Departures on concrete calls ------------------------------------------------------

  lemma CallOne(s: State, ops: seq<Op>, op: Op)
    ensures var (before, outcomes) := RunAll(Spec, s, ops);
            var (after, outcome) := Spec(before, op);
            RunAll(Spec, s, ops + [op]) == (after, outcomes + [outcome])
    ensures RunAll(Spec, s, []) == (s, [])
  {
    assert (ops + [op])[..|ops|] == ops;
  }

  /** Departure: a control write alone is gone after the next run, and one followed by an MXCSR write is not. */
  lemma ControlIsForgotten(m: Machine, c: FpuControl)
    requires m.fpu == ZERO_FPU && c == FpuControl(0x37F, 0, 0, 0, 0, 0, 0, 0)
    ensures var s, run := State(m, m, {}), Run(x => x);
            && RunAll(Spec, s, [SetFPUControl(c)] + [run] + [GetFPUControl]).1[2] == FpuState(c.(cw := 0))
            && RunAll(Spec, s, [SetFPUControl(c)] + [SetMXCSR(0)] + [run] + [GetFPUControl]).1[3] == FpuState(c)
  {
    hide RunAll;
    var s, set_, run := State(m, m, {}), SetFPUControl(c), Run(x => x);
    assert [set_] == [] + [set_];
    CallOne(s, [], set_);
    CallOne(s, [set_], run);
    CallOne(s, [set_] + [run], GetFPUControl);
    CallOne(s, [set_], SetMXCSR(0));
    CallOne(s, [set_] + [SetMXCSR(0)], run);
    CallOne(s, [set_] + [SetMXCSR(0)] + [run], GetFPUControl);
  }

  /** Departure: before the first run RAX reads as zero, and writing RBX makes that run start with a zero RAX, too. */
  lemma FirstRunForgets(hypervisor: Machine, debug: DebugRegs)
    requires hypervisor.gprs[0] == 1
    ensures var rax := General(SubRegisters.Alias(0, SubRegisters.Full));
            var rbx := General(SubRegisters.Alias(3, SubRegisters.Full));
            var s := State(ZeroCache(debug), hypervisor, {});
            && Read(hypervisor, rax) == RegValue(1, 0, 0)
            && Spec(s, RegRead(rax)).1 == Value(RegValue(0, 0, 0))
            && s.Next().gprs[0] == 1
            && Spec(s, RegWrite(rbx, RegValue(5, 0, 0))).0.Next().gprs[0] == 0
  {
  }
}

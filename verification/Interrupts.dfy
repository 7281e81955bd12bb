/**
 * The pending interrupt queue: any number of threads enqueue under a mutex while
 * runners inject. A runner looks at the queue's size twice before it takes the
 * mutex. Each step below is one action of one thread; a run is any interleaving.
 */
module Interrupts {
  import opened Wrappers

  type Vector = x: int | 0 <= x < 256

  /** EnqueueInterrupt: take the mutex, push, release it. */
  datatype Enqueuer = Idle | Locked(vector: Vector) | Pushed

  /**
   * Run or Step: HandleInterruptQueue's size check, CanInjectInterrupt, the size
   * check of InjectPendingInterrupt, the mutex, front and pop and inject, the
   * release, and then RunImpl or StepImpl.
   */
  datatype Runner = Outside | SawPending | Injecting | Waiting | Holding | Taken | Executing

  datatype Thread = EnqueuerThread(t: nat) | RunnerThread(r: nat)

  datatype State = State(
    queue: seq<Vector>, owner: Option<Thread>, enqueuers: seq<Enqueuer>, runners: seq<Runner>,
    // History: vectors in push order, injection attempts, how many of them each runner made since
    // its latest run began, whether CanInjectInterrupt said yes in that run, and whether front was
    // called on an empty queue.
    enqueued: seq<Vector>, attempted: seq<Vector>, taken: seq<nat>, allowed: seq<bool>, fault: bool)

  datatype Action =
    | EnqueueLock(t: nat, vector: Vector) | EnqueuePush(t: nat) | EnqueueUnlock(t: nat)
    | RunBegin(r: nat) | Decide(r: nat, canInject: bool) | Recheck(r: nat)
    | InjectLock(r: nat) | InjectTake(r: nat) | InjectUnlock(r: nat) | RunEnd(r: nat)

  function Init(enqueuers: nat, runners: nat): State {
    State([], None, seq(enqueuers, i => Idle), seq(runners, i => Outside), [], [],
          seq(runners, i => 0), seq(runners, i => false), false)
  }

  predicate Shaped(s: State) {
    |s.taken| == |s.runners| && |s.allowed| == |s.runners|
  }

  /** An enqueuer's step; an action that is not enabled changes nothing. */
  function Enqueue(s: State, a: Action): State
    requires a.EnqueueLock? || a.EnqueuePush? || a.EnqueueUnlock?
  {
    if a.t >= |s.enqueuers| then s
    else
      var pc := s.enqueuers[a.t];
      match a
      case EnqueueLock(t, vector) =>
        if pc.Idle? && s.owner.None?
        then s.(owner := Some(EnqueuerThread(t)), enqueuers := s.enqueuers[t := Locked(vector)]) else s
      case EnqueuePush(t) =>
        if pc.Locked?
        then s.(queue := s.queue + [pc.vector], enqueued := s.enqueued + [pc.vector],
                enqueuers := s.enqueuers[t := Pushed]) else s
      case EnqueueUnlock(t) =>
        if pc.Pushed? then s.(owner := None, enqueuers := s.enqueuers[t := Idle]) else s
  }

  function Advance(s: State, r: nat, from: Runner, to: Runner): State
    requires r < |s.runners|
  {
    if s.runners[r] == from then s.(runners := s.runners[r := to]) else s
  }

  /** A runner's step. The size checks take no lock; front, pop and the injection happen under it. */
  function Handle(s: State, a: Action): State
    requires Shaped(s) && !a.EnqueueLock? && !a.EnqueuePush? && !a.EnqueueUnlock?
  {
    if a.r >= |s.runners| then s
    else
      var pc := s.runners[a.r];
      match a
      case RunBegin(r) =>
        if pc.Outside?
        then s.(runners := s.runners[r := if |s.queue| > 0 then SawPending else Executing],
                taken := s.taken[r := 0], allowed := s.allowed[r := false])
        else s
      case Decide(r, canInject) =>
        if pc.SawPending?
        then s.(runners := s.runners[r := if canInject then Injecting else Executing],
                allowed := s.allowed[r := canInject])
        else s
      case Recheck(r) => Advance(s, r, Injecting, if |s.queue| == 0 then Executing else Waiting)
      case InjectLock(r) =>
        if pc.Waiting? && s.owner.None?
        then s.(owner := Some(RunnerThread(r)), runners := s.runners[r := Holding]) else s
      case InjectTake(r) =>
        if !pc.Holding? then s
        else if s.queue == [] then s.(fault := true)
        else s.(queue := s.queue[1..], attempted := s.attempted + [s.queue[0]],
                taken := s.taken[r := s.taken[r] + 1], runners := s.runners[r := Taken])
      case InjectUnlock(r) =>
        if pc.Taken? then s.(owner := None, runners := s.runners[r := Executing]) else s
      case RunEnd(r) => Advance(s, r, Executing, Outside)
  }

  function Step(s: State, a: Action): (s': State)
    requires Shaped(s)
    ensures Shaped(s') && |s'.runners| == |s.runners|
  {
    match a
    case EnqueueLock(_, _) => Enqueue(s, a)
    case EnqueuePush(_) => Enqueue(s, a)
    case EnqueueUnlock(_) => Enqueue(s, a)
    case _ => Handle(s, a)
  }

  function Execute(s: State, actions: seq<Action>): (s': State)
    requires Shaped(s)
    ensures Shaped(s') && |s'.runners| == |s.runners|
    decreases |actions|
  {
    if actions == [] then s else Execute(Step(s, actions[0]), actions[1..])
  }

  lemma {:induction false} ExecuteAppend(s: State, first: seq<Action>, rest: seq<Action>)
    requires Shaped(s)
    ensures Execute(s, first + rest) == Execute(Execute(s, first), rest)
    decreases |first|
  {
    if first == [] {
      assert first + rest == rest;
    } else {
      ExecuteAppend(Step(s, first[0]), first[1..], rest);
      assert (first + rest)[1..] == first[1..] + rest;
    }
  }

  // ----- What every step keeps, for any number of threads ------------------------------

  /** A thread is inside its critical section exactly when it owns the mutex. */
  ghost predicate Exclusive(s: State) {
    && (forall t: nat | t < |s.enqueuers| ::
          (s.enqueuers[t].Locked? || s.enqueuers[t].Pushed?) <==> s.owner == Some(EnqueuerThread(t)))
    && (forall r: nat | r < |s.runners| ::
          (s.runners[r].Holding? || s.runners[r].Taken?) <==> s.owner == Some(RunnerThread(r)))
  }

  /** Vectors leave the queue in the order they entered it, and none is lost or repeated. */
  predicate FirstInFirstOut(s: State) {
    s.attempted + s.queue == s.enqueued
  }

  /** A runner takes at most one vector in each run it begins. */
  ghost predicate AtMostOneEach(s: State) {
    && Shaped(s)
    && forall r: nat | r < |s.runners| ::
         && s.taken[r] <= 1
         && (s.runners[r] in {SawPending, Injecting, Waiting, Holding} ==> s.taken[r] == 0)
  }

  /** A runner goes for an injection, and makes it, only in a run in which CanInjectInterrupt said yes. */
  ghost predicate OnlyIfAllowed(s: State) {
    && Shaped(s)
    && forall r: nat | r < |s.runners| ::
         s.runners[r] in {Injecting, Waiting, Holding} || s.taken[r] > 0 ==> s.allowed[r]
  }

  ghost predicate Inv(s: State) {
    Exclusive(s) && FirstInFirstOut(s) && AtMostOneEach(s) && OnlyIfAllowed(s)
  }

  lemma EnqueueKeeps(s: State, a: Action)
    requires Inv(s) && (a.EnqueueLock? || a.EnqueuePush? || a.EnqueueUnlock?)
    ensures Inv(Enqueue(s, a)) && Enqueue(s, a).runners == s.runners
    ensures s.queue <= Enqueue(s, a).queue && Enqueue(s, a).fault == s.fault
  {
    var s' := Enqueue(s, a);
    assert s'.enqueued == s'.attempted + s'.queue;
  }

  lemma HandleKeepsExclusive(s: State, a: Action)
    requires Exclusive(s) && Shaped(s) && !a.EnqueueLock? && !a.EnqueuePush? && !a.EnqueueUnlock?
    ensures Exclusive(Handle(s, a))
  {
  }

  lemma HandleKeepsOrder(s: State, a: Action)
    requires FirstInFirstOut(s) && Shaped(s) && !a.EnqueueLock? && !a.EnqueuePush? && !a.EnqueueUnlock?
    ensures FirstInFirstOut(Handle(s, a))
  {
    if s.queue != [] {
      assert (s.attempted + [s.queue[0]]) + s.queue[1..] == s.attempted + s.queue;
    }
  }

  lemma HandleKeepsCounts(s: State, a: Action)
    requires AtMostOneEach(s) && !a.EnqueueLock? && !a.EnqueuePush? && !a.EnqueueUnlock?
    ensures AtMostOneEach(Handle(s, a))
  {
  }

  lemma HandleKeepsAllowed(s: State, a: Action)
    requires AtMostOneEach(s) && OnlyIfAllowed(s) && !a.EnqueueLock? && !a.EnqueuePush? && !a.EnqueueUnlock?
    ensures OnlyIfAllowed(Handle(s, a))
  {
  }

  lemma HandleKeeps(s: State, a: Action)
    requires Inv(s) && !a.EnqueueLock? && !a.EnqueuePush? && !a.EnqueueUnlock?
    ensures Inv(Handle(s, a))
  {
    hide Handle, Exclusive, FirstInFirstOut, OnlyIfAllowed;
    HandleKeepsAllowed(s, a);
    HandleKeepsExclusive(s, a);
    HandleKeepsOrder(s, a);
    HandleKeepsCounts(s, a);
  }

  /**
   * Under every interleaving of any number of enqueuers and runners: mutual
   * exclusion, first in first out, at most one injection attempt for each run, and
   * none in a run in which CanInjectInterrupt did not say yes.
   */
  lemma {:induction false} EveryRunKeeps(s: State, actions: seq<Action>)
    requires Inv(s)
    ensures Inv(Execute(s, actions))
    decreases |actions|
  {
    if actions != [] {
      var a := actions[0];
      if a.EnqueueLock? || a.EnqueuePush? || a.EnqueueUnlock? {
        EnqueueKeeps(s, a);
      } else {
        HandleKeeps(s, a);
      }
      EveryRunKeeps(Step(s, a), actions[1..]);
    }
  }

  lemma ReachableStates(enqueuers: nat, runners: nat, actions: seq<Action>)
    ensures var s := Execute(Init(enqueuers, runners), actions);
            && s.attempted + s.queue == s.enqueued
            && |s.taken| == |s.allowed| == runners
            && forall r: nat | r < runners :: s.taken[r] <= 1 && (s.taken[r] > 0 ==> s.allowed[r])
  {
    EveryRunKeeps(Init(enqueuers, runners), actions);
  }

  /** A runner that executes or is outside a run makes no attempt before it begins another run. */
  lemma {:induction false} QuietRunner(s: State, r: nat, actions: seq<Action>)
    requires Shaped(s) && r < |s.runners| && s.runners[r] in {Executing, Outside}
    requires RunBegin(r) !in actions
    ensures var s' := Execute(s, actions);
            s'.taken[r] == s.taken[r] && s'.runners[r] in {Executing, Outside}
    decreases |actions|
  {
    if actions != [] {
      assert actions[0] != RunBegin(r);
      QuietStep(s, r, actions[0]);
      QuietRunner(Step(s, actions[0]), r, actions[1..]);
    }
  }

  lemma QuietStep(s: State, r: nat, a: Action)
    requires Shaped(s) && r < |s.runners| && s.runners[r] in {Executing, Outside} && a != RunBegin(r)
    ensures Step(s, a).taken[r] == s.taken[r] && Step(s, a).runners[r] in {Executing, Outside}
  {
  }

  /** A run counts as allowed only after CanInjectInterrupt said yes to that runner. */
  lemma {:induction false} AllowedNeedsYes(s: State, r: nat, actions: seq<Action>)
    requires Shaped(s) && r < |s.runners| && !s.allowed[r]
    requires Decide(r, true) !in actions
    ensures !Execute(s, actions).allowed[r]
    decreases |actions|
  {
    if actions != [] {
      assert actions[0] != Decide(r, true);
      AllowedStep(s, r, actions[0]);
      AllowedNeedsYes(Step(s, actions[0]), r, actions[1..]);
    }
  }

  lemma AllowedStep(s: State, r: nat, a: Action)
    requires Shaped(s) && r < |s.runners| && !s.allowed[r] && a != Decide(r, true)
    ensures !Step(s, a).allowed[r]
  {
  }

  /** So a runner has made an attempt in its current run only if CanInjectInterrupt said yes to it. */
  lemma AttemptNeedsYes(s: State, r: nat, actions: seq<Action>)
    requires Inv(s) && r < |s.runners| && !s.allowed[r]
    requires Decide(r, true) !in actions
    ensures Execute(s, actions).taken[r] == 0 && !Execute(s, actions).runners[r].Holding?
  {
    EveryRunKeeps(s, actions);
    AllowedNeedsYes(s, r, actions);
  }

  /** When CanInjectInterrupt says no, the runner makes no attempt, whatever else happens, until its next run. */
  lemma RefusalHolds(s: State, r: nat, actions: seq<Action>)
    requires Shaped(s) && r < |s.runners| && s.runners[r] == SawPending
    requires RunBegin(r) !in actions
    ensures Execute(s, [Decide(r, false)] + actions).taken[r] == s.taken[r]
  {
    ExecuteOne(s, Decide(r, false), actions);
    QuietRunner(Step(s, Decide(r, false)), r, actions);
  }

  /** When it says yes and nothing comes between, the run takes exactly the front of the queue. */
  lemma RunInjectsFront(s: State, r: nat)
    requires Shaped(s) && r < |s.runners| && s.runners[r] == Outside && s.queue != [] && s.owner.None?
    ensures var s' := Execute(s, RunnerPair(r) + [InjectLock(r), InjectTake(r), InjectUnlock(r)]);
            && s'.attempted == s.attempted + [s.queue[0]] && s'.queue == s.queue[1..]
            && s'.taken[r] == 1 && s'.owner.None? && s'.runners[r] == Executing
  {
    hide Execute, Step, RunnerPair;
    RunnerWaits(s, r);
    var waiting := Execute(s, RunnerPair(r));
    ExecuteAppend(s, RunnerPair(r), [InjectLock(r), InjectTake(r), InjectUnlock(r)]);
    ExecuteThree(waiting, InjectLock(r), InjectTake(r), InjectUnlock(r));
    LockStep(waiting, r);
    TakeStep(Step(waiting, InjectLock(r)), r);
    UnlockStep(Step(Step(waiting, InjectLock(r)), InjectTake(r)), r);
  }

  /** Enqueuing appends the vector. */
  lemma EnqueueAppends(s: State, t: nat, vector: Vector)
    requires Shaped(s) && t < |s.enqueuers| && s.enqueuers[t] == Idle && s.owner.None?
    ensures Execute(s, [EnqueueLock(t, vector), EnqueuePush(t), EnqueueUnlock(t)]) ==
            s.(queue := s.queue + [vector], enqueued := s.enqueued + [vector])
  {
    hide Execute;
    ExecuteThree(s, EnqueueLock(t, vector), EnqueuePush(t), EnqueueUnlock(t));
    assert s.enqueuers[t := Locked(vector)][t := Pushed][t := Idle] == s.enqueuers;
  }

  // ----- Front is never taken on an empty queue, with one runner -------------------------

  /** A runner past its size checks finds something in the queue. */
  ghost predicate ChecksHold(s: State) {
    && !s.fault
    && forall r: nat | r < |s.runners| && s.runners[r] in {SawPending, Injecting, Waiting, Holding} :: s.queue != []
  }

  lemma {:induction false} OneRunnerIsSafe(s: State, actions: seq<Action>)
    requires Inv(s) && ChecksHold(s) && |s.runners| <= 1
    ensures ChecksHold(Execute(s, actions))
    decreases |actions|
  {
    if actions != [] {
      var a := actions[0];
      if a.EnqueueLock? || a.EnqueuePush? || a.EnqueueUnlock? {
        EnqueueKeeps(s, a);
      } else {
        HandleKeeps(s, a);
      }
      OneRunnerIsSafe(Step(s, a), actions[1..]);
    }
  }

  /** One vector, and two runners that both check before either takes. */
  function RunnerPair(r: nat): seq<Action> {
    [RunBegin(r), Decide(r, true), Recheck(r)]
  }

  function RacingTrace(): seq<Action> {
    [EnqueueLock(0, 32), EnqueuePush(0), EnqueueUnlock(0)] + RunnerPair(0) + RunnerPair(1)
    + [InjectLock(0), InjectTake(0), InjectUnlock(0), InjectLock(1), InjectTake(1)]
  }

  lemma ExecuteOne(s: State, a: Action, rest: seq<Action>)
    requires Shaped(s)
    ensures Execute(s, [a] + rest) == Execute(Step(s, a), rest)
    ensures Execute(s, []) == s
  {
    assert ([a] + rest)[1..] == rest;
  }

  lemma ExecuteThree(s: State, a: Action, b: Action, c: Action)
    requires Shaped(s)
    ensures Execute(s, [a, b, c]) == Step(Step(Step(s, a), b), c)
  {
    hide Execute, Step;
    ExecuteOne(s, a, [b, c]);
    ExecuteOne(Step(s, a), b, [c]);
    ExecuteOne(Step(Step(s, a), b), c, []);
    ExecuteOne(Step(Step(Step(s, a), b), c), c, []);
    assert [a, b, c] == [a] + [b, c] && [b, c] == [b] + [c] && [c] == [c] + [];
  }

  /** A runner that finds something in the queue gets past both checks. */
  lemma RunnerWaits(s: State, r: nat)
    requires Shaped(s) && r < |s.runners| && s.runners[r] == Outside && s.queue != []
    ensures var s' := Execute(s, RunnerPair(r));
            s' == s.(runners := s.runners[r := Waiting], taken := s.taken[r := 0], allowed := s.allowed[r := true])
  {
    hide Execute;
    ExecuteThree(s, RunBegin(r), Decide(r, true), Recheck(r));
  }

  /** A runner past its checks takes the only vector, and leaves the queue empty and the mutex free. */
  lemma FirstTakeEmpties(s: State)
    requires Shaped(s) && |s.runners| >= 2 && s.runners[0] == Waiting && |s.queue| == 1 && s.owner.None?
    ensures var s' := Execute(s, [InjectLock(0), InjectTake(0), InjectUnlock(0)]);
            s'.queue == [] && s'.owner.None? && s'.runners == s.runners[0 := Executing]
  {
    hide Execute, Step;
    ExecuteThree(s, InjectLock(0), InjectTake(0), InjectUnlock(0));
    LockStep(s, 0);
    TakeStep(Step(s, InjectLock(0)), 0);
    UnlockStep(Step(Step(s, InjectLock(0)), InjectTake(0)), 0);
  }

  lemma LockStep(s: State, r: nat)
    requires Shaped(s) && r < |s.runners| && s.runners[r] == Waiting && s.owner.None?
    ensures Step(s, InjectLock(r)) == s.(owner := Some(RunnerThread(r)), runners := s.runners[r := Holding])
  {
  }

  lemma TakeStep(s: State, r: nat)
    requires Shaped(s) && r < |s.runners| && s.runners[r] == Holding
    ensures var s' := Step(s, InjectTake(r));
            if s.queue == [] then s' == s.(fault := true)
            else s' == s.(queue := s.queue[1..], attempted := s.attempted + [s.queue[0]],
                          taken := s.taken[r := s.taken[r] + 1], runners := s.runners[r := Taken])
  {
  }

  lemma UnlockStep(s: State, r: nat)
    requires Shaped(s) && r < |s.runners| && s.runners[r] == Taken
    ensures Step(s, InjectUnlock(r)) == s.(owner := None, runners := s.runners[r := Executing])
  {
  }

  /** A second runner past its checks finds the queue empty. */
  lemma EmptyTakeFaults(s: State, r: nat)
    requires Shaped(s) && r < |s.runners| && s.runners[r] == Waiting && s.queue == [] && s.owner.None?
    ensures Execute(s, [InjectLock(r), InjectTake(r)]).fault
  {
    hide Execute, Step;
    LockStep(s, r);
    var held := Step(s, InjectLock(r));
    TakeStep(held, r);
    ExecuteOne(s, InjectLock(r), [InjectTake(r)]);
    ExecuteOne(held, InjectTake(r), []);
    ExecuteOne(Step(held, InjectTake(r)), InjectTake(r), []);
    assert [InjectLock(r), InjectTake(r)] == [InjectLock(r)] + [InjectTake(r)];
    assert [InjectTake(r)] == [InjectTake(r)] + [];
  }

  /** The last part of the trace, from a state with one vector and two runners past their checks. */
  lemma SecondTakeFaults(s: State)
    requires Shaped(s) && |s.runners| >= 2 && s.runners[0] == Waiting && s.runners[1] == Waiting
    requires |s.queue| == 1 && s.owner.None?
    ensures Execute(s, [InjectLock(0), InjectTake(0), InjectUnlock(0)] + [InjectLock(1), InjectTake(1)]).fault
  {
    hide Execute, Step;
    var first := [InjectLock(0), InjectTake(0), InjectUnlock(0)];
    FirstTakeEmpties(s);
    ExecuteAppend(s, first, [InjectLock(1), InjectTake(1)]);
    EmptyTakeFaults(Execute(s, first), 1);
  }

  lemma OneVectorQueued(runners: nat)
    ensures var s := Execute(Init(1, runners), [EnqueueLock(0, 32), EnqueuePush(0), EnqueueUnlock(0)]);
            s.queue == [32] && s.owner.None? && s.runners == Init(1, runners).runners
  {
    hide Execute;
    ExecuteThree(Init(1, runners), EnqueueLock(0, 32), EnqueuePush(0), EnqueueUnlock(0));
  }

  lemma TwoRunnersFault(runners: nat)
    requires runners >= 2
    ensures Execute(Init(1, runners), RacingTrace()).fault
  {
    hide Execute, Step, RunnerPair;
    var s := Init(1, runners);
    var first, last := [EnqueueLock(0, 32), EnqueuePush(0), EnqueueUnlock(0)],
                       [InjectLock(0), InjectTake(0), InjectUnlock(0)] + [InjectLock(1), InjectTake(1)];
    OneVectorQueued(runners);
    var s1 := Execute(s, first);
    RunnerWaits(s1, 0);
    var s2 := Execute(s1, RunnerPair(0));
    RunnerWaits(s2, 1);
    SecondTakeFaults(Execute(s2, RunnerPair(1)));
    ExecuteAppend(s, first, RunnerPair(0));
    ExecuteAppend(s, first + RunnerPair(0), RunnerPair(1));
    ExecuteAppend(s, first + RunnerPair(0) + RunnerPair(1), last);
    assert RacingTrace() == (first + RunnerPair(0) + RunnerPair(1)) + last;
  }

  /**
   * The unlocked size checks are safe for every interleaving of any number of
   * enqueuers exactly when at most one thread runs the virtual processor.
   */
  lemma SafeIffOneRunner(runners: nat)
    ensures (forall enqueuers: nat, actions: seq<Action> :: !Execute(Init(enqueuers, runners), actions).fault)
            <==> runners <= 1
  {
    if runners <= 1 {
      forall enqueuers: nat, actions: seq<Action>
        ensures !Execute(Init(enqueuers, runners), actions).fault
      {
        OneRunnerIsSafe(Init(enqueuers, runners), actions);
      }
    } else {
      TwoRunnersFault(runners);
    }
  }
}

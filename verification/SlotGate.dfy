/**
  The worker-slot gate of the asynchronous entry points: a counter of busy workers, a condition
  variable and one recursive isolate lock.  A script thread waits for a slot while it HOLDS the
  isolate lock; a worker gives its slot back and notifies BEFORE it asks for that lock.

  Each critical section on the counter's mutex is one step, and so is going to sleep, because
  a condition variable gives the mutex up and starts waiting atomically.
 */
module SlotGate {
  import opened Options

  const MAX_THREADS: int := 24

  /** Where a thread stands.  Script, AtGate, Asleep and Settling hold the isolate lock. */
  datatype Phase =
    | Outside     // a request thread that is not in the engine
    | Script      // runs script code (on a worker: continuations of its settled promise)
    | AtGate      // passed its argument checks, about to test the counter
    | Asleep      // found no free slot; waits on the condition variable
    | Working     // a worker that owns a slot
    | MustNotify  // a worker that gave its slot back but has not notified yet
    | Unsettled   // a worker that has notified and wants the lock
    | Settling    // a worker with the lock whose promise is still pending
    | Finished    // a worker whose thread function returned

  datatype Thread = Thread(phase: Phase, worker: bool)

  /** Threads are numbered by arrival; `holder` and `depth` describe the recursive isolate lock. */
  datatype State = State(count: int, holder: Option<nat>, depth: nat, threads: seq<Thread>)

  datatype Step =
    | Arrive                              // a new request thread appears
    | Enter(t: nat)                       // a request thread takes the isolate lock
    | Nest(t: nat)                        // the holder locks again
    | Unlock(t: nat)                      // the holder leaves one locker scope
    | Call(t: nat, valid: bool)           // script calls an entry point; bad arguments throw
    | Test(t: nat)                        // predicate of the wait: admit and spawn, or sleep
    | Spurious(t: nat)                    // a sleeper wakes for no reason
    | Release(t: nat)                     // the work ends: the counter goes down
    | Notify(t: nat, woken: Option<nat>)  // notify_one
    | Lock(t: nat)                        // a worker takes the isolate lock
    | Settle(t: nat, resolved: bool)      // resolve or reject the promise

  const INITIAL: State := State(0, None, 0, [])

  predicate At(s: State, t: nat, p: Phase) {
    t < |s.threads| && s.threads[t].phase == p
  }

  predicate HoldsLock(p: Phase) {
    p.Script? || p.AtGate? || p.Asleep? || p.Settling?
  }

  ghost predicate Enabled(s: State, step: Step) {
    match step
    case Arrive => true
    case Enter(t) => At(s, t, Outside) && s.holder.None?
    case Nest(t) => At(s, t, Script)
    case Unlock(t) => At(s, t, Script)
    case Call(t, _) => At(s, t, Script)
    case Test(t) => At(s, t, AtGate)
    case Spurious(t) => At(s, t, Asleep)
    case Release(t) => At(s, t, Working)
    case Notify(t, woken) =>
      && At(s, t, MustNotify)
      && (match woken
          case Some(u) => At(s, u, Asleep)
          case None => forall u :: !At(s, u, Asleep))
    case Lock(t) => At(s, t, Unsettled) && s.holder.None?
    case Settle(t, _) => At(s, t, Settling)
  }

  function Move(s: State, t: nat, p: Phase): State
    requires t < |s.threads|
  {
    s.(threads := s.threads[t := s.threads[t].(phase := p)])
  }

  ghost function Apply(s: State, step: Step): State
    requires Enabled(s, step)
  {
    match step
    case Arrive => s.(threads := s.threads + [Thread(Outside, false)])
    case Enter(t) => Move(s, t, Script).(holder := Some(t), depth := 1)
    case Nest(t) => s.(depth := s.depth + 1)
    case Unlock(t) =>
      if s.depth > 1 then s.(depth := s.depth - 1)
      else Move(s, t, if s.threads[t].worker then Finished else Outside).(holder := None, depth := 0)
    case Call(t, valid) => if valid then Move(s, t, AtGate) else s
    case Test(t) =>
      if s.count < MAX_THREADS then
        var s' := Move(s, t, Script);
        s'.(count := s.count + 1, threads := s'.threads + [Thread(Working, true)])
      else Move(s, t, Asleep)
    case Spurious(t) => Move(s, t, AtGate)
    case Release(t) => Move(s, t, MustNotify).(count := s.count - 1)
    case Notify(t, woken) =>
      var s' := Move(s, t, Unsettled);
      if woken.Some? then Move(s', woken.value, AtGate) else s'
    case Lock(t) => Move(s, t, Settling).(holder := Some(t), depth := 1)
    case Settle(t, _) => Move(s, t, Script)
  }

  // ----- Runs: every finite schedule from the initial state -----

  /** The state a schedule ends in, or None when one of its steps was not enabled. */
  ghost function Exec(run: seq<Step>): Option<State> {
    if run == [] then Some(INITIAL)
    else
      match Exec(run[..|run| - 1])
      case None => None
      case Some(s) => if Enabled(s, run[|run| - 1]) then Some(Apply(s, run[|run| - 1])) else None
  }

  lemma Extend(run: seq<Step>, step: Step)
    ensures Exec(run + [step]) ==
            match Exec(run)
            case None => None
            case Some(s) => if Enabled(s, step) then Some(Apply(s, step)) else None
  {
    assert (run + [step])[..|run|] == run;
  }

  // ----- Counting over threads -----

  function Tally(ts: seq<Thread>, f: Thread -> nat): nat {
    if ts == [] then 0 else Tally(ts[..|ts| - 1], f) + f(ts[|ts| - 1])
  }

  lemma {:induction false} TallyUpdate(ts: seq<Thread>, f: Thread -> nat, t: nat, x: Thread)
    requires t < |ts|
    ensures Tally(ts[t := x], f) + f(ts[t]) == Tally(ts, f) + f(x)
  {
    var n := |ts| - 1;
    if t == n {
      assert ts[t := x][..n] == ts[..n];
    } else {
      TallyUpdate(ts[..n], f, t, x);
      assert ts[t := x][..n] == ts[..n][t := x];
    }
  }

  lemma {:induction false} TallyZero(ts: seq<Thread>, f: Thread -> nat)
    ensures Tally(ts, f) == 0 <==> forall t :: 0 <= t < |ts| ==> f(ts[t]) == 0
  {
    if ts != [] {
      var n := |ts| - 1;
      TallyZero(ts[..n], f);
      assert forall t :: 0 <= t < n ==> ts[t] == ts[..n][t];
    }
  }

  lemma TallyPush(ts: seq<Thread>, f: Thread -> nat, x: Thread)
    ensures Tally(ts + [x], f) == Tally(ts, f) + f(x)
  {
    assert (ts + [x])[..|ts|] == ts;
  }

  function IsBusy(th: Thread): nat { if th.phase.Working? then 1 else 0 }
  function IsWorker(th: Thread): nat { if th.worker then 1 else 0 }
  function IsWaiting(th: Thread): nat { if th.phase.AtGate? || th.phase.Asleep? then 1 else 0 }

  /** How far a thread is from rest. */
  function Weight(th: Thread): nat {
    match th.phase
    case Outside => 0
    case Finished => 0
    case Script => 1
    case Settling => 2
    case Unsettled => 4
    case MustNotify => 6
    case Working => 7
    case Asleep => 8
    case AtGate => 9
  }

  function Rank(s: State): nat { Tally(s.threads, Weight) + s.depth }

  /** How one step changes any tally of the threads. */
  lemma TallyStep(s: State, step: Step, f: Thread -> nat)
    requires Enabled(s, step)
    ensures var s' := Apply(s, step);
            match step
            case Arrive => Tally(s'.threads, f) == Tally(s.threads, f) + f(Thread(Outside, false))
            case Nest(_) => s'.threads == s.threads
            case Test(t) =>
              Tally(s'.threads, f) + f(s.threads[t]) == Tally(s.threads, f) + f(s'.threads[t])
                + if s.count < MAX_THREADS then f(Thread(Working, true)) else 0
            case Notify(t, Some(u)) =>
              Tally(s'.threads, f) + f(s.threads[t]) + f(s.threads[u])
                == Tally(s.threads, f) + f(s'.threads[t]) + f(s'.threads[u])
            case _ =>
              Tally(s'.threads, f) + f(s.threads[step.t]) == Tally(s.threads, f) + f(s'.threads[step.t])
  {
    var s' := Apply(s, step);
    match step
    case Arrive => TallyPush(s.threads, f, Thread(Outside, false));
    case Nest(_) =>
    case Unlock(t) => TallyUpdate(s.threads, f, t, s'.threads[t]); assert s.threads[t := s.threads[t]] == s.threads;
    case Call(t, _) => TallyUpdate(s.threads, f, t, s'.threads[t]); assert s.threads[t := s.threads[t]] == s.threads;
    case Test(t) =>
      TallyUpdate(s.threads, f, t, s'.threads[t]);
      TallyPush(s.threads[t := s'.threads[t]], f, Thread(Working, true));
    case Notify(t, Some(u)) =>
      var mid := Move(s, t, Unsettled);
      TallyUpdate(s.threads, f, t, mid.threads[t]);
      TallyUpdate(mid.threads, f, u, s'.threads[u]);
    case _ => TallyUpdate(s.threads, f, step.t, s'.threads[step.t]);
  }

  // ----- The invariant -----

  ghost predicate LockOwned(s: State) {
    && (s.holder.None? <==> s.depth == 0)
    && (s.holder.Some? ==> s.holder.value < |s.threads|)
    && forall t :: 0 <= t < |s.threads| ==> (HoldsLock(s.threads[t].phase) <==> s.holder == Some(t))
  }

  /** A sleeper that could be admitted has a notification on its way. */
  ghost predicate NoLostWakeUp(s: State) {
    (exists t: nat :: At(s, t, Asleep)) && s.count < MAX_THREADS ==> exists u: nat :: At(s, u, MustNotify)
  }

  ghost predicate Roles(s: State) {
    forall t :: 0 <= t < |s.threads| ==>
      var p := s.threads[t].phase;
      && (p.Outside? ==> !s.threads[t].worker)
      && (p.Working? || p.MustNotify? || p.Unsettled? || p.Settling? || p.Finished? ==> s.threads[t].worker)
  }

  ghost predicate Inv(s: State) {
    && s.count == Tally(s.threads, IsBusy) <= MAX_THREADS
    && LockOwned(s)
    && NoLostWakeUp(s)
    && Roles(s)
  }

  /** While a thread sleeps it holds the lock, so nobody else can pass the gate or sleep. */
  lemma NoLostWakeUpKept(s: State, step: Step)
    requires LockOwned(s) && NoLostWakeUp(s) && Enabled(s, step)
    ensures NoLostWakeUp(Apply(s, step))
  {
    var s' := Apply(s, step);
    if t: nat :| At(s', t, Asleep) && s'.count < MAX_THREADS {
      assert step.Test? || At(s, t, Asleep);
      assert At(s, t, Asleep) ==> s.holder == Some(t);
      if step.Release? {
        assert At(s', step.t, MustNotify);
      } else if step.Arrive? {
        assert At(s, t, Asleep);
        var u: nat :| At(s, u, MustNotify);
        assert At(s', u, MustNotify);
      } else {
        assert false;
      }
    }
  }

  lemma LockOwnedKept(s: State, step: Step)
    requires LockOwned(s) && Enabled(s, step)
    ensures LockOwned(Apply(s, step))
  {
  }

  lemma RolesKept(s: State, step: Step)
    requires Roles(s) && Enabled(s, step)
    ensures Roles(Apply(s, step))
  {
  }

  lemma CountKept(s: State, step: Step)
    requires s.count == Tally(s.threads, IsBusy) <= MAX_THREADS && Enabled(s, step)
    ensures var s' := Apply(s, step); s'.count == Tally(s'.threads, IsBusy) <= MAX_THREADS
  {
    hide Tally;
    TallyStep(s, step, IsBusy);
  }

  /** Every reachable state satisfies the invariant. */
  lemma {:induction false} Safety(run: seq<Step>)
    requires Exec(run).Some?
    ensures Inv(Exec(run).value)
  {
    if run != [] {
      var front, step := run[..|run| - 1], run[|run| - 1];
      Safety(front);
      var s := Exec(front).value;
      CountKept(s, step);
      LockOwnedKept(s, step);
      NoLostWakeUpKept(s, step);
      RolesKept(s, step);
    }
  }

  // ----- Consequences for every reachable state -----

  /** The counter is the number of slot owners and lies in 0..24. */
  lemma CounterIsExact(run: seq<Step>)
    requires Exec(run).Some?
    ensures var s := Exec(run).value; 0 <= s.count == Tally(s.threads, IsBusy) <= MAX_THREADS
  {
    Safety(run);
  }

  /** Waiting needs the lock, so there is at most one waiter, and no waiter or lock owner has a slot. */
  lemma AtMostOneWaiter(run: seq<Step>, t: nat, u: nat)
    requires Exec(run).Some?
    requires var s := Exec(run).value; (At(s, t, AtGate) || At(s, t, Asleep)) && (At(s, u, AtGate) || At(s, u, Asleep))
    ensures t == u && Exec(run).value.holder == Some(t)
  {
    Safety(run);
  }

  /**
    A sleeping caller never depends on the lock it holds: with the gate full a slot owner can release, and with
    a free slot a notification is pending whose step wakes exactly this caller.
   */
  lemma SleeperCanBeServed(run: seq<Step>, t: nat) returns (u: nat)
    requires Exec(run).Some? && At(Exec(run).value, t, Asleep)
    ensures var s := Exec(run).value;
            if s.count >= MAX_THREADS
            then Enabled(s, Release(u))
            else Enabled(s, Notify(u, Some(t))) && At(Apply(s, Notify(u, Some(t))), t, AtGate)
  {
    Safety(run);
    var s := Exec(run).value;
    if s.count >= MAX_THREADS {
      TallyZero(s.threads, IsBusy);
      u :| 0 <= u < |s.threads| && IsBusy(s.threads[u]) != 0;
    } else {
      u :| At(s, u, MustNotify);
    }
  }

  // ----- Liveness: what is under way always drains -----

  /** Steps that finish what is under way; the others bring new work or are chance. */
  predicate Internal(step: Step) {
    step.Unlock? || step.Test? || step.Release? || step.Notify? || step.Lock? || step.Settle?
  }

  predicate AllInternal(steps: seq<Step>) {
    forall i :: 0 <= i < |steps| ==> Internal(steps[i])
  }

  /** Nobody holds the lock, a slot or an unsettled promise. */
  predicate Quiescent(s: State) {
    && s.count == 0 && s.holder.None? && s.depth == 0
    && forall t :: 0 <= t < |s.threads| ==> s.threads[t].phase == if s.threads[t].worker then Finished else Outside
  }

  lemma InternalStepDescends(s: State, step: Step)
    requires Inv(s) && Enabled(s, step) && Internal(step)
    ensures Rank(Apply(s, step)) < Rank(s)
  {
    hide Tally;
    TallyStep(s, step, Weight);
  }

  /** Deadlock freedom: a state that is not quiescent has an internal step. */
  lemma Progress(s: State) returns (step: Step)
    requires Inv(s) && !Quiescent(s)
    ensures Enabled(s, step) && Internal(step)
  {
    if t: nat :| At(s, t, Working) {
      step := Release(t);
    } else if t: nat :| At(s, t, MustNotify) {
      if u: nat :| At(s, u, Asleep) {
        step := Notify(t, Some(u));
      } else {
        step := Notify(t, None);
      }
    } else {
      forall t | 0 <= t < |s.threads| ensures IsBusy(s.threads[t]) == 0 {
        assert !At(s, t, Working);
      }
      TallyZero(s.threads, IsBusy);
      if s.holder.Some? {
        var h := s.holder.value;
        assert !At(s, h, Asleep);
        step := if At(s, h, AtGate) then Test(h) else if At(s, h, Script) then Unlock(h) else Settle(h, true);
      } else if t: nat :| At(s, t, Unsettled) {
        step := Lock(t);
      } else {
        assert forall t :: 0 <= t < |s.threads| ==>
            !At(s, t, Working) && !At(s, t, MustNotify) && !At(s, t, Unsettled) && !HoldsLock(s.threads[t].phase);
        assert false;
      }
    }
  }

  /** From every reachable state the work under way can be driven to quiescence. */
  lemma {:induction false} Drains(run: seq<Step>) returns (more: seq<Step>)
    requires Exec(run).Some?
    ensures AllInternal(more) && Exec(run + more).Some? && Quiescent(Exec(run + more).value)
    decreases Rank(Exec(run).value)
  {
    hide Tally, Apply, Enabled, Exec, Inv, Quiescent;
    Safety(run);
    var s := Exec(run).value;
    if Quiescent(s) {
      more := [];
      assert run + more == run;
    } else {
      var step := Progress(s);
      InternalStepDescends(s, step);
      Extend(run, step);
      var rest := Drains(run + [step]);
      more := [step] + rest;
      assert run + more == run + [step] + rest;
    }
  }

  /** No schedule of internal steps alone goes on for more than Rank steps. */
  lemma {:induction false} InternalRunsAreBounded(run: seq<Step>, more: seq<Step>)
    requires Exec(run + more).Some? && AllInternal(more)
    ensures Exec(run).Some? && |more| + Rank(Exec(run + more).value) <= Rank(Exec(run).value)
  {
    if more == [] {
      assert run + more == run;
    } else {
      var front, step := more[..|more| - 1], more[|more| - 1];
      assert run + more == (run + front) + [step];
      Extend(run + front, step);
      InternalRunsAreBounded(run, front);
      Safety(run + front);
      InternalStepDescends(Exec(run + front).value, step);
    }
  }

  // ----- Settlement and admission over whole runs -----

  function Times(run: seq<Step>, f: Step -> bool): nat {
    if run == [] then 0
    else Times(run[..|run| - 1], f) + if f(run[|run| - 1]) then 1 else 0
  }

  function ReleaseOf(t: nat): Step -> bool { (step: Step) => step == Release(t) }
  function SettleOf(t: nat): Step -> bool { (step: Step) => step.Settle? && step.t == t }
  function ValidCall(): Step -> bool { (step: Step) => step.Call? && step.valid }

  /** How often thread t has given a slot back, and settled its promise, read off its phase. */
  function Released(s: State, t: nat): nat {
    if t < |s.threads| && s.threads[t].worker && !s.threads[t].phase.Working? then 1 else 0
  }
  function Settled(s: State, t: nat): nat {
    if t < |s.threads| && s.threads[t].worker
       && !(s.threads[t].phase.Working? || s.threads[t].phase.MustNotify?
            || s.threads[t].phase.Unsettled? || s.threads[t].phase.Settling?) then 1 else 0
  }

  lemma HistoryStep(s: State, step: Step, t: nat)
    requires Roles(s) && Enabled(s, step)
    ensures Released(Apply(s, step), t) == Released(s, t) + if ReleaseOf(t)(step) then 1 else 0
    ensures Settled(Apply(s, step), t) == Settled(s, t) + if SettleOf(t)(step) then 1 else 0
  {
  }

  lemma AdmissionStep(s: State, step: Step)
    requires Enabled(s, step)
    ensures var ts, ts' := s.threads, Apply(s, step).threads;
            Tally(ts', IsWorker) + Tally(ts', IsWaiting)
              == Tally(ts, IsWorker) + Tally(ts, IsWaiting) + if ValidCall()(step) then 1 else 0
  {
    hide Tally;
    TallyStep(s, step, IsWorker);
    TallyStep(s, step, IsWaiting);
  }

  lemma {:induction false} History(run: seq<Step>, t: nat)
    requires Exec(run).Some?
    ensures Times(run, ReleaseOf(t)) == Released(Exec(run).value, t)
    ensures Times(run, SettleOf(t)) == Settled(Exec(run).value, t)
  {
    if run != [] {
      var front := run[..|run| - 1];
      History(front, t);
      Safety(front);
      HistoryStep(Exec(front).value, run[|run| - 1], t);
    }
  }

  /** A promise is settled at most once, and only after its worker gave its slot back. */
  lemma SettledOnceAfterRelease(run: seq<Step>, t: nat)
    requires Exec(run).Some?
    ensures Times(run, SettleOf(t)) <= Times(run, ReleaseOf(t)) <= 1
  {
    History(run, t);
  }

  /** Every call that passed its argument checks has exactly one worker, or is the one still waiting. */
  lemma {:induction false} AdmissionsAreConserved(run: seq<Step>)
    requires Exec(run).Some?
    ensures var s := Exec(run).value;
            Times(run, ValidCall()) == Tally(s.threads, IsWorker) + Tally(s.threads, IsWaiting)
  {
    if run != [] {
      var front, step := run[..|run| - 1], run[|run| - 1];
      AdmissionsAreConserved(front);
      AdmissionStep(Exec(front).value, step);
    }
  }

  /** Once drained, each accepted call has settled its promise exactly once and no slot is held. */
  lemma DrainedMeansAllSettled(run: seq<Step>, t: nat)
    requires Exec(run).Some? && Quiescent(Exec(run).value)
    requires t < |Exec(run).value.threads| && Exec(run).value.threads[t].worker
    ensures Times(run, SettleOf(t)) == Times(run, ReleaseOf(t)) == 1
    ensures Times(run, ValidCall()) == Tally(Exec(run).value.threads, IsWorker)
  {
    History(run, t);
    AdmissionsAreConserved(run);
    TallyZero(Exec(run).value.threads, IsWaiting);
  }

  // ----- Any schedule: work under way is paid for by what brought it -----

  function InternalStep(): Step -> bool { (step: Step) => Internal(step) }
  function EnterStep(): Step -> bool { (step: Step) => step.Enter? }
  function NestStep(): Step -> bool { (step: Step) => step.Nest? }
  function SpuriousStep(): Step -> bool { (step: Step) => step.Spurious? }

  /** What a step that is not internal adds to the rank. */
  function Brought(step: Step): nat {
    if step.Enter? then 2 else if step.Nest? || step.Spurious? then 1 else if ValidCall()(step) then 8 else 0
  }

  lemma StepIsPaid(s: State, step: Step)
    requires Inv(s) && Enabled(s, step)
    ensures Rank(Apply(s, step)) + (if Internal(step) then 1 else 0) <= Rank(s) + Brought(step)
  {
    hide Tally;
    TallyStep(s, step, Weight);
  }

  /**
    In every run, whatever its schedule, the internal steps are at most a constant times the entries, nestings, valid
    calls and spurious wake-ups: only those can keep the gate busy.
   */
  lemma {:induction false} InternalStepsArePaid(run: seq<Step>)
    requires Exec(run).Some?
    ensures Times(run, InternalStep()) + Rank(Exec(run).value)
         <= 2 * Times(run, EnterStep()) + Times(run, NestStep())
            + 8 * Times(run, ValidCall()) + Times(run, SpuriousStep())
  {
    if run != [] {
      var front, step := run[..|run| - 1], run[|run| - 1];
      InternalStepsArePaid(front);
      Safety(front);
      StepIsPaid(Exec(front).value, step);
    }
  }

  // ----- A waiting caller under every schedule -----

  predicate Waiting(s: State, t: nat) { At(s, t, AtGate) || At(s, t, Asleep) }

  /** The steps that can bring a waiting caller nearer to its slot. */
  function GateStep(): Step -> bool { (step: Step) => step.Release? || step.Notify? || step.Test? }

  function IsNotifying(th: Thread): nat { if th.phase.MustNotify? then 1 else 0 }
  function IsAtGate(th: Thread): nat { if th.phase.AtGate? then 1 else 0 }

  /** How many gate steps a thread can still make while somebody waits. */
  function GateWeight(th: Thread): nat { 3 * IsBusy(th) + 2 * IsNotifying(th) + IsAtGate(th) }

  lemma {:induction false} GateWeights(ts: seq<Thread>)
    ensures Tally(ts, GateWeight) == 3 * Tally(ts, IsBusy) + 2 * Tally(ts, IsNotifying) + Tally(ts, IsAtGate)
  {
    if ts != [] { GateWeights(ts[..|ts| - 1]); }
  }

  lemma {:induction false} TallyOne(ts: seq<Thread>, t: nat)
    requires forall u :: 0 <= u < |ts| && u != t ==> IsAtGate(ts[u]) == 0
    ensures Tally(ts, IsAtGate) <= 1
  {
    if ts != [] {
      var n := |ts| - 1;
      if n == t {
        TallyZero(ts[..n], IsAtGate);
      } else {
        TallyOne(ts[..n], t);
      }
    }
  }

  /** The waiter holds the lock, so only workers, its own tests and chance can act, and each gate step is paid for. */
  lemma WaitStep(s: State, step: Step, t: nat)
    requires Inv(s) && Waiting(s, t) && Enabled(s, step) && Waiting(Apply(s, step), t)
    ensures GateStep()(step) || step.Spurious? || step.Arrive?
    ensures Tally(Apply(s, step).threads, GateWeight) + (if GateStep()(step) then 1 else 0)
         <= Tally(s.threads, GateWeight) + if step.Spurious? then 1 else 0
  {
    hide Tally;
    assert s.holder == Some(t);
    TallyStep(s, step, GateWeight);
  }

  /**
    Under every schedule a caller waits through at most 3 gate steps per busy slot, 2 per notification under way and
    one test, plus one for each spurious wake-up.
   */
  lemma {:induction false} WaitIsBounded(run: seq<Step>, more: seq<Step>, t: nat)
    requires Exec(run + more).Some?
    requires forall i :: 0 <= i <= |more| ==> Exec(run + more[..i]).Some? && Waiting(Exec(run + more[..i]).value, t)
    ensures Exec(run).Some?
    ensures var s := Exec(run).value;
            Times(more, GateStep()) <= 3 * s.count + 2 * Tally(s.threads, IsNotifying) + 1 + Times(more, SpuriousStep())
    ensures forall i :: 0 <= i < |more| ==> GateStep()(more[i]) || more[i].Spurious? || more[i].Arrive?
  {
    hide Exec, Tally, Apply, Enabled;
    assert run + more[..0] == run;
    Safety(run);
    var s := Exec(run).value;
    WaitPotential(run, more, t);
    GateWeights(s.threads);
    TallyOne(s.threads, t);
  }

  lemma {:induction false} WaitPotential(run: seq<Step>, more: seq<Step>, t: nat)
    requires Exec(run + more).Some? && Exec(run).Some?
    requires forall i :: 0 <= i <= |more| ==> Exec(run + more[..i]).Some? && Waiting(Exec(run + more[..i]).value, t)
    ensures Times(more, GateStep()) + Tally(Exec(run + more).value.threads, GateWeight)
         <= Tally(Exec(run).value.threads, GateWeight) + Times(more, SpuriousStep())
    ensures forall i :: 0 <= i < |more| ==> GateStep()(more[i]) || more[i].Spurious? || more[i].Arrive?
  {
    hide Exec, Tally, Apply, Enabled, Inv, Waiting;
    if more == [] {
      assert run + more == run;
    } else {
      var n := |more| - 1;
      var front, step := more[..n], more[n];
      assert run + more == (run + front) + [step] && more[..n + 1] == more;
      Extend(run + front, step);
      forall i | 0 <= i <= n ensures front[..i] == more[..i] {}
      WaitPotential(run, front, t);
      Safety(run + front);
      WaitStep(Exec(run + front).value, step, t);
    }
  }

  /** And one of those steps is always there to be made. */
  lemma WaiterIsServed(run: seq<Step>, t: nat) returns (step: Step)
    requires Exec(run).Some? && Waiting(Exec(run).value, t)
    ensures Enabled(Exec(run).value, step) && GateStep()(step)
  {
    var s := Exec(run).value;
    if At(s, t, AtGate) {
      step := Test(t);
    } else {
      var u := SleeperCanBeServed(run, t);
      step := if s.count >= MAX_THREADS then Release(u) else Notify(u, Some(t));
    }
  }

  // ----- That the steps are there, and that callers really sleep -----

  /** In every reachable state each thread can do what its phase lets it, whatever the counter says. */
  lemma Available(run: seq<Step>, t: nat)
    requires Exec(run).Some? && t < |Exec(run).value.threads|
    ensures var s := Exec(run).value;
            && Enabled(s, Arrive)
            && match s.threads[t].phase
               case Outside => s.holder.None? ==> Enabled(s, Enter(t))
               case Script =>
                 && Enabled(s, Nest(t)) && Enabled(s, Unlock(t))
                 && Enabled(s, Call(t, true)) && At(Apply(s, Call(t, true)), t, AtGate)
                 && Enabled(s, Call(t, false)) && Apply(s, Call(t, false)) == s
               case AtGate => Enabled(s, Test(t))
               case Asleep => Enabled(s, Spurious(t)) && At(Apply(s, Spurious(t)), t, AtGate)
               case Working => Enabled(s, Release(t)) && Apply(s, Release(t)).count == s.count - 1
               case MustNotify =>
                 && (forall u: nat :: At(s, u, Asleep) ==> Enabled(s, Notify(t, Some(u))))
                 && ((forall u: nat :: !At(s, u, Asleep)) ==> Enabled(s, Notify(t, None)))
               case Unsettled => s.holder.None? ==> Enabled(s, Lock(t))
               case Settling => Enabled(s, Settle(t, true)) && Enabled(s, Settle(t, false))
               case Finished => true
  {
  }

  /** One request thread that makes n valid calls, each of them admitted. */
  function Filling(n: nat): seq<Step> {
    if n == 0 then [Arrive, Enter(0)] else Filling(n - 1) + [Call(0, true), Test(0)]
  }

  function Busy(n: nat): seq<Thread> { [Thread(Script, false)] + seq(n, _ => Thread(Working, true)) }

  lemma {:induction false} Fills(n: nat)
    requires n <= MAX_THREADS
    ensures Exec(Filling(n)) == Some(State(n, Some(0), 1, Busy(n)))
  {
    hide Exec;
    if n == 0 {
      var s1 := State(0, None, 0, [Thread(Outside, false)]);
      Starts();
      Extend([], Arrive);
      assert Apply(INITIAL, Arrive) == s1 && [] + [Arrive] == [Arrive];
      Extend([Arrive], Enter(0));
      assert [Arrive] + [Enter(0)] == Filling(0);
      assert Apply(s1, Enter(0)) == State(0, Some(0), 1, Busy(0));
    } else {
      Fills(n - 1);
      var run, s := Filling(n - 1), State(n - 1, Some(0), 1, Busy(n - 1));
      Extend(run, Call(0, true));
      Extend(run + [Call(0, true)], Test(0));
      assert run + [Call(0, true)] + [Test(0)] == Filling(n);
      assert Apply(Apply(s, Call(0, true)), Test(0)).threads == Busy(n);
    }
  }

  lemma Starts()
    ensures Exec([]) == Some(INITIAL)
  {
  }

  /** Threads 0 and 1 of a full gate: the call sleeps. */
  lemma FullGateSleeps(s: State)
    requires s.count == MAX_THREADS && At(s, 0, Script) && At(s, 1, Working)
    ensures Enabled(s, Call(0, true)) && Enabled(Apply(s, Call(0, true)), Test(0))
    ensures var t := Apply(Apply(s, Call(0, true)), Test(0));
            t.count == MAX_THREADS && At(t, 0, Asleep) && At(t, 1, Working) && |t.threads| == |s.threads|
  {
  }

  /** A release and its notification wake the sleeper, which is then admitted. */
  lemma SleeperServed(s: State)
    requires s.count == MAX_THREADS && At(s, 0, Asleep) && At(s, 1, Working)
    ensures Enabled(s, Release(1)) && Enabled(Apply(s, Release(1)), Notify(1, Some(0)))
    ensures var t := Apply(Apply(s, Release(1)), Notify(1, Some(0)));
            && Enabled(t, Test(0))
            && var u := Apply(t, Test(0));
               && u.count == MAX_THREADS && At(u, 0, Script)
               && |u.threads| == |s.threads| + 1 && At(u, |s.threads|, Working)
  {
  }

  /** With all 24 slots busy one more valid call sleeps, and the first worker to finish lets it in. */
  lemma SleeperIsAdmitted()
    ensures var full := Filling(24) + [Call(0, true)] + [Test(0)];
            var served := full + [Release(1)] + [Notify(1, Some(0))] + [Test(0)];
            && Exec(full).Some? && Exec(full).value.count == 24 && At(Exec(full).value, 0, Asleep)
            && Exec(served).Some? && Exec(served).value.count == 24 && At(Exec(served).value, 0, Script)
            && |Exec(served).value.threads| == 26 && At(Exec(served).value, 25, Working)
  {
    hide Exec, Apply, Enabled, Filling;
    Fills(24);
    var run, s := Filling(24), State(24, Some(0), 1, Busy(24));
    FullGateSleeps(s);
    Extend(run, Call(0, true));
    Extend(run + [Call(0, true)], Test(0));
    var full := run + [Call(0, true)] + [Test(0)];
    SleeperServed(Exec(full).value);
    Extend(full, Release(1));
    Extend(full + [Release(1)], Notify(1, Some(0)));
    Extend(full + [Release(1)] + [Notify(1, Some(0))], Test(0));
  }
}

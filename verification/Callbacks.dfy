/**
  The request notifications: a script callback either answers at once, or returns a promise and answers later
  through IndicateCompletion. Promises are one-shot cells with reactions; the run is any sequence of steps.
 */
module Callbacks {
  import opened Options

  datatype Kind = BeginRequest | SendResponse | PreBeginRequest

  datatype Status = Continue | FinishRequest | Handled | Pending

  /** A script value, as far as the handler looks at it; a number is given by its conversion to int. */
  datatype Value = Number(toInt: int) | Promised(id: nat) | Other

  /** What a callback call leaves: nothing when it threw. */
  datatype Outcome = Threw | Returned(value: Value)

  datatype Promise = Waiting(reactions: seq<nat>) | Settled(value: Value)

  /** One notification: its kind, the answer given to the server, and the promise that decides it. */
  datatype Note = Note(kind: Kind, answer: Option<Status>, promise: Option<nat>)

  datatype Job = Job(note: nat, value: Value)
  datatype Completion = Completion(note: nat, status: Status)

  datatype State = State(
    isolate: bool,
    registered: set<Kind>,
    promises: seq<Promise>,
    notes: seq<Note>,
    active: seq<nat>,         // callbacks now on the script stack, innermost last
    jobs: seq<Job>,           // the microtask queue
    done: seq<Completion>,    // the calls of IndicateCompletion, in order
    pended: seq<nat>)         // the notifications answered with Pending, in order

  const INITIAL: State := State(false, {}, [], [], [], [], [], [])

  datatype Step =
    | Boot
    | Register(kind: Kind)
    | Reset                                   // reset_engine: the callbacks are dropped
    | CreatePromise
    | Settle(promise: nat, value: Value)      // the first settlement counts, later ones do nothing
    | Enter(kind: Kind)                       // a notification arrives
    | Leave(outcome: Outcome)                 // the innermost callback comes back
    | RunJob

  // ----- The handler -----

  /** from_v8<int>(value, 0) */
  function ToInt(v: Value): int { if v.Number? then v.toInt else 0 }

  function Decide(v: Value): Status { if ToInt(v) != 0 then FinishRequest else Continue }

  function Normalized(kind: Kind, v: Value): Status {
    if ToInt(v) != 0 then (if kind == PreBeginRequest then Handled else FinishRequest) else Continue
  }

  function Arrive(s: State, kind: Kind): State {
    var i := |s.notes|;
    if !s.isolate || kind !in s.registered then s.(notes := s.notes + [Note(kind, Some(Continue), None)])
    else s.(notes := s.notes + [Note(kind, None, None)], active := s.active + [i])
  }

  function Answer(s: State, i: nat, status: Status, promise: Option<nat>): State
    requires i < |s.notes|
  {
    s.(notes := s.notes[i := s.notes[i].(answer := Some(status), promise := promise)])
  }

  /** What the handler does with the outcome of the callback of notification i. */
  function Conclude(s: State, i: nat, outcome: Outcome): State
    requires i < |s.notes| && (outcome.Returned? && outcome.value.Promised? ==> outcome.value.id < |s.promises|)
  {
    var kind := s.notes[i].kind;
    if outcome.Threw? then Answer(s, i, Continue, None)
    else if kind == PreBeginRequest && !outcome.value.Number? then Answer(s, i, Continue, None)
    else if outcome.value.Promised? then
      var p := outcome.value.id;
      match s.promises[p]
      case Settled(v) => Answer(s, i, Decide(v), Some(p))
      case Waiting(rs) =>
        Answer(s, i, Pending, Some(p)).(promises := s.promises[p := Waiting(rs + [i])], pended := s.pended + [i])
    else Answer(s, i, Normalized(kind, outcome.value), None)
  }

  function JobsFor(rs: seq<nat>, v: Value): seq<Job> {
    seq(|rs|, k requires 0 <= k < |rs| => Job(rs[k], v))
  }

  predicate Enabled(s: State, step: Step) {
    match step
    case Settle(p, _) => p < |s.promises|
    case Leave(outcome) =>
      s.active != [] && s.active[|s.active| - 1] < |s.notes|
      && (outcome.Returned? && outcome.value.Promised? ==> outcome.value.id < |s.promises|)
    case RunJob => s.jobs != []
    case _ => true
  }

  function Apply(s: State, step: Step): State
    requires Enabled(s, step)
  {
    match step
    case Boot => s.(isolate := true)
    case Register(kind) => s.(registered := s.registered + {kind})
    case Reset => s.(registered := {})
    case CreatePromise => s.(promises := s.promises + [Waiting([])])
    case Settle(p, v) =>
      (match s.promises[p]
       case Settled(_) => s
       case Waiting(rs) => s.(promises := s.promises[p := Settled(v)], jobs := s.jobs + JobsFor(rs, v)))
    case Enter(kind) => Arrive(s, kind)
    case Leave(outcome) =>
      var k := |s.active| - 1;
      Conclude(s, s.active[k], outcome).(active := s.active[..k])
    case RunJob =>
      s.(jobs := s.jobs[1..], done := s.done + [Completion(s.jobs[0].note, Decide(s.jobs[0].value))])
  }

  function Exec(s: State, run: seq<Step>): Option<State>
    decreases |run|
  {
    if run == [] then Some(s)
    else if Enabled(s, run[0]) then Exec(Apply(s, run[0]), run[1..])
    else None
  }

  // ----- What every step keeps -----

  function JobNotes(jobs: seq<Job>): seq<nat> { seq(|jobs|, k requires 0 <= k < |jobs| => jobs[k].note) }

  function DoneNotes(done: seq<Completion>): seq<nat> { seq(|done|, k requires 0 <= k < |done| => done[k].note) }

  /** The notifications whose promise has called back: completed, then queued. */
  function Called(s: State): seq<nat> { DoneNotes(s.done) + JobNotes(s.jobs) }

  /** Those of a list that hang on promise p. */
  function On(xs: seq<nat>, notes: seq<Note>, p: nat): seq<nat> {
    if xs == [] then []
    else (if xs[0] < |notes| && notes[xs[0]].promise == Some(p) then [xs[0]] else []) + On(xs[1..], notes, p)
  }

  function Reactions(s: State, p: nat): seq<nat>
    requires p < |s.promises|
  {
    if s.promises[p].Waiting? then s.promises[p].reactions else []
  }

  /** Every Pending answer is, in order, called back or still waiting on its promise: none lost, none doubled. */
  ghost predicate Conserved(s: State) {
    forall p :: 0 <= p < |s.promises| ==> Balanced(s, p)
  }

  ghost predicate Balanced(s: State, p: nat)
    requires p < |s.promises|
  {
    On(Called(s), s.notes, p) + Reactions(s, p) == On(s.pended, s.notes, p)
  }

  predicate IsPending(s: State, i: nat) {
    i < |s.notes| && s.notes[i].answer == Some(Pending)
    && s.notes[i].promise.Some? && s.notes[i].promise.value < |s.promises|
  }

  predicate SettledTo(s: State, i: nat, v: Value) {
    && i < |s.notes| && s.notes[i].promise.Some? && s.notes[i].promise.value < |s.promises|
    && s.promises[s.notes[i].promise.value] == Settled(v)
  }

  /** The promise of notification i is settled, and its value decides for st. */
  ghost predicate Verdict(s: State, i: nat, st: Status) { exists v :: SettledTo(s, i, v) && st == Decide(v) }

  ghost predicate Listed(s: State) {
    && (forall k :: 0 <= k < |s.pended| ==> IsPending(s, s.pended[k]))
    && (forall j, k :: 0 <= j < k < |s.pended| ==> s.pended[j] != s.pended[k])
    && (forall i :: 0 <= i < |s.notes| && s.notes[i].answer == Some(Pending) ==> i in s.pended)
    && (forall k :: 0 <= k < |Called(s)| ==> Called(s)[k] in s.pended)
  }

  ghost predicate Values(s: State) {
    && (forall k :: 0 <= k < |s.jobs| ==> SettledTo(s, s.jobs[k].note, s.jobs[k].value))
    && (forall k :: 0 <= k < |s.done| ==> Verdict(s, s.done[k].note, s.done[k].status))
  }

  ghost predicate AnswerOk(s: State, i: nat)
    requires i < |s.notes|
  {
    match s.notes[i].answer
    case None => s.notes[i].promise.None?
    case Some(st) =>
      && (st == Pending ==> s.notes[i].kind != PreBeginRequest && s.notes[i].promise.Some?)
      && (st == FinishRequest ==> s.notes[i].kind != PreBeginRequest)
      && (st == Handled ==> s.notes[i].kind == PreBeginRequest)
      && (s.notes[i].promise.Some? && st != Pending ==> Verdict(s, i, st))
  }

  ghost predicate Answers(s: State) {
    forall i :: 0 <= i < |s.notes| ==> AnswerOk(s, i)
  }

  ghost predicate Stacked(s: State) {
    && (forall k :: 0 <= k < |s.active| ==> s.active[k] < |s.notes| && s.notes[s.active[k]].answer.None?)
    && (forall j, k :: 0 <= j < k < |s.active| ==> s.active[j] != s.active[k])
    && (forall i :: 0 <= i < |s.notes| && s.notes[i].answer.None? ==> i in s.active)
  }

  ghost predicate Inv(s: State) {
    Conserved(s) && Listed(s) && Values(s) && Answers(s) && Stacked(s)
  }

  lemma {:induction false} OnJoin(xs: seq<nat>, ys: seq<nat>, notes: seq<Note>, p: nat)
    ensures On(xs + ys, notes, p) == On(xs, notes, p) + On(ys, notes, p)
  {
    if xs == [] {
      assert xs + ys == ys;
    } else {
      assert (xs + ys)[1..] == xs[1..] + ys;
      OnJoin(xs[1..], ys, notes, p);
    }
  }

  /** Changing notifications that are not listed changes nothing. */
  lemma {:induction false} OnFrame(xs: seq<nat>, notes: seq<Note>, notes': seq<Note>, p: nat)
    requires forall k :: 0 <= k < |xs| ==>
      xs[k] < |notes| && xs[k] < |notes'| && notes[xs[k]].promise == notes'[xs[k]].promise
    ensures On(xs, notes, p) == On(xs, notes', p)
  {
    if xs != [] { OnFrame(xs[1..], notes, notes', p); }
  }

  lemma {:induction false} OnMembers(xs: seq<nat>, notes: seq<Note>, p: nat)
    ensures forall x :: x in On(xs, notes, p) <==> x in xs && x < |notes| && notes[x].promise == Some(p)
  {
    if xs != [] {
      OnMembers(xs[1..], notes, p);
      assert xs == [xs[0]] + xs[1..];
    }
  }

  lemma {:induction false} OnAll(xs: seq<nat>, notes: seq<Note>, p: nat)
    requires forall k :: 0 <= k < |xs| ==> xs[k] < |notes| && notes[xs[k]].promise == Some(p)
    ensures On(xs, notes, p) == xs
  {
    if xs != [] { OnAll(xs[1..], notes, p); }
  }

  lemma OnNone(xs: seq<nat>, notes: seq<Note>, p: nat)
    requires forall k :: 0 <= k < |xs| ==> xs[k] < |notes| && notes[xs[k]].promise != Some(p)
    ensures On(xs, notes, p) == []
  {
    OnMembers(xs, notes, p);
    var on := On(xs, notes, p);
    assert forall k :: 0 <= k < |on| ==> on[k] in on;
  }

  /** Everyone waiting on a promise is a Pending notification that hangs on it. */
  lemma ReactionsArePending(s: State, p: nat)
    requires Conserved(s) && Listed(s) && p < |s.promises|
    ensures forall k {:trigger Reactions(s, p)[k]} :: 0 <= k < |Reactions(s, p)| ==>
      Reactions(s, p)[k] in s.pended && IsPending(s, Reactions(s, p)[k])
      && s.notes[Reactions(s, p)[k]].promise == Some(p)
  {
    OnMembers(s.pended, s.notes, p);
    assert Balanced(s, p);
    var rs := Reactions(s, p);
    forall k | 0 <= k < |rs| ensures rs[k] in s.pended && IsPending(s, rs[k]) && s.notes[rs[k]].promise == Some(p) {
      assert (On(Called(s), s.notes, p) + rs)[|On(Called(s), s.notes, p)| + k] == rs[k];
      assert rs[k] in On(s.pended, s.notes, p);
    }
  }

  /** The innermost callback returned a promise that is still unsettled. */
  predicate Joins(s: State, outcome: Outcome) {
    && Enabled(s, Leave(outcome)) && outcome.Returned? && outcome.value.Promised?
    && s.notes[s.active[|s.active| - 1]].kind != PreBeginRequest && s.promises[outcome.value.id].Waiting?
  }

  lemma LeaveEffect(s: State, outcome: Outcome)
    requires Enabled(s, Leave(outcome))
    ensures var t, i := Apply(s, Leave(outcome)), s.active[|s.active| - 1];
            && Called(t) == Called(s) && t.jobs == s.jobs && t.done == s.done && t.active == s.active[..|s.active| - 1]
            && |t.notes| == |s.notes| && t.notes == s.notes[i := t.notes[i]] && t.notes[i].kind == s.notes[i].kind
            && t.notes[i].answer.Some?
            && (if Joins(s, outcome) then
                  var p := outcome.value.id;
                  && t.promises == s.promises[p := Waiting(s.promises[p].reactions + [i])]
                  && t.pended == s.pended + [i] && t.notes[i] == Note(s.notes[i].kind, Some(Pending), Some(p))
                else t.promises == s.promises && t.pended == s.pended && t.notes[i].answer != Some(Pending))
  {
  }

  lemma ConservedByCreate(s: State)
    requires Conserved(s) && Listed(s)
    ensures Conserved(Apply(s, CreatePromise))
  {
    var t := Apply(s, CreatePromise);
    assert Called(t) == Called(s);
    forall p | 0 <= p < |t.promises| ensures Balanced(t, p) {
      if p == |s.promises| {
        OnNone(s.pended, s.notes, p);
        OnNone(Called(s), s.notes, p);
      } else {
        assert Balanced(s, p);
      }
    }
  }

  lemma BalancedBySettle(s: State, p: nat, v: Value, q: nat)
    requires Conserved(s) && Listed(s) && p < |s.promises| && q < |s.promises| && s.promises[p].Waiting?
    ensures Balanced(Apply(s, Settle(p, v)), q)
  {
    hide Listed, Called, On;
    var rs := Reactions(s, p);
    ReactionsArePending(s, p);
    CalledBySettle(s, p, v);
    assert Balanced(s, q);
    OnJoin(Called(s), rs, s.notes, q);
    if q == p { OnAll(rs, s.notes, p); } else { OnNone(rs, s.notes, q); }
  }

  lemma CalledBySettle(s: State, p: nat, v: Value)
    requires p < |s.promises| && s.promises[p].Waiting?
    ensures Called(Apply(s, Settle(p, v))) == Called(s) + Reactions(s, p)
  {
    var t := Apply(s, Settle(p, v));
    assert JobNotes(t.jobs) == JobNotes(s.jobs) + s.promises[p].reactions;
  }

  lemma ConservedBySettle(s: State, p: nat, v: Value)
    requires Conserved(s) && Listed(s) && p < |s.promises|
    ensures Conserved(Apply(s, Settle(p, v)))
  {
    hide Listed, Balanced;
    if s.promises[p].Waiting? {
      forall q | 0 <= q < |s.promises| ensures Balanced(Apply(s, Settle(p, v)), q) { BalancedBySettle(s, p, v, q); }
    }
  }

  lemma ConservedByEnter(s: State, kind: Kind)
    requires Conserved(s) && Listed(s)
    ensures Conserved(Apply(s, Enter(kind)))
  {
    var t := Apply(s, Enter(kind));
    assert Called(t) == Called(s);
    forall p | 0 <= p < |t.promises| ensures Balanced(t, p) {
      OnFrame(Called(s), s.notes, t.notes, p);
      OnFrame(s.pended, s.notes, t.notes, p);
      assert Balanced(s, p);
    }
  }

  lemma ListedNotActive(s: State, i: nat)
    requires Listed(s) && Stacked(s) && i in s.active
    ensures forall k :: 0 <= k < |s.pended| ==> s.pended[k] < |s.notes| && s.pended[k] != i
    ensures forall k :: 0 <= k < |Called(s)| ==> Called(s)[k] < |s.notes| && Called(s)[k] != i
  {
    hide Called;
  }

  lemma BalancedByLeave(s: State, outcome: Outcome, p: nat)
    requires Conserved(s) && Listed(s) && Stacked(s) && Enabled(s, Leave(outcome)) && p < |s.promises|
    ensures var t := Apply(s, Leave(outcome)); p < |t.promises| && Balanced(t, p)
  {
    hide Listed, Stacked, Called, Apply, On, IsPending;
    var t, i := Apply(s, Leave(outcome)), s.active[|s.active| - 1];
    LeaveEffect(s, outcome);
    ListedNotActive(s, i);
    assert Balanced(s, p);
    OnFrame(Called(s), s.notes, t.notes, p);
    OnFrame(s.pended, s.notes, t.notes, p);
    if Joins(s, outcome) {
      OnJoin(s.pended, [i], t.notes, p);
      if t.notes[i].promise == Some(p) { OnAll([i], t.notes, p); } else { OnNone([i], t.notes, p); }
    }
  }

  lemma ConservedByLeave(s: State, outcome: Outcome)
    requires Conserved(s) && Listed(s) && Stacked(s) && Enabled(s, Leave(outcome))
    ensures Conserved(Apply(s, Leave(outcome)))
  {
    LeaveEffect(s, outcome);
    hide Listed, Balanced, Stacked, Apply;
    forall p | 0 <= p < |s.promises| ensures Balanced(Apply(s, Leave(outcome)), p) { BalancedByLeave(s, outcome, p); }
  }

  lemma ConservedByJob(s: State)
    requires Conserved(s) && s.jobs != []
    ensures Conserved(Apply(s, RunJob)) && Called(Apply(s, RunJob)) == Called(s)
  {
    var t := Apply(s, RunJob);
    assert DoneNotes(t.done) == DoneNotes(s.done) + [s.jobs[0].note];
    assert JobNotes(s.jobs) == [s.jobs[0].note] + JobNotes(t.jobs);
    assert Called(t) == Called(s);
    SameLists(s, t);
  }

  lemma ConservedKept(s: State, step: Step)
    requires Inv(s) && Enabled(s, step)
    ensures Conserved(Apply(s, step))
  {
    hide Conserved;
    match step {
      case CreatePromise => ConservedByCreate(s);
      case Settle(p, v) => ConservedBySettle(s, p, v);
      case Enter(kind) => ConservedByEnter(s, kind);
      case Leave(outcome) => ConservedByLeave(s, outcome);
      case RunJob => ConservedByJob(s);
      case _ => SameLists(s, Apply(s, step));
    }
  }

  lemma SameLists(s: State, t: State)
    requires Conserved(s) && s.promises == t.promises && s.notes == t.notes
             && Called(s) == Called(t) && s.pended == t.pended
    ensures Conserved(t)
  {
    hide Called;
    forall p | 0 <= p < |t.promises| ensures Balanced(t, p) { assert Balanced(s, p); }
  }

  // ----- Each part of the invariant, step by step -----

  /** What no step undoes: answers and settlements. */
  ghost predicate Grows(s: State, t: State) {
    && |s.notes| <= |t.notes| && |s.promises| <= |t.promises|
    && (forall i :: 0 <= i < |s.notes| ==>
         t.notes[i].kind == s.notes[i].kind && (s.notes[i].answer.Some? ==> t.notes[i] == s.notes[i]))
    && forall p :: 0 <= p < |s.promises| && s.promises[p].Settled? ==> t.promises[p] == s.promises[p]
  }

  lemma Grown(s: State, step: Step)
    requires Stacked(s) && Enabled(s, step)
    ensures Grows(s, Apply(s, step))
  {
    if step.Leave? { LeaveEffect(s, step.outcome); hide Apply; }
  }

  lemma SettledStays(s: State, t: State, i: nat, v: Value)
    requires Grows(s, t) && SettledTo(s, i, v) && s.notes[i].answer.Some?
    ensures SettledTo(t, i, v)
  {
  }

  lemma ListedBySettle(s: State, p: nat, v: Value)
    requires Conserved(s) && Listed(s) && p < |s.promises|
    ensures Listed(Apply(s, Settle(p, v)))
  {
    var t := Apply(s, Settle(p, v));
    if s.promises[p].Waiting? {
      ReactionsArePending(s, p);
      CalledBySettle(s, p, v);
      hide Conserved, Called;
      assert forall k :: 0 <= k < |t.pended| ==> IsPending(t, t.pended[k]);
    }
  }

  lemma ListedByEnter(s: State, kind: Kind)
    requires Listed(s)
    ensures Listed(Apply(s, Enter(kind)))
  {
    var t := Apply(s, Enter(kind));
    assert Called(t) == Called(s);
    hide Called;
  }

  lemma ListedByLeave(s: State, outcome: Outcome)
    requires Listed(s) && Stacked(s) && Enabled(s, Leave(outcome))
    ensures Listed(Apply(s, Leave(outcome)))
  {
    var t, i := Apply(s, Leave(outcome)), s.active[|s.active| - 1];
    LeaveEffect(s, outcome);
    assert i !in s.pended;
    hide Called, Apply, Stacked, Joins;
    assert forall k :: 0 <= k < |s.pended| ==> IsPending(t, s.pended[k]);
    assert t.pended == s.pended || t.pended == s.pended + [i];
  }

  lemma ListedKept(s: State, step: Step)
    requires Conserved(s) && Listed(s) && Stacked(s) && Enabled(s, step)
    ensures Listed(Apply(s, step))
  {
    hide Listed, Conserved, Stacked;
    match step {
      case Settle(p, v) => ListedBySettle(s, p, v);
      case Enter(kind) => ListedByEnter(s, kind);
      case Leave(outcome) => ListedByLeave(s, outcome);
      case RunJob => ConservedByJob(s); ListedSame(s, Apply(s, step));
      case _ => ListedSame(s, Apply(s, step));
    }
  }

  lemma ListedSame(s: State, t: State)
    requires Listed(s) && s.notes == t.notes && s.pended == t.pended
             && Called(s) == Called(t) && |s.promises| <= |t.promises|
    ensures Listed(t)
  {
    hide Called;
  }

  lemma DoneStays(s: State, t: State, k: nat)
    requires Grows(s, t) && Values(s) && Listed(s) && k < |s.done|
    ensures Verdict(t, s.done[k].note, s.done[k].status)
  {
    assert Called(s)[k] == s.done[k].note;
    var v :| SettledTo(s, s.done[k].note, v) && s.done[k].status == Decide(v);
    SettledStays(s, t, s.done[k].note, v);
  }

  lemma JobStays(s: State, t: State, k: nat)
    requires Grows(s, t) && Values(s) && Listed(s) && k < |s.jobs|
    ensures SettledTo(t, s.jobs[k].note, s.jobs[k].value)
  {
    assert Called(s)[|s.done| + k] == s.jobs[k].note;
    SettledStays(s, t, s.jobs[k].note, s.jobs[k].value);
  }

  lemma ValuesKept(s: State, step: Step)
    requires Inv(s) && Enabled(s, step)
    ensures Values(Apply(s, step))
  {
    var t := Apply(s, step);
    Grown(s, step);
    hide Conserved, Stacked, Grows, Listed, Answers, SettledTo, Verdict;
    forall k | 0 <= k < |s.done| ensures Verdict(t, s.done[k].note, s.done[k].status) { DoneStays(s, t, k); }
    forall k | 0 <= k < |s.jobs| ensures SettledTo(t, s.jobs[k].note, s.jobs[k].value) { JobStays(s, t, k); }
    match step {
      case Settle(p, v) => ValuesBySettle(s, p, v);
      case RunJob => VerdictHere(t, s.jobs[0].note, s.jobs[0].value);
      case Leave(outcome) => LeaveEffect(s, outcome);
      case _ =>
    }
  }

  lemma VerdictHere(s: State, i: nat, v: Value)
    requires SettledTo(s, i, v)
    ensures Verdict(s, i, Decide(v))
  {
  }

  lemma ValuesBySettle(s: State, p: nat, v: Value)
    requires Conserved(s) && Listed(s) && p < |s.promises|
    ensures var t := Apply(s, Settle(p, v));
            forall k :: |s.jobs| <= k < |t.jobs| ==> SettledTo(t, t.jobs[k].note, t.jobs[k].value)
  {
    ReactionsArePending(s, p);
    hide Conserved, Listed;
    var rs := Reactions(s, p);
    assert forall k :: 0 <= k < |rs| ==> s.notes[rs[k]].promise == Some(p);
  }

  lemma AnswerStays(s: State, t: State, i: nat)
    requires Grows(s, t) && i < |s.notes| && AnswerOk(s, i) && t.notes[i] == s.notes[i]
    ensures AnswerOk(t, i)
  {
    if s.notes[i].answer.Some? && s.notes[i].answer != Some(Pending) && s.notes[i].promise.Some? {
      var v :| SettledTo(s, i, v) && s.notes[i].answer.value == Decide(v);
      SettledStays(s, t, i, v);
    }
  }

  lemma AnswerNew(s: State, outcome: Outcome)
    requires Enabled(s, Leave(outcome))
    ensures AnswerOk(Apply(s, Leave(outcome)), s.active[|s.active| - 1])
  {
    var t, i := Apply(s, Leave(outcome)), s.active[|s.active| - 1];
    if t.notes[i].promise.Some? && t.notes[i].answer != Some(Pending) {
      assert SettledTo(t, i, s.promises[outcome.value.id].value);
    }
  }

  lemma AnswersKept(s: State, step: Step)
    requires Answers(s) && Stacked(s) && Enabled(s, step)
    ensures Answers(Apply(s, step))
  {
    var t := Apply(s, step);
    Grown(s, step);
    if step.Leave? { LeaveEffect(s, step.outcome); AnswerNew(s, step.outcome); }
    hide Grows, Stacked, Conclude, Called, Joins;
    forall i | 0 <= i < |t.notes| ensures AnswerOk(t, i) {
      if i < |s.notes| && t.notes[i] == s.notes[i] { hide AnswerOk; AnswerStays(s, t, i); }
    }
  }

  lemma StackedKept(s: State, step: Step)
    requires Stacked(s) && Enabled(s, step)
    ensures Stacked(Apply(s, step))
  {
    if step.Leave? { StackedByLeave(s, step.outcome); } else if step.Enter? { StackedByEnter(s, step.kind); }
  }

  lemma StackedByEnter(s: State, kind: Kind)
    requires Stacked(s)
    ensures Stacked(Apply(s, Enter(kind)))
  {
    var t, i := Apply(s, Enter(kind)), |s.notes|;
    assert t.active == s.active || t.active == s.active + [i];
  }

  lemma StackedByLeave(s: State, outcome: Outcome)
    requires Stacked(s) && Enabled(s, Leave(outcome))
    ensures Stacked(Apply(s, Leave(outcome)))
  {
    var t, i := Apply(s, Leave(outcome)), s.active[|s.active| - 1];
    LeaveEffect(s, outcome);
    hide Stacked, Apply, Joins, Called;
    assert s.active == t.active + [i];
    StackedPop(s, t, i);
  }

  lemma StackedPop(s: State, t: State, i: nat)
    requires Stacked(s) && s.active == t.active + [i] && i < |s.notes| == |t.notes| && t.notes[i].answer.Some?
    requires forall j :: 0 <= j < |s.notes| && j != i ==> t.notes[j] == s.notes[j]
    ensures Stacked(t)
  {
    forall k | 0 <= k < |t.active| ensures t.active[k] < |t.notes| && t.notes[t.active[k]].answer.None? {
      assert t.active[k] == s.active[k] != s.active[|t.active|];
    }
    forall j, k | 0 <= j < k < |t.active| ensures t.active[j] != t.active[k] {
      assert t.active[j] == s.active[j] && t.active[k] == s.active[k];
    }
    forall j | 0 <= j < |t.notes| && t.notes[j].answer.None? ensures j in t.active {
      assert j in s.active;
    }
  }

  // ----- Over every run -----

  lemma InvKept(s: State, step: Step)
    requires Inv(s) && Enabled(s, step)
    ensures Inv(Apply(s, step))
  {
    hide Conserved, Listed, Values, Answers, Stacked;
    ConservedKept(s, step);
    ListedKept(s, step);
    ValuesKept(s, step);
    AnswersKept(s, step);
    StackedKept(s, step);
  }

  lemma {:induction false} RunKeeps(s: State, run: seq<Step>)
    requires Inv(s) && Exec(s, run).Some?
    ensures Inv(Exec(s, run).value)
    decreases |run|
  {
    hide Inv;
    if run != [] {
      InvKept(s, run[0]);
      RunKeeps(Apply(s, run[0]), run[1..]);
    }
  }

  ghost predicate Reachable(s: State) { exists run :: Exec(INITIAL, run) == Some(s) }

  lemma Safety(s: State)
    requires Reachable(s)
    ensures Inv(s)
  {
    hide Inv, Exec;
    var run :| Exec(INITIAL, run) == Some(s);
    assert Inv(INITIAL) by { InitialInv(); }
    RunKeeps(INITIAL, run);
  }

  lemma InitialInv()
    ensures Inv(INITIAL)
  {
    assert Called(INITIAL) == [];
  }

  function Count(xs: seq<nat>, i: nat): nat { multiset(xs)[i] }

  lemma {:induction false} OnCount(xs: seq<nat>, notes: seq<Note>, p: nat, i: nat)
    requires i < |notes|
    ensures Count(On(xs, notes, p), i) == if notes[i].promise == Some(p) then Count(xs, i) else 0
  {
    if xs != [] {
      OnCount(xs[1..], notes, p, i);
      assert xs == [xs[0]] + xs[1..];
    }
  }

  lemma {:induction false} CountOnce(xs: seq<nat>, i: nat)
    requires forall j, k :: 0 <= j < k < |xs| ==> xs[j] != xs[k]
    ensures Count(xs, i) == if i in xs then 1 else 0
  {
    if xs != [] {
      CountOnce(xs[1..], i);
      assert xs == [xs[0]] + xs[1..];
    }
  }

  function Completions(s: State, i: nat): nat { Count(DoneNotes(s.done), i) }
  function Queued(s: State, i: nat): nat { Count(JobNotes(s.jobs), i) }

  /** How often notification i stands in the reaction list of its promise. */
  function Waits(s: State, i: nat): nat {
    if i < |s.notes| && s.notes[i].promise.Some? && s.notes[i].promise.value < |s.promises|
    then Count(Reactions(s, s.notes[i].promise.value), i) else 0
  }

  /** The three places together hold a Pending notification exactly once, and any other not at all. */
  lemma OneTicket(s: State, i: nat)
    requires Inv(s) && i < |s.notes|
    ensures Completions(s, i) + Queued(s, i) + Waits(s, i) == if s.notes[i].answer == Some(Pending) then 1 else 0
  {
    assert multiset(Called(s)) == multiset(DoneNotes(s.done)) + multiset(JobNotes(s.jobs));
    CountOnce(s.pended, i);
    if s.notes[i].answer == Some(Pending) {
      var p := s.notes[i].promise.value;
      assert IsPending(s, i) && Balanced(s, p);
      OnCount(Called(s), s.notes, p, i);
      OnCount(s.pended, s.notes, p, i);
      assert multiset(On(Called(s), s.notes, p) + Reactions(s, p))
           == multiset(On(Called(s), s.notes, p)) + multiset(Reactions(s, p));
    } else {
      NoTicket(s, i);
    }
  }

  lemma NoTicket(s: State, i: nat)
    requires Inv(s) && i < |s.notes| && s.notes[i].answer != Some(Pending)
    ensures Count(Called(s), i) == 0 && Waits(s, i) == 0
  {
    assert i !in Called(s);
    if s.notes[i].promise.Some? && s.notes[i].promise.value < |s.promises| {
      ReactionsArePending(s, s.notes[i].promise.value);
      assert i !in Reactions(s, s.notes[i].promise.value);
    }
  }

  /** Whoever was called back hangs on a settled promise. */
  lemma CalledIsSettled(s: State, i: nat)
    requires Inv(s) && i in Called(s)
    ensures i < |s.notes| && s.notes[i].promise.Some? && s.notes[i].promise.value < |s.promises|
    ensures s.promises[s.notes[i].promise.value].Settled?
  {
    hide Conserved, Listed, Answers, Stacked;
    var k :| 0 <= k < |Called(s)| && Called(s)[k] == i;
    if k < |s.done| {
      assert Verdict(s, s.done[k].note, s.done[k].status);
    } else {
      assert SettledTo(s, s.jobs[k - |s.done|].note, s.jobs[k - |s.done|].value);
    }
  }

  /**
    In every reachable state: a notification answered at once is never completed; one answered Pending is
    completed at most once, not before its promise settled, and from then on it is completed or queued.
    PRE_BEGIN_REQUEST never pends.
   */
  lemma AnsweredOnce(s: State, i: nat)
    requires Reachable(s) && i < |s.notes|
    ensures s.notes[i].answer != Some(Pending) ==> Completions(s, i) == 0
    ensures s.notes[i].answer == Some(Pending) ==>
      && s.notes[i].kind != PreBeginRequest && IsPending(s, i)
      && (s.promises[s.notes[i].promise.value].Waiting? ==> Completions(s, i) == 0)
      && (s.promises[s.notes[i].promise.value].Settled? ==> Completions(s, i) + Queued(s, i) == 1)
  {
    Safety(s);
    OneTicket(s, i);
    if s.notes[i].answer == Some(Pending) {
      PendingHangs(s, i);
      if s.promises[s.notes[i].promise.value].Waiting? && Completions(s, i) > 0 {
        assert i in DoneNotes(s.done);
        CalledIsSettled(s, i);
      }
    }
  }

  lemma PendingHangs(s: State, i: nat)
    requires Inv(s) && i < |s.notes| && s.notes[i].answer == Some(Pending)
    ensures s.notes[i].kind != PreBeginRequest && IsPending(s, i)
  {
    hide Conserved, Values, Stacked;
    assert AnswerOk(s, i) && i in s.pended;
  }

  /** Completions of notifications that share a promise come in the order in which those were answered Pending. */
  lemma CompletedInOrder(s: State, p: nat)
    requires Reachable(s) && p < |s.promises|
    ensures On(DoneNotes(s.done), s.notes, p) <= On(s.pended, s.notes, p)
  {
    Safety(s);
    assert Balanced(s, p);
    OnJoin(DoneNotes(s.done), JobNotes(s.jobs), s.notes, p);
  }

  /** The server was told st for notification i: at once, or by a completion. */
  predicate Told(s: State, i: nat, st: Status) {
    i < |s.notes| &&
    if s.notes[i].answer == Some(Pending) then Completion(i, st) in s.done else s.notes[i].answer == Some(st)
  }

  /** Whatever was told for a notification that hangs on a promise is the verdict on the promise's value. */
  lemma ToldIsVerdict(s: State, i: nat, st: Status)
    requires Inv(s) && Told(s, i, st) && s.notes[i].promise.Some?
    ensures Verdict(s, i, st)
  {
    hide Conserved, Listed, Stacked;
    if s.notes[i].answer == Some(Pending) {
      var k :| 0 <= k < |s.done| && s.done[k] == Completion(i, st);
    } else {
      assert AnswerOk(s, i);
    }
  }

  /** No two different things are ever told. */
  lemma ToldOnce(s: State, i: nat, a: Status, b: Status)
    requires Reachable(s) && Told(s, i, a) && Told(s, i, b)
    ensures a == b
  {
    Safety(s);
    hide Conserved, Listed, Stacked, Values, Answers;
    if s.notes[i].answer == Some(Pending) {
      PendingHangs(s, i);
      ToldIsVerdict(s, i, a);
      ToldIsVerdict(s, i, b);
    }
  }

  function RunJobs(n: nat): seq<Step> { seq(n, _ => RunJob) }

  lemma {:induction false} Drain(s: State)
    requires Inv(s)
    ensures var t := Exec(s, RunJobs(|s.jobs|));
            t.Some? && Inv(t.value) && t.value.jobs == [] && t.value.notes == s.notes && t.value.promises == s.promises
    decreases |s.jobs|
  {
    hide Inv;
    if s.jobs != [] {
      InvKept(s, RunJob);
      Drain(Apply(s, RunJob));
      assert RunJobs(|s.jobs|)[1..] == RunJobs(|s.jobs| - 1);
    }
  }

  /** Once the queue has run, exactly the Pending notifications whose promise settled are completed, each once. */
  lemma Drained(s: State, i: nat)
    requires Reachable(s) && i < |s.notes|
    ensures var t := Exec(s, RunJobs(|s.jobs|));
            && t.Some? && t.value.jobs == [] && t.value.notes == s.notes && t.value.promises == s.promises
            && Completions(t.value, i)
               == if IsPending(s, i) && s.promises[s.notes[i].promise.value].Settled? then 1 else 0
  {
    hide Inv, Exec, Called;
    Safety(s);
    Drain(s);
    var t := Exec(s, RunJobs(|s.jobs|)).value;
    Settlement(t, i);
  }

  lemma Settlement(t: State, i: nat)
    requires Inv(t) && t.jobs == [] && i < |t.notes|
    ensures Completions(t, i) == if IsPending(t, i) && t.promises[t.notes[i].promise.value].Settled? then 1 else 0
  {
    OneTicket(t, i);
    hide Inv;
    assert JobNotes(t.jobs) == [];
    if t.notes[i].answer == Some(Pending) {
      PendingHangs(t, i);
      if t.promises[t.notes[i].promise.value].Waiting? && i in DoneNotes(t.done) {
        CalledIsSettled(t, i);
      }
    }
  }

  /**
    It makes no difference whether a promise settles before the callback comes back with it or after: the server
    is told the same, at once in the first case and through a completion in the second.
   */
  lemma EarlyOrLate(s: State, p: nat, v: Value)
    requires Reachable(s) && Joins(s, Returned(Promised(p)))
    ensures var i, back := s.active[|s.active| - 1], Leave(Returned(Promised(p)));
            var n := |s.jobs| + |s.promises[p].reactions| + 1;
            var early, late := Exec(s, [Settle(p, v), back]), Exec(s, [back, Settle(p, v)] + RunJobs(n));
            early.Some? && late.Some? && Told(early.value, i, Decide(v)) && Told(late.value, i, Decide(v))
  {
    hide Inv, Exec, Reachable, Apply, Told, RunJobs;
    var i, back := s.active[|s.active| - 1], Leave(Returned(Promised(p)));
    Early(s, p, v);
    Safety(s);
    JoinThenSettle(s, p, v);
    InvKept(s, back);
    InvKept(Apply(s, back), Settle(p, v));
    var s2 := Apply(Apply(s, back), Settle(p, v));
    Late(s2, i, v);
    ExecTwo(s, back, Settle(p, v), RunJobs(|s2.jobs|));
  }

  lemma ExecTwo(s: State, a: Step, b: Step, rest: seq<Step>)
    requires Enabled(s, a) && Enabled(Apply(s, a), b)
    ensures Exec(s, [a, b] + rest) == Exec(Apply(Apply(s, a), b), rest)
  {
    hide Apply, Enabled;
    var run := [a, b] + rest;
    assert run[1..] == [b] + rest && run[1..][1..] == rest;
  }

  lemma JoinThenSettle(s: State, p: nat, v: Value)
    requires Joins(s, Returned(Promised(p)))
    ensures var i, back := s.active[|s.active| - 1], Leave(Returned(Promised(p)));
            && Enabled(s, back) && Enabled(Apply(s, back), Settle(p, v))
            && var t := Apply(Apply(s, back), Settle(p, v));
               IsPending(t, i) && SettledTo(t, i, v) && |t.jobs| == |s.jobs| + |s.promises[p].reactions| + 1
  {
    LeaveEffect(s, Returned(Promised(p)));
  }

  lemma Early(s: State, p: nat, v: Value)
    requires Joins(s, Returned(Promised(p)))
    ensures var i, back := s.active[|s.active| - 1], Leave(Returned(Promised(p)));
            var early := Exec(s, [Settle(p, v), back]);
            early.Some? && Told(early.value, i, Decide(v))
  {
    var back := Leave(Returned(Promised(p)));
    assert [Settle(p, v), back][1..] == [back];
    var s1 := Apply(s, Settle(p, v));
    assert Exec(s1, [back]) == Exec(Apply(s1, back), []);
  }

  lemma Late(s: State, i: nat, v: Value)
    requires Inv(s) && IsPending(s, i) && SettledTo(s, i, v)
    ensures var t := Exec(s, RunJobs(|s.jobs|)); t.Some? && Told(t.value, i, Decide(v))
  {
    hide Inv, Exec;
    Drain(s);
    var t := Exec(s, RunJobs(|s.jobs|)).value;
    Settlement(t, i);
    assert i in DoneNotes(t.done);
    var k :| 0 <= k < |t.done| && t.done[k].note == i;
    ToldIsVerdict(t, i, t.done[k].status);
  }

  /** A value returned directly is told as a promise settled to it would be, in the terms of the notification's kind. */
  lemma DirectValue(s: State, v: Value)
    requires Enabled(s, Leave(Returned(v))) && !v.Promised?
    ensures var i := s.active[|s.active| - 1];
            Told(Apply(s, Leave(Returned(v))), i,
                 if s.notes[i].kind == PreBeginRequest && Decide(v) == FinishRequest then Handled else Decide(v))
  {
  }

  /** The server gets global statuses for PRE_BEGIN_REQUEST and request statuses for the others. */
  lemma StatusFitsKind(s: State, i: nat, st: Status)
    requires Reachable(s) && Told(s, i, st)
    ensures if s.notes[i].kind == PreBeginRequest then st == Continue || st == Handled
            else st == Continue || st == FinishRequest
  {
    Safety(s);
    hide Conserved, Listed, Stacked, Values;
    assert AnswerOk(s, i);
    if s.notes[i].answer == Some(Pending) {
      ToldIsVerdict(s, i, st);
    }
  }

  // ----- The answers outright, and that the steps are there -----

  /** What each outcome of the innermost callback makes the server hear, in plain statuses. */
  lemma AnswerTable(s: State, outcome: Outcome)
    requires Enabled(s, Leave(outcome))
    ensures var t, i := Apply(s, Leave(outcome)), s.active[|s.active| - 1];
            var first := s.notes[i].kind == PreBeginRequest;
            match outcome
            case Threw => Told(t, i, Continue)
            case Returned(Other) => Told(t, i, Continue)
            case Returned(Number(k)) =>
              Told(t, i, if k == 0 then Continue else if first then Handled else FinishRequest)
            case Returned(Promised(p)) =>
              if first then Told(t, i, Continue)
              else
                match s.promises[p]
                case Settled(Number(k)) => Told(t, i, if k == 0 then Continue else FinishRequest)
                case Settled(_) => Told(t, i, Continue)
                case Waiting(rs) => t.notes[i].answer == Some(Pending) && t.promises[p] == Waiting(rs + [i])
  {
  }

  /** A promise that is settled to a number, before or after it was returned, finishes the request unless that is 0. */
  lemma PromiseTable(s: State, p: nat, v: Value)
    requires Reachable(s) && Joins(s, Returned(Promised(p)))
    ensures var i, back := s.active[|s.active| - 1], Leave(Returned(Promised(p)));
            var n := |s.jobs| + |s.promises[p].reactions| + 1;
            var early, late := Exec(s, [Settle(p, v), back]), Exec(s, [back, Settle(p, v)] + RunJobs(n));
            var st := if v.Number? && v.toInt != 0 then FinishRequest else Continue;
            early.Some? && late.Some? && Told(early.value, i, st) && Told(late.value, i, st)
  {
    hide Exec, Reachable, Joins, RunJobs, Told;
    EarlyOrLate(s, p, v);
  }

  /** Every completion ever indicated says what the settled value of its promise says. */
  lemma CompletionTable(s: State, j: nat)
    requires Reachable(s) && j < |s.done|
    ensures var i := s.done[j].note;
            && IsPending(s, i)
            && match s.promises[s.notes[i].promise.value]
               case Waiting(_) => false
               case Settled(Number(k)) => s.done[j].status == if k == 0 then Continue else FinishRequest
               case Settled(_) => s.done[j].status == Continue
  {
    Safety(s);
    assert Called(s)[j] == s.done[j].note && Called(s)[j] in s.pended;
    assert Verdict(s, s.done[j].note, s.done[j].status);
  }

  /** A notification without an engine or a callback continues at once; otherwise its callback runs. */
  lemma ArrivalTable(s: State, kind: Kind)
    ensures var t, i := Apply(s, Enter(kind)), |s.notes|;
            if s.isolate && kind in s.registered
            then t.active == s.active + [i] && t.notes[i].answer.None?
            else t.active == s.active && Told(t, i, Continue)
    ensures Told(Apply(Apply(s, Reset), Enter(kind)), |s.notes|, Continue)
    ensures var t := Apply(Apply(Apply(s, Boot), Register(kind)), Enter(kind)); t.active == s.active + [|s.notes|]
  {
  }

  /** In every reachable state every step that makes sense can be made. */
  lemma Available(s: State, kind: Kind, p: nat, v: Value, outcome: Outcome)
    requires Reachable(s)
    ensures Enabled(s, Boot) && Enabled(s, Register(kind)) && Enabled(s, Reset) && Enabled(s, CreatePromise)
    ensures Enabled(s, Enter(kind)) && (p < |s.promises| ==> Enabled(s, Settle(p, v)))
    ensures s.active != [] && (outcome.Returned? && outcome.value.Promised? ==> outcome.value.id < |s.promises|) ==>
      Enabled(s, Leave(outcome))
    ensures s.jobs != [] ==> Enabled(s, RunJob)
  {
    Safety(s);
  }

  /** The microtask queue is first in, first out. */
  lemma QueueIsFifo(s: State, step: Step)
    requires Enabled(s, step)
    ensures var t := Apply(s, step);
            if step.RunJob?
            then t.jobs == s.jobs[1..] && |t.done| == |s.done| + 1 && t.done[|s.done|].note == s.jobs[0].note
            else s.jobs <= t.jobs && t.done == s.done
  {
    if step.Leave? { LeaveEffect(s, step.outcome); }
  }

  lemma ExecStep(s: State, step: Step, rest: seq<Step>, t: State)
    requires Enabled(s, step) && Apply(s, step) == t
    ensures Exec(s, [step] + rest) == Exec(t, rest)
  {
    assert ([step] + rest)[1..] == rest;
  }

  /** A whole run: a pending answer, its settlement, and the completion. */
  const SAMPLE_END: seq<Step> := [Leave(Returned(Promised(0)))] + ([Settle(0, Number(1))] + ([RunJob] + []))
  const SAMPLE: seq<Step> :=
    [Boot] + ([Register(BeginRequest)] + ([CreatePromise] + ([Enter(BeginRequest)] + SAMPLE_END)))

  const READY: State := State(true, {BeginRequest}, [Waiting([])], [], [], [], [], [])
  const CALLED: State := READY.(notes := [Note(BeginRequest, None, None)], active := [0])
  const PENDED: State :=
    State(true, {BeginRequest}, [Waiting([0])], [Note(BeginRequest, Some(Pending), Some(0))], [], [], [], [0])
  const SETTLED: State := PENDED.(promises := [Settled(Number(1))], jobs := [Job(0, Number(1))])
  const DONE: State := SETTLED.(jobs := [], done := [Completion(0, FinishRequest)])

  lemma SampleCall()
    ensures Apply(READY, Enter(BeginRequest)) == CALLED
  {
  }

  lemma SamplePend()
    ensures Enabled(CALLED, Leave(Returned(Promised(0)))) && Apply(CALLED, Leave(Returned(Promised(0)))) == PENDED
  {
    assert [] + [0] == [0] && [0][..0] == [];
    assert CALLED.promises[0 := Waiting([0])] == PENDED.promises;
    assert CALLED.notes[0 := Note(BeginRequest, Some(Pending), Some(0))] == PENDED.notes;
  }

  lemma SampleSettle()
    ensures Enabled(PENDED, Settle(0, Number(1))) && Apply(PENDED, Settle(0, Number(1))) == SETTLED
  {
    assert JobsFor([0], Number(1)) == [Job(0, Number(1))];
  }

  lemma SampleJob()
    ensures Enabled(SETTLED, RunJob) && Apply(SETTLED, RunJob) == DONE
  {
  }

  lemma SampleStart()
    ensures Exec(INITIAL, SAMPLE) == Exec(CALLED, SAMPLE_END)
  {
    hide Exec;
    var s0 := INITIAL.(isolate := true);
    var s1 := s0.(registered := {BeginRequest});
    SampleCall();
    var r3 := [Enter(BeginRequest)] + SAMPLE_END;
    ExecStep(READY, Enter(BeginRequest), SAMPLE_END, CALLED);
    ExecStep(s1, CreatePromise, r3, READY);
    ExecStep(s0, Register(BeginRequest), [CreatePromise] + r3, s1);
    ExecStep(INITIAL, Boot, [Register(BeginRequest)] + ([CreatePromise] + r3), s0);
  }

  lemma SampleRun()
    ensures Exec(INITIAL, SAMPLE).Some?
    ensures var s := Exec(INITIAL, SAMPLE).value;
            s.notes == [Note(BeginRequest, Some(Pending), Some(0))] && s.done == [Completion(0, FinishRequest)]
  {
    hide Exec, Apply, Enabled;
    SampleStart();
    SamplePend();
    SampleSettle();
    SampleJob();
    ExecStep(CALLED, Leave(Returned(Promised(0))), [Settle(0, Number(1))] + ([RunJob] + []), PENDED);
    ExecStep(PENDED, Settle(0, Number(1)), [RunJob] + [], SETTLED);
    ExecStep(SETTLED, RunJob, [], DONE);
    ExecEmpty(DONE);
  }

  lemma ExecEmpty(s: State)
    ensures Exec(s, []) == Some(s)
  {
  }
}

/**
  External-memory accounting: a native object is charged to the engine when its script handle is made, and
  uncharged and freed when the handle is collected.
 */
module Accounting {
  import opened Options

  /** The native sizes the charges are made of. */
  datatype Sizes = Sizes(db: nat, ipc: nat, status: nat, header: nat)

  datatype Native =
    | Fetch(body: nat, version: nat, headers: nat)   // the string capacities and the number of headers
    | Db
    | Ipc

  datatype Handle = Handle(native: Native, pointer: nat, live: bool)

  /** The engine's counter, the handles ever made, and the native objects deleted, in order. */
  datatype State = State(counter: int, handles: seq<Handle>, freed: seq<nat>)

  datatype Step =
    | Create(native: Native)
    | Collect(handle: nat)

  function Capacity(z: Sizes, n: Native): nat {
    match n
    case Fetch(body, version, headers) => body + version + z.status + z.header * headers
    case Db => z.db
    case Ipc => z.ipc
  }

  /** A handle is collected while it is alive, and never again: its persistent reference is reset. */
  predicate Enabled(s: State, step: Step) {
    step.Collect? ==> step.handle < |s.handles| && s.handles[step.handle].live
  }

  function Apply(z: Sizes, s: State, step: Step): State
    requires Enabled(s, step)
  {
    match step
    case Create(n) =>
      State(s.counter + Capacity(z, n), s.handles + [Handle(n, |s.handles|, true)], s.freed)
    case Collect(h) =>
      State(s.counter - Capacity(z, s.handles[h].native), s.handles[h := s.handles[h].(live := false)],
            s.freed + [s.handles[h].pointer])
  }

  /** What a creation charges and a collection pays back, kind by kind. */
  lemma Charges(z: Sizes, s: State, body: nat, version: nat, headers: nat, h: nat)
    ensures Apply(z, s, Create(Db)).counter == s.counter + z.db
    ensures Apply(z, s, Create(Ipc)).counter == s.counter + z.ipc
    ensures Apply(z, s, Create(Fetch(body, version, headers))).counter
         == s.counter + body + version + z.status + z.header * headers
    ensures h < |s.handles| && s.handles[h].live ==>
      Apply(z, s, Collect(h)).counter == s.counter - match s.handles[h].native
        case Db => z.db
        case Ipc => z.ipc
        case Fetch(b, v, n) => b + v + z.status + z.header * n
  {
  }

  function Exec(z: Sizes, s: State, run: seq<Step>): Option<State>
    decreases |run|
  {
    if run == [] then Some(s) else if Enabled(s, run[0]) then Exec(z, Apply(z, s, run[0]), run[1..]) else None
  }

  /** The sum charged for live handles. */
  function Charged(z: Sizes, hs: seq<Handle>): nat {
    if hs == [] then 0
    else Charged(z, hs[..|hs| - 1]) + if hs[|hs| - 1].live then Capacity(z, hs[|hs| - 1].native) else 0
  }

  lemma {:induction false} ChargedLess(z: Sizes, hs: seq<Handle>, h: nat)
    requires h < |hs| && hs[h].live
    ensures Charged(z, hs[h := hs[h].(live := false)]) == Charged(z, hs) - Capacity(z, hs[h].native)
  {
    var n, hs' := |hs| - 1, hs[h := hs[h].(live := false)];
    if h < n {
      ChargedLess(z, hs[..n], h);
      assert hs'[..n] == hs[..n][h := hs[h].(live := false)];
    } else {
      assert hs'[..n] == hs[..n];
    }
  }

  ghost predicate Inv(z: Sizes, baseline: int, s: State) {
    && s.counter == baseline + Charged(z, s.handles)
    && (forall h :: 0 <= h < |s.handles| ==> s.handles[h].pointer == h)
    && (forall x :: x in s.freed ==> x < |s.handles| && !s.handles[x].live)
    && (forall h :: 0 <= h < |s.handles| && !s.handles[h].live ==> h in s.freed)
    && (forall j, k :: 0 <= j < k < |s.freed| ==> s.freed[j] != s.freed[k])
  }

  lemma InvKept(z: Sizes, baseline: int, s: State, step: Step)
    requires Inv(z, baseline, s) && Enabled(s, step)
    ensures Inv(z, baseline, Apply(z, s, step))
  {
    if step.Create? {
      assert Apply(z, s, step).handles[..|s.handles|] == s.handles;
    } else {
      ChargedLess(z, s.handles, step.handle);
    }
  }

  /**
    After any interleaving of creations and collections the counter is the baseline plus the charges of the live
    handles; a native object has been freed exactly when its handle was collected, and exactly once.
   */
  lemma {:induction false} Conservation(z: Sizes, baseline: int, s: State, run: seq<Step>)
    requires Inv(z, baseline, s) && Exec(z, s, run).Some?
    ensures Inv(z, baseline, Exec(z, s, run).value)
    decreases |run|
  {
    if run != [] {
      InvKept(z, baseline, s, run[0]);
      Conservation(z, baseline, Apply(z, s, run[0]), run[1..]);
    }
  }

  lemma {:induction false} NoneCharged(z: Sizes, hs: seq<Handle>)
    requires forall h :: 0 <= h < |hs| ==> !hs[h].live
    ensures Charged(z, hs) == 0
  {
    if hs != [] { NoneCharged(z, hs[..|hs| - 1]); }
  }

  lemma {:induction false} FreedCount(freed: seq<nat>, x: nat)
    requires forall j, k :: 0 <= j < k < |freed| ==> freed[j] != freed[k]
    ensures multiset(freed)[x] == if x in freed then 1 else 0
  {
    if freed != [] {
      FreedCount(freed[1..], x);
      assert freed == [freed[0]] + freed[1..];
    }
  }

  /** Seen from the start: what is charged, what was freed how often, and that collecting everything pays all back. */
  lemma Accounted(z: Sizes, baseline: int, run: seq<Step>)
    requires Exec(z, State(baseline, [], []), run).Some?
    ensures var s := Exec(z, State(baseline, [], []), run).value;
            && s.counter == baseline + Charged(z, s.handles) >= baseline
            && (forall h :: 0 <= h < |s.handles| ==>
                 multiset(s.freed)[s.handles[h].pointer] == if s.handles[h].live then 0 else 1)
            && ((forall h :: 0 <= h < |s.handles| ==> !s.handles[h].live) ==> s.counter == baseline)
  {
    Conservation(z, baseline, State(baseline, [], []), run);
    var s := Exec(z, State(baseline, [], []), run).value;
    forall h | 0 <= h < |s.handles|
      ensures multiset(s.freed)[s.handles[h].pointer] == if s.handles[h].live then 0 else 1
    {
      FreedCount(s.freed, h);
    }
    if forall h :: 0 <= h < |s.handles| ==> !s.handles[h].live { NoneCharged(z, s.handles); }
  }
}

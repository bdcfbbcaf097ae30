/**
  What buffered block processing computes, on byte strings: a machine eats whole blocks, and a stream
  hands it its input in pieces of any size.  Splitting the input never matters.
 */
module Streams {

  /** A block machine: each block changes the state and yields a block; `hold` blocks are kept back while streaming. */
  datatype Machine<!S> = Machine(step: (S, seq<bv8>) -> (S, seq<bv8>), block: nat, hold: nat)

  /** Eats all whole blocks of the input and ignores an incomplete last one. */
  function Run<S>(m: Machine<S>, s: S, input: seq<bv8>): (S, seq<bv8>)
    requires m.block > 0
    decreases |input|
  {
    if |input| < m.block then (s, [])
    else
      var r := m.step(s, input[..m.block]);
      var rest := Run(m, r.0, input[m.block..]);
      (rest.0, r.1 + rest.1)
  }

  /** How many bytes the held-back blocks make. */
  function Held<S>(m: Machine<S>): nat { m.hold * m.block }

  /** How many of n buffered bytes are processed now. */
  function Ready<S>(m: Machine<S>, n: nat): nat
    requires m.block > 0
  {
    if n / m.block <= m.hold then 0 else (n / m.block - m.hold) * m.block
  }

  /** n is a whole number of d-byte blocks. */
  predicate Whole(d: nat, n: nat)
    requires d > 0
  {
    n == 0 || (n >= d && Whole(d, n - d))
  }

  lemma ReadyFits<S>(m: Machine<S>, n: nat)
    requires m.block > 0
    ensures Ready(m, n) <= n && Whole(m.block, Ready(m, n))
    ensures Ready(m, n) > 0 ==> n - Ready(m, n) >= Held(m)
    ensures m.hold == 0 ==> n - Ready(m, n) < m.block
  {
    var q := n / m.block;
    assert n == q * m.block + n % m.block;
    if q > m.hold {
      var k := q - m.hold;
      assert k * m.block == q * m.block - m.hold * m.block;
      WholeMultiple(m.block, k);
    }
  }

  /** One append: the new state, what stays in the buffer, and what comes out. */
  datatype Fed<S> = Fed(state: S, rest: seq<bv8>, out: seq<bv8>)

  function Drain<S>(m: Machine<S>, s: S, all: seq<bv8>): Fed<S>
    requires m.block > 0
  {
    ReadyFits(m, |all|);
    var r := Run(m, s, all[..Ready(m, |all|)]);
    Fed(r.0, all[Ready(m, |all|)..], r.1)
  }

  function Feed<S>(m: Machine<S>, s: S, rest: seq<bv8>, chunk: seq<bv8>): Fed<S>
    requires m.block > 0
  {
    Drain(m, s, rest + chunk)
  }

  /** A whole stream of appends. */
  function FeedAll<S>(m: Machine<S>, s: S, rest: seq<bv8>, chunks: seq<seq<bv8>>): Fed<S>
    requires m.block > 0
    decreases |chunks|
  {
    if chunks == [] then Fed(s, rest, [])
    else
      var first := Feed(m, s, rest, chunks[0]);
      var more := FeedAll(m, first.state, first.rest, chunks[1..]);
      more.(out := first.out + more.out)
  }

  function Flatten(chunks: seq<seq<bv8>>): seq<bv8> {
    if chunks == [] then [] else chunks[0] + Flatten(chunks[1..])
  }

  // ----- Whole numbers of blocks -----

  lemma {:induction false} WholeMultiple(d: nat, k: nat)
    requires d > 0
    ensures Whole(d, k * d)
  {
    if k > 0 {
      assert k * d == (k - 1) * d + d;
      WholeMultiple(d, k - 1);
    }
  }

  /** For the block sizes in use, a multiple is what the remainder says. */
  lemma {:induction false} WholeMod(d: nat, n: nat)
    requires d == 16 || d == 64
    ensures Whole(d, n) <==> n % d == 0
    decreases n
  {
    if n >= d {
      WholeMod(d, n - d);
      if d == 16 { assert n % 16 == (n - 16) % 16; } else { assert n % 64 == (n - 64) % 64; }
    }
  }

  lemma {:induction false} WholeSum(d: nat, a: nat, b: nat)
    requires d > 0 && Whole(d, a)
    ensures Whole(d, a + b) <==> Whole(d, b)
    decreases a
  {
    if a > 0 { WholeSum(d, a - d, b); }
  }

  lemma MulMono(a: nat, b: nat, d: nat)
    requires a <= b
    ensures a * d <= b * d
  {
    assert (b - a) * d >= 0;
  }

  lemma DivUnique(n: nat, d: nat, q: nat)
    requires d > 0 && q * d <= n < q * d + d
    ensures n / d == q
  {
    var p := n / d;
    assert p * d <= n < p * d + d;
    if p < q { MulMono(p + 1, q, d); }
    if q < p { MulMono(q + 1, p, d); }
  }

  /** A whole number of blocks is its own rounding up. */
  lemma {:induction false} WholeCeil(d: nat, n: nat)
    requires d > 0 && Whole(d, n)
    ensures ((n + d - 1) / d) * d == n
  {
    var q := WholeQuotient(d, n);
    DivUnique(n + d - 1, d, q);
  }

  lemma {:induction false} WholeQuotient(d: nat, n: nat) returns (q: nat)
    requires d > 0 && Whole(d, n)
    ensures q * d == n
    decreases n
  {
    q := 0;
    if n > 0 {
      var p := WholeQuotient(d, n - d);
      q := p + 1;
      assert q * d == p * d + d;
    }
  }

  // ----- Splitting the input of a machine -----

  lemma {:induction false} RunSplit<S>(m: Machine<S>, s: S, a: seq<bv8>, b: seq<bv8>)
    requires m.block > 0 && Whole(m.block, |a|)
    ensures var r := Run(m, s, a);
            var t := Run(m, r.0, b);
            Run(m, s, a + b) == (t.0, r.1 + t.1)
    decreases |a|
  {
    if a == [] {
      assert a + b == b;
      assert [] + Run(m, s, b).1 == Run(m, s, b).1;
    } else {
      var head, tail := a[..m.block], a[m.block..];
      assert (a + b)[..m.block] == head && (a + b)[m.block..] == tail + b;
      var r := m.step(s, head);
      RunSplit(m, r.0, tail, b);
      var u := Run(m, r.0, tail);
      assert r.1 + (u.1 + Run(m, u.0, b).1) == (r.1 + u.1) + Run(m, u.0, b).1;
    }
  }

  lemma RunNone<S>(m: Machine<S>, s: S)
    requires m.block > 0
    ensures Run(m, s, []) == (s, []) && Whole(m.block, 0)
  {
  }

  lemma RunOne<S>(m: Machine<S>, s: S, block: seq<bv8>)
    requires m.block > 0 && |block| == m.block
    ensures Run(m, s, block) == m.step(s, block)
  {
    var r := m.step(s, block);
    assert block[..m.block] == block && block[m.block..] == [];
    assert r.1 + [] == r.1;
  }

  lemma CutTwice(all: seq<bv8>, more: seq<bv8>, r: nat, j: nat)
    requires r <= |all| && j <= |all[r..] + more|
    ensures (all + more)[..r + j] == all[..r] + (all[r..] + more)[..j]
    ensures (all + more)[r + j..] == (all[r..] + more)[j..]
  {
    assert all + more == all[..r] + (all[r..] + more);
  }

  /** A stream has processed a prefix of whole blocks, and holds the rest. */
  lemma {:induction false} FeedAllIsRun<S>(m: Machine<S>, s: S, rest: seq<bv8>, chunks: seq<seq<bv8>>) returns (k: nat)
    requires m.block > 0
    ensures var total := rest + Flatten(chunks);
            var fed := FeedAll(m, s, rest, chunks);
            && k <= |total| && Whole(m.block, k)
            && Run(m, s, total[..k]) == (fed.state, fed.out)
            && fed.rest == total[k..]
            && (k > 0 ==> |fed.rest| >= Held(m))
    decreases |chunks|
  {
    hide Run, Whole, Ready, Held;
    var total := rest + Flatten(chunks);
    if chunks == [] {
      k := 0;
      assert total == rest;
      RunNone(m, s);
    } else {
      var all := rest + chunks[0];
      var first := Feed(m, s, rest, chunks[0]);
      var r := Ready(m, |all|);
      ReadyFits(m, |all|);
      var j := FeedAllIsRun(m, first.state, first.rest, chunks[1..]);
      k := r + j;
      var total1 := first.rest + Flatten(chunks[1..]);
      assert total == all + Flatten(chunks[1..]);
      CutTwice(all, Flatten(chunks[1..]), r, j);
      WholeSum(m.block, r, j);
      RunSplit(m, s, all[..r], total1[..j]);
    }
  }

  /** Streaming equals one shot: whatever tail closes the stream, the pieces do not matter. */
  lemma StreamThenTail<S>(m: Machine<S>, s: S, chunks: seq<seq<bv8>>, tail: seq<bv8>)
    requires m.block > 0
    ensures var fed := FeedAll(m, s, [], chunks);
            var last := Run(m, fed.state, fed.rest + tail);
            Run(m, s, Flatten(chunks) + tail) == (last.0, fed.out + last.1)
  {
    hide Run, Whole, FeedAll, Flatten;
    var k := FeedAllIsRun(m, s, [], chunks);
    var total := [] + Flatten(chunks);
    var fed := FeedAll(m, s, [], chunks);
    assert Flatten(chunks) + tail == total[..k] + (fed.rest + tail);
    RunSplit(m, s, total[..k], fed.rest + tail);
  }

  lemma {:induction false} FlattenPush(chunks: seq<seq<bv8>>, k: nat)
    requires k < |chunks|
    ensures Flatten(chunks[..k + 1]) == Flatten(chunks[..k]) + chunks[k]
  {
    if k == 0 {
      assert chunks[..1] == [chunks[0]] && Flatten([chunks[0]]) == chunks[0] + Flatten([]);
    } else {
      FlattenPush(chunks[1..], k - 1);
      assert chunks[..k + 1][1..] == chunks[1..][..k] && chunks[..k][1..] == chunks[1..][..k - 1];
    }
  }
}

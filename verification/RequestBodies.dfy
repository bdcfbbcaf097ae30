/** Request bodies: read in partial reads of the server's choosing, and put back for the next reader if asked. */
module RequestBodies {
  import opened Numbers

  const BUFFER_SIZE: nat := 4096

  /** The server's answer to one ReadEntityBody: a failure, or as many bytes as it likes up to what fits and is left. */
  datatype Reply = Fail | Give(count: nat)

  /** What the caller gets; Thrown when a read, the allocation or the rewriting failed. */
  datatype Outcome = Null | Text(bytes: seq<bv8>) | Thrown

  /** One call of read, with what the server does about it; past the replies it gives all it can. */
  datatype Call = Call(rewrite: bool, replies: seq<Reply>, granted: bool, inserted: bool)

  function Given(r: Reply, left: nat): (g: nat)
    ensures g <= BUFFER_SIZE && g <= left
    ensures r.Give? && r.count <= BUFFER_SIZE && r.count <= left ==> g == r.count
  {
    if r.Fail? then 0 else Min(r.count, Min(BUFFER_SIZE, left))
  }

  /** How many of n bytes are left unread when the reading stops: 0, unless some read yields nothing. */
  function Unread(replies: seq<Reply>, n: nat): (left: nat)
    ensures left <= n
  {
    if n == 0 || replies == [] then 0
    else if Given(replies[0], n) == 0 then n
    else Unread(replies[1..], n - Given(replies[0], n))
  }

  predicate Legal(replies: seq<Reply>) {
    forall k :: 0 <= k < |replies| ==> replies[k].Give? && 1 <= replies[k].count <= BUFFER_SIZE
  }

  lemma LegalMeans(r: Reply)
    ensures Legal([r]) <==> r.Give? && 1 <= r.count <= 4096
  {
    assert [r][0] == r;
  }

  lemma {:induction false} LegalReadsAll(replies: seq<Reply>, n: nat)
    requires Legal(replies)
    ensures Unread(replies, n) == 0
  {
    if n > 0 && replies != [] { LegalReadsAll(replies[1..], n - Given(replies[0], n)); }
  }

  predicate Throws(body: seq<bv8>, c: Call) {
    body != [] && (Unread(c.replies, |body|) > 0 || (c.rewrite && !(c.granted && c.inserted)))
  }

  /** The body that is left after a call. */
  function Left(body: seq<bv8>, c: Call): seq<bv8> {
    var k := Unread(c.replies, |body|);
    if body != [] && k == 0 && c.rewrite && c.granted && c.inserted then body else body[|body| - k..]
  }

  function Result(body: seq<bv8>, c: Call): Outcome {
    if body == [] then Null else if Throws(body, c) then Thrown else Text(body)
  }

  /** The bytes that legal replies bring. */
  function Total(replies: seq<Reply>): nat
    requires Legal(replies)
  {
    if replies == [] then 0 else replies[0].count + Total(replies[1..])
  }

  lemma {:induction false} UnreadAfter(replies: seq<Reply>, k: nat, n: nat)
    requires k < |replies| && Legal(replies[..k]) && Total(replies[..k]) < n
    requires replies[k].Fail? || replies[k].count == 0
    ensures Unread(replies, n) == n - Total(replies[..k])
  {
    if k > 0 {
      assert replies[..k][0] == replies[0] && replies[..k][1..] == replies[1..][..k - 1];
      UnreadAfter(replies[1..], k - 1, n - replies[0].count);
    }
  }

  /** A read that yields nothing throws: what was read before is lost, the rest stays. */
  lemma FailedRead(body: seq<bv8>, c: Call, k: nat)
    requires k < |c.replies| && Legal(c.replies[..k]) && Total(c.replies[..k]) < |body|
    requires c.replies[k].Fail? || c.replies[k].count == 0
    ensures Result(body, c) == Thrown && Left(body, c) == body[Total(c.replies[..k])..]
  {
    UnreadAfter(c.replies, k, |body|);
  }

  /** A refused allocation or a failed insertion throws, and the body is gone. */
  lemma FailedRewrite(body: seq<bv8>, c: Call)
    requires body != [] && Legal(c.replies) && c.rewrite && !(c.granted && c.inserted)
    ensures Result(body, c) == Thrown && Left(body, c) == []
  {
    LegalReadsAll(c.replies, |body|);
  }

  /** Otherwise legal replies return the body, which stays exactly when it is rewritten. */
  lemma GoodRead(body: seq<bv8>, c: Call)
    requires body != [] && Legal(c.replies) && (c.rewrite ==> c.granted && c.inserted)
    ensures Result(body, c) == Text(body) && Left(body, c) == if c.rewrite then body else []
  {
    LegalReadsAll(c.replies, |body|);
  }

  class Request {
    var body: seq<bv8>      // the entity bytes not read yet

    method Read(c: Call) returns (r: Outcome)
      modifies this
      ensures r == Result(old(body), c) && body == Left(old(body), c)
    {
      if |body| == 0 { return Null; }
      var bytes: seq<bv8> := [];
      var replies := c.replies;
      var remaining := |body|;
      while remaining != 0
        invariant remaining == |body| && bytes + body == old(body)
        invariant Unread(replies, |body|) == Unread(c.replies, |old(body)|)
        decreases remaining
      {
        var count := if replies == [] then Min(BUFFER_SIZE, |body|) else Given(replies[0], |body|);
        if replies != [] && count == 0 { return Thrown; }
        bytes := bytes + body[..count];
        body := body[count..];
        replies := if replies == [] then [] else replies[1..];
        remaining := |body|;
      }
      if c.rewrite {
        if !c.granted || !c.inserted { return Thrown; }
        body := bytes + body;
      }
      return Text(bytes);
    }
  }

  // ----- Over every run of reads -----

  function BodyAfter(body: seq<bv8>, calls: seq<Call>): seq<bv8>
    decreases |calls|
  {
    if calls == [] then body else BodyAfter(Left(body, calls[0]), calls[1..])
  }

  /** The outcome of the last call of a run. */
  function LastOutcome(body: seq<bv8>, calls: seq<Call>): Outcome
    requires calls != []
  {
    Result(BodyAfter(body, calls[..|calls| - 1]), calls[|calls| - 1])
  }

  predicate Obliging(c: Call) { Legal(c.replies) && c.granted && c.inserted }

  predicate AllRewrite(calls: seq<Call>) { forall k :: 0 <= k < |calls| ==> calls[k].rewrite }

  lemma {:induction false} ObligingBody(body: seq<bv8>, calls: seq<Call>)
    requires forall k :: 0 <= k < |calls| ==> Obliging(calls[k])
    ensures BodyAfter(body, calls) == if AllRewrite(calls) then body else []
    decreases |calls|
  {
    if calls != [] {
      LegalReadsAll(calls[0].replies, |body|);
      ObligingBody(Left(body, calls[0]), calls[1..]);
      assert AllRewrite(calls) <==> calls[0].rewrite && AllRewrite(calls[1..]) by {
        assert forall k :: 1 <= k < |calls| ==> calls[k] == calls[1..][k - 1];
      }
    }
  }

  /** However the reads are cut: every read returns the whole body until the first that does not rewrite, then null. */
  lemma RepeatedReads(body: seq<bv8>, calls: seq<Call>)
    requires calls != [] && forall k :: 0 <= k < |calls| ==> Obliging(calls[k])
    ensures LastOutcome(body, calls) == if body != [] && AllRewrite(calls[..|calls| - 1]) then Text(body) else Null
  {
    var n := |calls| - 1;
    ObligingBody(body, calls[..n]);
    var left := BodyAfter(body, calls[..n]);
    LegalReadsAll(calls[n].replies, |left|);
  }

  predicate IsSuffix(a: seq<bv8>, b: seq<bv8>) { |a| <= |b| && a == b[|b| - |a|..] }

  /** Whatever fails, no byte is ever changed, doubled or moved: what is left and what is returned ends the body. */
  lemma {:induction false} OnlySuffixes(body: seq<bv8>, calls: seq<Call>)
    ensures IsSuffix(BodyAfter(body, calls), body)
    ensures calls != [] && LastOutcome(body, calls).Text? ==> IsSuffix(LastOutcome(body, calls).bytes, body)
    decreases |calls|
  {
    if calls != [] {
      var n := |calls| - 1;
      OnlySuffixes(body, calls[..n]);
      AfterLast(body, calls);
      var left := BodyAfter(body, calls[..n]);
      assert IsSuffix(Left(left, calls[n]), left);
    }
  }

  lemma {:induction false} AfterLast(body: seq<bv8>, calls: seq<Call>)
    requires calls != []
    ensures BodyAfter(body, calls) == Left(BodyAfter(body, calls[..|calls| - 1]), calls[|calls| - 1])
    decreases |calls|
  {
    if |calls| > 1 {
      AfterLast(Left(body, calls[0]), calls[1..]);
      assert calls[..|calls| - 1][1..] == calls[1..][..|calls| - 2];
    } else {
      assert calls == [calls[0]];
    }
  }
}

/** BufferedBlockAlgorithm: the buffer that hashers and ciphers share, and its in-place block loop. */
module BufferedBlocks {
  import opened Words
  import opened WordArrays
  import opened Streams

  /** The byte-level machine of a word-level block step. */
  function ByteMachine<S>(step: (S, seq<bv32>) -> (S, seq<bv32>), blockSize: nat, hold: nat): (m: Machine<S>)
    ensures m.block == 4 * blockSize && m.hold == hold
  {
    Machine((s: S, b: seq<bv8>) => var r := step(s, Pack(b)); (r.0, Unpack(r.1)), 4 * blockSize, hold)
  }

  /** A block step takes a block to a block. */
  ghost predicate Sized<S(!new)>(step: (S, seq<bv32>) -> (S, seq<bv32>), blockSize: nat) {
    blockSize > 0 && forall s: S, b: seq<bv32> :: |b| == blockSize ==> |step(s, b).1| == blockSize
  }

  /** Words g .. g + n of an array, read as 0 past its end. */
  function Slice(ws: seq<bv32>, g: nat, n: nat): (r: seq<bv32>)
    ensures |r| == n
  {
    seq(n, k requires 0 <= k < n => Word(ws, g + k))
  }

  class Buffered<S(!new)> {
    const step: (S, seq<bv32>) -> (S, seq<bv32>)
    const blockSize: nat
    const minBufferSize: nat
    var data: WordArray
    var nDataBytes: nat
    var state: S

    ghost predicate Valid() { Sized(step, blockSize) }

    function M(): Machine<S> { ByteMachine(step, blockSize, minBufferSize) }

    constructor (step: (S, seq<bv32>) -> (S, seq<bv32>), blockSize: nat, minBufferSize: nat, state: S)
      requires Sized(step, blockSize)
      ensures Valid() && this.step == step && this.blockSize == blockSize && this.minBufferSize == minBufferSize
      ensures fresh(data) && data.Value() == [] && data.IsClean() && nDataBytes == 0 && this.state == state
    {
      this.step, this.blockSize, this.minBufferSize, this.state := step, blockSize, minBufferSize, state;
      data := new WordArray([], 0);
      nDataBytes := 0;
    }

    method Append(a: WordArray)
      requires a != data
      modifies this`nDataBytes, data
      ensures data.Value() == old(data.Value()) + a.Value() && nDataBytes == old(nDataBytes) + a.sigBytes
      ensures a.IsClean() ==> data.IsClean()
    {
      data.Concat(a);
      nDataBytes := nDataBytes + a.sigBytes;
    }

    /** Runs the block step over the first n blocks of the buffer, in place. */
    method Sweep(n: nat)
      requires Valid()
      modifies this`state, data`words
      ensures |data.words| == if |old(data.words)| < n * blockSize then n * blockSize else |old(data.words)|
      ensures forall j: nat :: n * blockSize <= j ==> Word(data.words, j) == Word(old(data.words), j)
      ensures (state, Unpack(data.words[..n * blockSize]))
           == Run(M(), old(state), Bytes(old(data.words), 4 * (n * blockSize)))
    {
      hide Run, Bytes, Slice, ByteMachine, Whole;
      var e := blockSize;
      ghost var w0 := data.words;
      SweepNone(step, e, minBufferSize, state, w0);
      var k, g := 0, 0;
      while k < n
        invariant k <= n && g == k * e && Whole(4 * e, 4 * g)
        invariant |data.words| == if |w0| < g then g else |w0|
        invariant forall j: nat :: g <= j ==> Word(data.words, j) == Word(w0, j)
        invariant (state, Unpack(data.words[..g])) == Run(M(), old(state), Bytes(w0, 4 * g))
      {
        ghost var before, s := data.words, state;
        SliceAgrees(before, w0, g, e);
        SweepOne(step, e, minBufferSize, old(state), w0, g, before[..g], s);
        var r := step(state, Slice(data.words, g, e));
        state := r.0;
        data.words := Overwrite(data.words, g, r.1);
        assert data.words[..g + e] == before[..g] + r.1;
        assert (k + 1) * e == k * e + e;
        k, g := k + 1, g + e;
      }
    }

    /** Processes what is ready (or, when flushing, everything) in place, and cuts it off the buffer. */
    method Process(flush: bool) returns (out: WordArray)
      requires Valid()
      modifies this`state, data
      ensures fresh(out)
      ensures !flush ==> Fed(state, data.Value(), out.Value()) == Drain(M(), old(state), old(data.Value()))
      ensures flush ==> data.Value() == []
      ensures flush ==>
                var r := Run(M(), old(state), Flushed(old(data.words), old(data.sigBytes), 4 * blockSize));
                state == r.0 && Unpack(out.words) == r.1 && out.sigBytes == old(data.sigBytes) <= |r.1|
                && out.Value() == r.1[..old(data.sigBytes)]
      ensures Whole(4 * blockSize, old(data.sigBytes)) || old(data.IsClean()) ==>
                Flushed(old(data.words), old(data.sigBytes), 4 * blockSize) == Filled(old(data.Value()), 4 * blockSize)
      ensures old(data.IsClean()) ==> data.IsClean()
    {
      hide Run, Bytes, ByteMachine, Whole, Clean, Unpack;
      var e, b := blockSize, data.sigBytes;
      var n := BlockCount(flush, b, 4 * e, minBufferSize);
      var a := n * e;
      var taken := if 4 * a < b then 4 * a else b;
      ghost var w0 := data.words;
      Sweep(n);
      FlushedFilled(w0, b, e);
      if flush {
        FlushCount(b, e);
        CutAll(w0, data.words, a, b);
      } else {
        CountFits(M(), b, e);
        Cut(w0, data.words, a, b);
      }
      out := new WordArray(data.words[..a], taken);
      data.words := data.words[a..];
      data.sigBytes := b - taken;
    }
  }

  /** ceil of b / d when flushing, else floor minus what is held back, but not below 0 */
  function BlockCount(flush: bool, b: nat, d: nat, hold: nat): nat
    requires d > 0
  {
    if flush then (b + d - 1) / d else if b / d <= hold then 0 else b / d - hold
  }

  /** Zero bytes up to a whole number of d-byte blocks. */
  function Filled(bs: seq<bv8>, d: nat): seq<bv8>
    requires d > 0
  {
    var n := BlockCount(true, |bs|, d, 0) * d;
    if n < |bs| then bs else bs + seq(n - |bs|, _ => 0 as bv8)
  }

  /** Filling adds zeros only, fewer than a block of them, up to whole blocks. */
  lemma FilledIsLeast(bs: seq<bv8>, d: nat)
    requires d > 0
    ensures var f := Filled(bs, d);
            && |bs| <= |f| < |bs| + d && Whole(d, |f|)
            && f[..|bs|] == bs && forall i :: |bs| <= i < |f| ==> f[i] == 0
  {
    hide Whole;
    var x, n := |bs| + d - 1, BlockCount(true, |bs|, d, 0);
    assert x == (x / d) * d + x % d;
    CeilCovers(|bs|, d);
    WholeMultiple(d, n);
  }

  /** The bytes that flushing n buffered bytes feeds: the incomplete block is completed with whatever follows. */
  function Flushed(words: seq<bv32>, n: nat, d: nat): seq<bv8>
    requires d > 0
  {
    Bytes(words, BlockCount(true, n, d, 0) * d)
  }

  /** What follows is zeros in a clamped buffer, and nothing in a whole one. */
  lemma FlushedFilled(words: seq<bv32>, n: nat, e: nat)
    requires e > 0
    ensures Whole(4 * e, n) || Clean(words, n) ==> Flushed(words, n, 4 * e) == Filled(Bytes(words, n), 4 * e)
  {
    hide Bytes, Whole;
    var a := BlockCount(true, n, 4 * e, 0) * e;
    FlushCount(n, e);
    ZeroFill(words, a, n);
  }

  lemma ZeroFill(words: seq<bv32>, a: nat, n: nat)
    requires 4 * a >= n
    ensures Clean(words, n) || 4 * a == n ==> Bytes(words, 4 * a) == Bytes(words, n) + seq(4 * a - n, _ => 0 as bv8)
  {
    hide ByteAt;
    if Clean(words, n) { CleanPast(words, n); }
  }

  lemma CountFits<S>(m: Machine<S>, b: nat, e: nat)
    requires e > 0 && m.block == 4 * e
    ensures var a := BlockCount(false, b, 4 * e, m.hold) * e; 4 * a <= b && 4 * a == Ready(m, b)
  {
    var n := BlockCount(false, b, 4 * e, m.hold);
    assert n * (4 * e) == 4 * (n * e);
    ReadyFits(m, b);
  }

  lemma FlushCount(b: nat, e: nat)
    requires e > 0
    ensures var a := BlockCount(true, b, 4 * e, 0) * e;
            4 * a >= b && 4 * a == BlockCount(true, b, 4 * e, 0) * (4 * e) && (Whole(4 * e, b) ==> 4 * a == b)
  {
    var n := BlockCount(true, b, 4 * e, 0);
    assert n * (4 * e) == 4 * (n * e);
    CeilCovers(b, 4 * e);
    if Whole(4 * e, b) { WholeCeil(4 * e, b); }
  }

  lemma CeilCovers(b: nat, d: nat)
    requires d > 0
    ensures ((b + d - 1) / d) * d >= b
  {
    var x := b + d - 1;
    assert x == (x / d) * d + x % d;
  }

  lemma FilledWhole(bs: seq<bv8>, d: nat)
    requires d > 0 && Whole(d, |bs|)
    ensures Filled(bs, d) == bs
  {
    WholeCeil(d, |bs|);
  }

  /** Cutting 4 * a processed bytes off the front of a buffer of b bytes. */
  lemma Cut(w0: seq<bv32>, w: seq<bv32>, a: nat, b: nat)
    requires 4 * a <= b && (|w| == if |w0| < a then a else |w0|)
             && forall j: nat :: a <= j ==> Word(w, j) == Word(w0, j)
    ensures Bytes(w[..a], 4 * a) == Unpack(w[..a])
    ensures Bytes(w0, b)[..4 * a] == Bytes(w0, 4 * a)
    ensures Bytes(w[a..], b - 4 * a) == Bytes(w0, b)[4 * a..]
    ensures Clean(w0, b) ==> Clean(w[a..], b - 4 * a)
  {
    hide ByteOf;
    forall i: nat ensures ByteAt(w[a..], i) == ByteAt(w0, 4 * a + i) {
      assert (4 * a + i) / 4 == a + i / 4;
      assert Word(w[a..], i / 4) == Word(w, a + i / 4);
    }
  }

  /** Taking everything: the last block is filled up with zero bytes. */
  lemma CutAll(w0: seq<bv32>, w: seq<bv32>, a: nat, b: nat)
    requires 4 * a >= b && |w| == if |w0| < a then a else |w0|
    ensures Clean(w0, b) ==> Clean(w[a..], 0)
    ensures Bytes(w[..a], b) == Unpack(w[..a])[..b]
    ensures Bytes(w[a..], 0) == [] && |Unpack(w[..a])| == 4 * a
  {
    hide ByteAt;
  }

  function Overwrite(ws: seq<bv32>, g: nat, block: seq<bv32>): (r: seq<bv32>)
    requires g <= |ws|
    ensures |r| == if |ws| < g + |block| then g + |block| else |ws|
    ensures r[..g + |block|] == ws[..g] + block
    ensures forall j: nat :: g + |block| <= j ==> Word(r, j) == Word(ws, j)
  {
    ws[..g] + block + if g + |block| < |ws| then ws[g + |block|..] else []
  }

  lemma SliceAgrees(v: seq<bv32>, w: seq<bv32>, g: nat, n: nat)
    requires forall j: nat :: g <= j ==> Word(v, j) == Word(w, j)
    ensures Slice(v, g, n) == Slice(w, g, n)
  {
  }

  lemma SweepNone<S(!new)>(step: (S, seq<bv32>) -> (S, seq<bv32>), e: nat, hold: nat, s: S, w0: seq<bv32>)
    requires e > 0
    ensures (s, Unpack(w0[..0])) == Run(ByteMachine(step, e, hold), s, Bytes(w0, 4 * 0)) && Whole(4 * e, 4 * 0)
  {
  }

  /** One more block at word level is one more block of the byte machine. */
  lemma SweepOne<S(!new)>(step: (S, seq<bv32>) -> (S, seq<bv32>), e: nat, hold: nat, s0: S,
                           w0: seq<bv32>, g: nat, done: seq<bv32>, s: S)
    requires Sized(step, e) && Whole(4 * e, 4 * g)
    requires (s, Unpack(done)) == Run(ByteMachine(step, e, hold), s0, Bytes(w0, 4 * g))
    ensures var r := step(s, Slice(w0, g, e));
            && (r.0, Unpack(done + r.1)) == Run(ByteMachine(step, e, hold), s0, Bytes(w0, 4 * (g + e)))
            && Whole(4 * e, 4 * (g + e))
  {
    var m := ByteMachine(step, e, hold);
    var block := Slice(w0, g, e);
    var r := step(s, block);
    BytesOfSlice(w0, g, e);
    PackOfUnpack(block);
    RunSplit(m, s0, Bytes(w0, 4 * g), Unpack(block));
    RunOne(m, s, Unpack(block));
    UnpackJoin(done, r.1);
  }

  lemma BytesOfSlice(ws: seq<bv32>, g: nat, n: nat)
    ensures Bytes(ws, 4 * (g + n)) == Bytes(ws, 4 * g) + Unpack(Slice(ws, g, n))
  {
    hide ByteOf;
    var slice := Slice(ws, g, n);
    forall i: nat | i < 4 * n ensures ByteAt(ws, 4 * g + i) == ByteAt(slice, i) {
      assert (4 * g + i) / 4 == g + i / 4;
    }
    JoinedBytes(ws, ws, 4 * g, slice, 4 * n);
    assert 4 * g + 4 * n == 4 * (g + n);
  }

  lemma UnpackJoin(v: seq<bv32>, w: seq<bv32>)
    ensures Unpack(v + w) == Unpack(v) + Unpack(w)
  {
    BytesOfSlice(v + w, |v|, |w|);
    assert forall k :: 0 <= k < |w| ==> Word(v + w, |v| + k) == w[k];
    assert Slice(v + w, |v|, |w|) == w;
    forall i: nat | i < 4 * |v| ensures ByteAt(v + w, i) == ByteAt(v, i) {}
    BytesAgree(v + w, v, 4 * |v|);
  }
}

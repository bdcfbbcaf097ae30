/** The WordArray object: words changed in place, of which the first sigBytes bytes count. */
module WordArrays {
  import opened Words

  /** Above this many words, concat copies word by word instead of pushing them all at once. */
  const PUSH_LIMIT: nat := 65535

  class WordArray {
    var words: seq<bv32>
    var sigBytes: nat

    function Value(): seq<bv8>
      reads this
    {
      Bytes(words, sigBytes)
    }

    ghost predicate IsClean()
      reads this
    {
      Clean(words, sigBytes)
    }

    constructor (words: seq<bv32>, sigBytes: nat)
      ensures this.words == words && this.sigBytes == sigBytes
    {
      this.words, this.sigBytes := words, sigBytes;
    }

    /** Zeroes everything after the last byte and fixes the array's length. */
    method Clamp()
      modifies this`words
      ensures Value() == old(Value()) && IsClean()
    {
      hide ByteOf, And, KeepMask, Bytes, Put;
      var c := sigBytes;
      ghost var before := words;
      var masked := Put(words, c / 4, And(Word(words, c / 4), KeepMask(c % 4)));
      words := masked[..(c + 3) / 4];   // words.length = ceil(c / 4), after the store made room
      forall i: nat | i < 4 * |words| ensures ByteAt(words, i) == if i < c then ByteAt(before, i) else 0 {
        assert Word(words, i / 4) == Word(masked, i / 4);
        ByteOfKeep(Word(before, c / 4), c % 4, i % 4);
      }
      BytesAgree(before, words, c);
    }

    /**
      Appends the bytes of `a`, which may be this very object, on all three paths: merging byte by byte
      after an unaligned end, copying many words, and pushing few words.
     */
    method Concat(a: WordArray)
      modifies this
      ensures Value() == old(Value()) + old(a.Value())
      ensures old(a.IsClean()) ==> IsClean()
      ensures sigBytes == old(sigBytes) + old(a.sigBytes)
    {
      hide Bytes, ByteAt, Clean;
      var b, n := sigBytes, a.sigBytes;
      Clamp();
      ghost var c, d := words, a.words;   // equal when a is this object
      if b % 4 != 0 {
        MergeBytes(a, b, n);
      } else {
        ClampedLength(c, b);
        if old(a.IsClean()) { ClampedLength(d, n); }
        if PUSH_LIMIT < |a.words| {
          CopyWords(a, b, n);
        } else {
          words := words + a.words;
        }
        JoinAligned(words, c, b, d, n);
      }
      sigBytes := b + n;
      JoinedBytes(words, c, b, d, n);
    }

    /** The unaligned path: c[b + e >>> 2] |= byte e of d, for every e. */
    method MergeBytes(a: WordArray, b: nat, n: nat)
      requires b == sigBytes && n == a.sigBytes && IsClean()
      modifies this`words
      ensures Clean(words, b + n)
      ensures forall i: nat :: i < b ==> ByteAt(words, i) == old(ByteAt(words, i))
      ensures forall i: nat :: i < n ==> ByteAt(words, b + i) == old(ByteAt(a.words, i))
    {
      hide ByteOf, Merge, Put;
      ghost var d := a.words;
      CleanPast(words, b);
      var e := 0;
      while e < n
        invariant e <= n && |words| == (b + e + 3) / 4
        invariant forall i: nat :: i < b ==> ByteAt(words, i) == old(ByteAt(words, i))
        invariant forall i: nat :: i < e ==> ByteAt(words, b + i) == ByteAt(d, i)
        invariant forall i: nat :: b + e <= i ==> ByteAt(words, i) == 0
        invariant a != this ==> a.words == d
      {
        ghost var before := words;
        var byte := ByteAt(a.words, e);
        words := Merge(words, b + e, byte);
        forall i: nat ensures ByteAt(words, i) == if i == b + e then byte else ByteAt(before, i) {
          ByteAtMerge(before, b + e, byte, i);
          assert ByteAt(before, b + e) | byte == byte;
        }
        MergeLength(before, b + e, byte);
        e := e + 1;
      }
    }

    /** The aligned path for long arguments: c[b + e >>> 2] = d[e >>> 2], for every fourth e. */
    method CopyWords(a: WordArray, b: nat, n: nat)
      requires b == sigBytes && n == a.sigBytes && IsClean() && b % 4 == 0
      modifies this`words
      ensures |words| == (b + n + 3) / 4
      ensures forall j: nat :: j < b / 4 ==> Word(words, j) == old(Word(words, j))
      ensures forall j: nat :: 4 * j < n ==> Word(words, b / 4 + j) == old(Word(a.words, j))
    {
      hide Put;
      ghost var d := a.words;
      var e := 0;
      while e < n
        invariant e % 4 == 0 && e <= n + 3 && |words| == b / 4 + e / 4
        invariant forall j: nat :: j < b / 4 ==> Word(words, j) == old(Word(words, j))
        invariant forall j: nat :: j < e / 4 ==> Word(words, b / 4 + j) == Word(d, j)
        invariant a != this ==> a.words == d
      {
        words := Put(words, (b + e) / 4, Word(a.words, e / 4));
        e := e + 4;
      }
    }
  }

  lemma CleanPast(ws: seq<bv32>, n: nat)
    requires Clean(ws, n)
    ensures forall i: nat :: n <= i ==> ByteAt(ws, i) == 0
  {
    hide ByteAt;
    forall i: nat | n <= i ensures ByteAt(ws, i) == 0 {
      if 4 * |ws| <= i { ByteAtPast(ws, i); }
    }
  }

  lemma ClampedLength(ws: seq<bv32>, n: nat)
    requires Clean(ws, n)
    ensures |ws| == (n + 3) / 4
  {
  }

  /** Word-aligned joining is joining of bytes. */
  lemma JoinAligned(ws: seq<bv32>, c: seq<bv32>, b: nat, d: seq<bv32>, n: nat)
    requires b % 4 == 0
    requires forall j: nat :: j < b / 4 ==> Word(ws, j) == Word(c, j)
    requires forall j: nat :: 4 * j < n ==> Word(ws, b / 4 + j) == Word(d, j)
    ensures forall i: nat :: i < b ==> ByteAt(ws, i) == ByteAt(c, i)
    ensures forall i: nat :: i < n ==> ByteAt(ws, b + i) == ByteAt(d, i)
    ensures Clean(d, n) && |ws| == (b + n + 3) / 4 ==> Clean(ws, b + n)
  {
    hide ByteOf;
    forall i: nat | i < n ensures ByteAt(ws, b + i) == ByteAt(d, i) {
      assert (b + i) / 4 == b / 4 + i / 4;
    }
    if Clean(d, n) && |ws| == (b + n + 3) / 4 {
      forall i | b + n <= i < 4 * |ws| ensures ByteAt(ws, i) == 0 {
        assert i / 4 == b / 4 + (i - b) / 4;
        assert ByteAt(ws, i) == ByteAt(d, i - b);
      }
    }
  }

  lemma JoinedBytes(ws: seq<bv32>, c: seq<bv32>, b: nat, d: seq<bv32>, n: nat)
    requires forall i: nat :: i < b ==> ByteAt(ws, i) == ByteAt(c, i)
    requires forall i: nat :: i < n ==> ByteAt(ws, b + i) == ByteAt(d, i)
    ensures Bytes(ws, b + n) == Bytes(c, b) + Bytes(d, n)
  {
    hide ByteAt;
    BytesJoin(ws, Bytes(c, b), Bytes(d, n));
  }

  lemma MergeLength(ws: seq<bv32>, p: nat, b: bv8)
    requires |ws| == (p + 3) / 4
    ensures |Merge(ws, p, b)| == (p + 4) / 4
  {
  }

  /** The values of several arrays. */
  ghost function Values(chunks: seq<WordArray>): (vs: seq<seq<bv8>>)
    reads set i | 0 <= i < |chunks| :: chunks[i]
    ensures |vs| == |chunks|
  {
    seq(|chunks|, i requires 0 <= i < |chunks| reads set j | 0 <= j < |chunks| :: chunks[j] => chunks[i].Value())
  }
}

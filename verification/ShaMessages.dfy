/** Runs of blocks: the script's block steps on unreduced numbers are the standard's compression function, folded. */
module ShaMessages {
  import opened Words
  import opened Streams
  import opened BufferedBlocks
  import opened Hashers
  import opened Sha

  function Ints(ws: seq<bv32>): (m: seq<int>)
    ensures |m| == |ws|
  {
    seq(|ws|, i requires 0 <= i < |ws| => Unsigned(ws[i]))
  }

  /** Numbers that stand for the given words; the script's are signed, or longer than 32 bits for the length. */
  ghost predicate StandFor(c: seq<int>, ws: seq<bv32>) {
    |c| == |ws| && forall i :: 0 <= i < |c| ==> U32(c[i]) == Unsigned(ws[i])
  }

  // ----- A block function looks at sixteen words, modulo 2^32 -----

  ghost predicate SameBlock(m: seq<int>, n: seq<int>) {
    forall i: nat :: i < 16 ==> U32(At(m, i)) == U32(At(n, i))
  }

  lemma {:induction false} SameSchedule256(m: seq<int>, n: seq<int>, t: nat)
    requires SameBlock(m, n)
    ensures Schedule256(m, t) == Schedule256(n, t)
  {
    hide U32, FipsSmall0, FipsSmall1, At;
    if t >= 16 {
      SameSchedule256(m, n, t - 2);
      SameSchedule256(m, n, t - 7);
      SameSchedule256(m, n, t - 15);
      SameSchedule256(m, n, t - 16);
    }
  }

  lemma {:induction false} SameRounds256(r: Regs256, k: seq<int>, m: seq<int>, n: seq<int>, t: nat)
    requires SameBlock(m, n)
    ensures Rounds256(r, k, m, t) == Rounds256(r, k, n, t)
  {
    hide U32, Round256, Schedule256, SameBlock, At;
    if t > 0 {
      SameRounds256(r, k, m, n, t - 1);
      SameSchedule256(m, n, t - 1);
    }
  }

  lemma {:induction false} SameSchedule1(m: seq<int>, n: seq<int>, t: nat)
    requires SameBlock(m, n)
    ensures Schedule1(m, t) == Schedule1(n, t)
  {
    hide U32, FipsXor4, FipsRotL1, At;
    if t >= 16 {
      SameSchedule1(m, n, t - 3);
      SameSchedule1(m, n, t - 8);
      SameSchedule1(m, n, t - 14);
      SameSchedule1(m, n, t - 16);
    }
  }

  lemma {:induction false} SameRounds1(r: Regs1, m: seq<int>, n: seq<int>, t: nat)
    requires SameBlock(m, n)
    ensures Rounds1(r, m, t) == Rounds1(r, n, t)
  {
    hide U32, Round1, Schedule1, SameBlock, At;
    if t > 0 {
      SameRounds1(r, m, n, t - 1);
      SameSchedule1(m, n, t - 1);
    }
  }

  lemma BlockStands(c: seq<int>, ws: seq<bv32>, d: nat)
    requires StandFor(c, ws) && d + 16 <= |ws|
    ensures SameBlock(c[d..], Ints(ws[d..d + 16]))
  {
    hide Unsigned;
    forall i: nat | i < 16 ensures U32(At(c[d..], i)) == U32(At(Ints(ws[d..d + 16]), i)) {
      assert At(c[d..], i) == c[d + i] && At(Ints(ws[d..d + 16]), i) == Unsigned(ws[d + i]);
    }
  }

  // ----- The standard's hash functions -----

  ghost function Fips256(k: seq<int>, iv: Regs256): Algo<Regs256> {
    Algo(iv, (s: Regs256, m: seq<bv32>) => Block256(k, s, Ints(m)),
         (s: Regs256) => [Bits(s.a), Bits(s.b), Bits(s.c), Bits(s.d), Bits(s.e), Bits(s.f), Bits(s.g), Bits(s.h)])
  }

  ghost function Fips1(iv: Regs1): Algo<Regs1> {
    Algo(iv, (s: Regs1, m: seq<bv32>) => Block1(s, Ints(m)),
         (s: Regs1) => [Bits(s.a), Bits(s.b), Bits(s.c), Bits(s.d), Bits(s.e)])
  }

  /** One more block. */
  lemma AbsorbNext<S>(algo: Algo<S>, s: S, ws: seq<bv32>, d: nat)
    requires d % 16 == 0 && d + 16 <= |ws|
    ensures Absorb(algo, s, Unpack(ws[..d + 16])) == algo.compress(Absorb(algo, s, Unpack(ws[..d])), ws[d..d + 16])
  {
    hide Absorb, Unpack, Pack;
    var a, b := ws[..d], ws[d..d + 16];
    assert ws[..d + 16] == a + b;
    UnpackJoin(a, b);
    UnpackLength(a);
    UnpackLength(b);
    WholeMod(BLOCK_BYTES, 4 * d);
    AbsorbSplit(algo, s, Unpack(a), Unpack(b));
    AbsorbOne(algo, Absorb(algo, s, Unpack(a)), Unpack(b));
    PackOfUnpack(b);
  }

  lemma AbsorbOne<S>(algo: Algo<S>, s: S, b: seq<bv8>)
    requires |b| == BLOCK_BYTES
    ensures Absorb(algo, s, b) == algo.compress(s, Pack(b))
  {
    assert b[..BLOCK_BYTES] == b;
  }

  /** All blocks of SHA-256, one after the other, on the hash words in place. */
  method Blocks256(round: int -> int, k: seq<int>, hash: array<int>, c: seq<int>, a: array<int>,
                   ghost ws: seq<bv32>, ghost iv: Regs256)
    requires Rounding(round) && |k| == 64 && (forall i :: 0 <= i < 64 ==> IsInt32(k[i]))
    requires hash.Length == 8 && a.Length >= 64 && hash != a && StandFor(c, ws) && |c| % 16 == 0
    requires forall i :: 0 <= i < 8 ==> Within(hash[i], 2)
    modifies hash, a
    ensures forall i :: 0 <= i < 8 ==> Within(hash[i], 2)
    ensures Reduce256(Regs(hash[..])) == Absorb(Fips256(k, iv), Reduce256(Regs(old(hash[..]))), Unpack(ws))
  {
    hide Absorb, Unpack, Block256, Reduce256, StandFor, Rounding;
    ghost var start := Reduce256(Regs(hash[..]));
    ghost var algo := Fips256(k, iv);
    assert Absorb(algo, start, Unpack(ws[..0])) == start by { AbsorbNone(algo, start); }
    StandsAsLong(c, ws);
    var d := 0;
    while d < |c|
      invariant d <= |c| && d % 16 == 0
      invariant forall i :: 0 <= i < 8 ==> Within(hash[i], 2)
      invariant Reduce256(Regs(hash[..])) == Absorb(algo, start, Unpack(ws[..d]))
    {
      ghost var before := Reduce256(Regs(hash[..]));
      ProcessBlock256(round, k, hash, c, d, a);
      BlockStands(c, ws, d);
      SameBlock256(before, k, c[d..], Ints(ws[d..d + 16]));
      AbsorbNext(algo, start, ws, d);
      d := d + 16;
    }
    assert ws[..|ws|] == ws;
  }

  function Regs5(h: seq<int>): Regs1
    requires |h| == 5
  {
    Regs1(h[0], h[1], h[2], h[3], h[4])
  }

  /** The same for SHA-1. */
  method Blocks1(round: int -> int, hash: array<int>, c: seq<int>, w: array<int>,
                 ghost ws: seq<bv32>, ghost iv: Regs1)
    requires Rounding(round) && hash.Length == 5 && w.Length >= 80 && hash != w && StandFor(c, ws) && |c| % 16 == 0
    requires forall i :: 0 <= i < 5 ==> Within(hash[i], 2)
    modifies hash, w
    ensures forall i :: 0 <= i < 5 ==> Within(hash[i], 2)
    ensures Reduce1(Regs5(hash[..])) == Absorb(Fips1(iv), Reduce1(Regs5(old(hash[..]))), Unpack(ws))
  {
    hide Absorb, Unpack, Block1, Reduce1, StandFor, Rounding;
    ghost var start := Reduce1(Regs5(hash[..]));
    ghost var algo := Fips1(iv);
    assert Absorb(algo, start, Unpack(ws[..0])) == start by { AbsorbNone(algo, start); }
    StandsAsLong(c, ws);
    var d := 0;
    while d < |c|
      invariant d <= |c| && d % 16 == 0
      invariant forall i :: 0 <= i < 5 ==> Within(hash[i], 2)
      invariant Reduce1(Regs5(hash[..])) == Absorb(algo, start, Unpack(ws[..d]))
    {
      ghost var before := Reduce1(Regs5(hash[..]));
      ProcessBlock1(round, hash, c, d, w);
      BlockStands(c, ws, d);
      SameBlock1(before, c[d..], Ints(ws[d..d + 16]));
      AbsorbNext(algo, start, ws, d);
      d := d + 16;
    }
    assert ws[..|ws|] == ws;
  }

  lemma StandsAsLong(c: seq<int>, ws: seq<bv32>)
    requires StandFor(c, ws)
    ensures |c| == |ws|
  {
  }

  lemma SameBlock1(h: Regs1, m: seq<int>, n: seq<int>)
    requires SameBlock(m, n)
    ensures Block1(h, m) == Block1(h, n)
  {
    hide SameBlock, Rounds1;
    SameRounds1(h, m, n, 80);
  }

  lemma AbsorbNone<S>(algo: Algo<S>, s: S)
    ensures Absorb(algo, s, Unpack([])) == s
  {
  }

  lemma SameBlock256(h: Regs256, k: seq<int>, m: seq<int>, n: seq<int>)
    requires SameBlock(m, n)
    ensures Block256(k, h, m) == Block256(k, h, n)
  {
    hide SameBlock, Rounds256;
    SameRounds256(h, k, m, n, 64);
  }
}

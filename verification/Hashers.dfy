/** Hashers: streamed updates, the padding of section 5.1.1 of FIPS 180-4, and the Hasher object. */
module Hashers {
  import opened Numbers
  import opened Options
  import opened Words
  import opened WordArrays
  import opened Streams
  import opened BufferedBlocks

  const BLOCK_WORDS: nat := 16
  const BLOCK_BYTES: nat := 64

  /** A hash function up to its compression function, which is kept abstract. */
  datatype Algo<!S> = Algo(init: S, compress: (S, seq<bv32>) -> S, digest: S -> seq<bv32>)

  // ----- The reference -----

  /** The compression function folded over the whole blocks of a byte string. */
  function Absorb<S>(algo: Algo<S>, s: S, input: seq<bv8>): S
    decreases |input|
  {
    if |input| < BLOCK_BYTES then s
    else Absorb(algo, algo.compress(s, Pack(input[..BLOCK_BYTES])), input[BLOCK_BYTES..])
  }

  /** The number of zero bytes between the 1 bit and the length. */
  function ZeroCount(n: nat): (k: nat)
    ensures (n + 1 + k + 8) % BLOCK_BYTES == 0
    ensures k < BLOCK_BYTES
  {
    (119 - n % BLOCK_BYTES) % BLOCK_BYTES
  }

  function High(n: nat): bv32 { WordOf(8 * n / TWO32) }
  function Low(n: nat): bv32 { WordOf(8 * n) }

  /** The tail after `count` bytes in the buffer, of a message of n bytes: a 1 bit, zeros, the bit length. */
  function Padding(count: nat, n: nat): (p: seq<bv8>)
    ensures |p| == 1 + ZeroCount(count) + 8
  {
    [0x80] + seq(ZeroCount(count), _ => 0 as bv8) + Unpack([High(n), Low(n)])
  }

  function HashOf<S>(algo: Algo<S>, message: seq<bv8>): seq<bv32> {
    algo.digest(Absorb(algo, algo.init, message + Padding(|message|, |message|)))
  }

  /** The zero count is minimal, so the padded length is the least that fits. */
  lemma PaddingIsMinimal(n: nat, k: nat)
    requires (n + 1 + k + 8) % BLOCK_BYTES == 0
    ensures ZeroCount(n) <= k
  {
  }

  /** Section 5.1.1 of FIPS 180-4 outright: a 1 bit, zeros, and the length in bits as a 64-bit number. */
  lemma PaddingMeans(count: nat, n: nat)
    ensures var p := Padding(count, n);
            && p[0] == 0x80 && (forall i :: 0 < i < |p| - 8 ==> p[i] == 0)
            && BigEndian(p[|p| - 8..]) == 8 * n % (TWO32 * TWO32)
  {
    hide Unpack, High, Low, BigEndian, ZeroCount;
    var p, field := Padding(count, n), Unpack([High(n), Low(n)]);
    UnpackLength([High(n), Low(n)]);
    assert p[|p| - 8..] == field;
    LengthField(n);
  }

  lemma LengthField(n: nat)
    ensures BigEndian(Unpack([High(n), Low(n)])) == 8 * n % (TWO32 * TWO32)
  {
    hide Unpack, BigEndian, WordOf, NumberOf;
    BigEndianWords(High(n), Low(n));
    NumberOfWordOf(8 * n / TWO32);
    NumberOfWordOf(8 * n);
    HighAndLow(8 * n);
  }

  lemma HighAndLow(x: nat)
    ensures TWO32 * (x / TWO32 % TWO32) + x % TWO32 == x % (TWO32 * TWO32)
  {
    var q, r := x / TWO32, x % TWO32;
    var h, l := q / TWO32, q % TWO32;
    assert x == TWO32 * q + r && q == TWO32 * h + l;
    assert x == (TWO32 * TWO32) * h + (TWO32 * l + r);
  }

  // ----- What the source writes into the buffer -----

  /** The index of the last block: (e + 64 >>> 9), for e buffered bits. */
  function LastBlock(count: nat): nat { ((8 * count + 64) % TWO32) / 512 }

  /** d[e >>> 5] |= 128 << 24 - e % 32, then the two length words. */
  function FinalWords(words: seq<bv32>, count: nat, n: nat): seq<bv32> {
    var d := Merge(words, count, 0x80);
    var last := 16 * LastBlock(count);
    Put(Put(d, last + 14, High(n)), last + 15, Low(n))
  }

  /** The block count ((e + 64) >>> 9) + 1 is the least that holds the message, the 1 bit and the length. */
  lemma BlockCountIsMinimal(count: nat, blocks: nat)
    requires 8 * count + 64 < TWO32
    ensures BLOCK_BYTES * (LastBlock(count) + 1) == count + |Padding(count, 0)|
    ensures BLOCK_BYTES * blocks >= count + 9 <==> blocks >= LastBlock(count) + 1
  {
    hide LastBlock, Padding, ZeroCount;
    LastBlockIs(count);
    ZeroCountIs(count);
  }

  lemma LastBlockIs(count: nat)
    requires 8 * count + 64 < TWO32
    ensures 64 * LastBlock(count) <= count + 8 < 64 * LastBlock(count) + 64
  {
    assert (8 * count + 64) % TWO32 == 8 * count + 64;
  }

  lemma ZeroCountIs(n: nat)
    ensures (n + 1 + ZeroCount(n) + 8) % BLOCK_BYTES == 0 && ZeroCount(n) < BLOCK_BYTES
  {
  }

  /** Bytes left over behind the last counted one do no harm: zero, or the very bit that is set next. */
  ghost predicate Harmless(words: seq<bv32>, count: nat) {
    var size := BLOCK_BYTES * (LastBlock(count) + 1);
    && 4 * |words| <= size
    && (ByteAt(words, count) == 0 || ByteAt(words, count) == 0x80)
    && forall i: nat :: count < i < size - 8 ==> ByteAt(words, i) == 0
  }

  lemma FinalByte(words: seq<bv32>, count: nat, n: nat, i: nat)
    requires 8 * count + 64 < TWO32
    ensures var size := BLOCK_BYTES * (LastBlock(count) + 1);
            ByteAt(FinalWords(words, count, n), i) ==
            if size - 8 <= i < size then Unpack([High(n), Low(n)])[i - (size - 8)]
            else if i == count then ByteAt(words, i) | 0x80 else ByteAt(words, i)
  {
    hide ByteOf, Merge, Put, High, Low;
    var last := 16 * LastBlock(count);
    var size := BLOCK_BYTES * (LastBlock(count) + 1);
    BlockCountIsMinimal(count, 0);
    ByteAtMerge(words, count, 0x80, i);
    if size - 8 <= i < size {
      assert i / 4 == last + 14 + (i - (size - 8)) / 4;
      assert i % 4 == (i - (size - 8)) % 4;
      assert Word([High(n), Low(n)], (i - (size - 8)) / 4) == Word(FinalWords(words, count, n), i / 4);
    }
  }

  /** Whatever the buffer held, the last eight bytes after the stores spell the length in bits. */
  lemma StoredLength(words: seq<bv32>, count: nat, n: nat)
    requires 8 * count + 64 < TWO32
    ensures var d, size := Unpack(FinalWords(words, count, n)), BLOCK_BYTES * (LastBlock(count) + 1);
            |d| >= size && BigEndian(d[size - 8..size]) == 8 * n % (TWO32 * TWO32)
  {
    hide ByteAt, Merge, Put, High, Low, LastBlock, FinalWords, BigEndian;
    var d, size := Unpack(FinalWords(words, count, n)), BLOCK_BYTES * (LastBlock(count) + 1);
    var field := Unpack([High(n), Low(n)]);
    FinalLength(words, count, n);
    forall i | 0 <= i < 8 ensures d[size - 8 + i] == field[i] { FinalByte(words, count, n, size - 8 + i); }
    assert d[size - 8..size] == field;
    LengthField(n);
  }

  lemma OrTop(b: bv8)
    ensures b | 0x80 == 0x80 <==> b == 0 || b == 0x80
  {
  }

  /** The buffer after the three stores is the padded message exactly when the bytes behind it do no harm. */
  lemma PaddingExact(words: seq<bv32>, count: nat, n: nat)
    requires 8 * count + 64 < TWO32
    ensures Unpack(FinalWords(words, count, n)) == Bytes(words, count) + Padding(count, n) <==> Harmless(words, count)
  {
    hide ByteAt, Merge, Put, High, Low, LastBlock;
    var d, p := FinalWords(words, count, n), Bytes(words, count) + Padding(count, n);
    var size := BLOCK_BYTES * (LastBlock(count) + 1);
    BlockCountIsMinimal(count, 0);
    FinalLength(words, count, n);
    OrTop(ByteAt(words, count));
    forall i: nat ensures ByteAt(d, i) == if size - 8 <= i < size then Unpack([High(n), Low(n)])[i - (size - 8)]
            else if i == count then ByteAt(words, i) | 0x80 else ByteAt(words, i) { FinalByte(words, count, n, i); }
    assert |p| == size;
    if Harmless(words, count) {
      assert Unpack(d) == p;
    }
    if Unpack(d) == p {
      assert ByteAt(d, count) == p[count] == 0x80;
      forall i: nat | count < i < size - 8 ensures ByteAt(words, i) == 0 {
        assert ByteAt(d, i) == Unpack(d)[i] == p[i];
      }
    }
  }

  lemma FinalLength(words: seq<bv32>, count: nat, n: nat)
    requires 8 * count + 64 < TWO32
    ensures |FinalWords(words, count, n)|
         == if |words| < 16 * (LastBlock(count) + 1) then 16 * (LastBlock(count) + 1) else |words|
  {
  }

  lemma CleanIsHarmless(words: seq<bv32>, count: nat)
    requires Clean(words, count) && 8 * count + 64 < TWO32
    ensures Harmless(words, count)
  {
    hide ByteAt;
    CleanPast(words, count);
    BlockCountIsMinimal(count, 0);
  }

  /** An unclamped argument does harm: the byte "A" with three stray bytes behind it. */
  lemma UnclampedIsHashedWrong()
    ensures Bytes([0x41424344], 1) == [0x41] && !Harmless([0x41424344], 1)
    ensures Unpack(FinalWords([0x41424344], 1, 1)) != [0x41] + Padding(1, 1)
  {
    hide FinalWords;
    var words := [0x41424344 as bv32];
    assert ByteAt(words, 0) == 0x41 && ByteAt(words, 1) == 0x42;
    assert Bytes(words, 1) == [0x41];
    PaddingExact(words, 1, 1);
  }

  // ----- Streaming -----

  function HashStep<S>(algo: Algo<S>): (S, seq<bv32>) -> (S, seq<bv32>) {
    (s: S, block: seq<bv32>) => (algo.compress(s, block), block)
  }

  function HashMachine<S>(algo: Algo<S>): (m: Machine<S>)
    ensures m.block == BLOCK_BYTES && m.hold == 0
  {
    ByteMachine(HashStep(algo), BLOCK_WORDS, 0)
  }

  lemma {:induction false} RunIsAbsorb<S>(algo: Algo<S>, s: S, input: seq<bv8>)
    ensures Run(HashMachine(algo), s, input).0 == Absorb(algo, s, input)
    decreases |input|
  {
    if |input| >= BLOCK_BYTES {
      RunIsAbsorb(algo, algo.compress(s, Pack(input[..BLOCK_BYTES])), input[BLOCK_BYTES..]);
    }
  }

  lemma AbsorbSplit<S>(algo: Algo<S>, s: S, a: seq<bv8>, b: seq<bv8>)
    requires Whole(BLOCK_BYTES, |a|)
    ensures Absorb(algo, s, a + b) == Absorb(algo, Absorb(algo, s, a), b)
  {
    hide Run, Absorb;
    var m := HashMachine(algo);
    RunSplit(m, s, a, b);
    RunIsAbsorb(algo, s, a);
    RunIsAbsorb(algo, s, a + b);
    RunIsAbsorb(algo, Run(m, s, a).0, b);
  }

  lemma PaddingSame(k: nat, count: nat, n: nat)
    requires Whole(BLOCK_BYTES, k)
    ensures Padding(k + count, n) == Padding(count, n)
  {
    hide Unpack, High, Low, ZeroCount;
    WholeMod(BLOCK_BYTES, k);
    ZeroCountSame(k, count);
  }

  lemma ZeroCountSame(k: nat, count: nat)
    requires k % BLOCK_BYTES == 0
    ensures ZeroCount(k + count) == ZeroCount(count)
  {
    assert (k + count) % BLOCK_BYTES == count % BLOCK_BYTES;
  }

  /** Mid-stream: whole blocks of the message are absorbed, the rest is buffered. */
  ghost predicate Absorbing<S>(algo: Algo<S>, s: S, rest: seq<bv8>, message: seq<bv8>) {
    && |rest| <= |message|
    && var k := |message| - |rest|;
       Whole(BLOCK_BYTES, k) && s == Absorb(algo, algo.init, message[..k]) && rest == message[k..]
  }

  lemma FeedAbsorbs<S>(algo: Algo<S>, s: S, rest: seq<bv8>, message: seq<bv8>, chunk: seq<bv8>)
    requires Absorbing(algo, s, rest, message)
    ensures var fed := Feed(HashMachine(algo), s, rest, chunk);
            Absorbing(algo, fed.state, fed.rest, message + chunk) && |fed.rest| < BLOCK_BYTES
  {
    hide Run, Absorb, Whole;
    var m, all, k := HashMachine(algo), rest + chunk, |message| - |rest|;
    var r := Ready(m, |all|);
    ReadyFits(m, |all|);
    RunIsAbsorb(algo, s, all[..r]);
    AbsorbSplit(algo, algo.init, message[..k], all[..r]);
    WholeSum(BLOCK_BYTES, k, r);
    assert (message + chunk)[..k + r] == message[..k] + all[..r];
    assert (message + chunk)[k + r..] == all[r..];
  }

  /** Closing the stream with its own padding gives the hash of the whole message. */
  lemma AbsorbingCloses<S>(algo: Algo<S>, s: S, rest: seq<bv8>, message: seq<bv8>)
    requires Absorbing(algo, s, rest, message)
    ensures algo.digest(Absorb(algo, s, rest + Padding(|rest|, |message|))) == HashOf(algo, message)
  {
    hide Absorb, Padding, Whole;
    var k, n := |message| - |rest|, |message|;
    PaddingSame(k, |rest|, n);
    assert message + Padding(n, n) == message[..k] + (rest + Padding(|rest|, n));
    AbsorbSplit(algo, algo.init, message[..k], rest + Padding(|rest|, n));
  }

  lemma {:induction false} FeedAllAbsorbs<S>(algo: Algo<S>, s: S, rest: seq<bv8>, message: seq<bv8>,
                                            chunks: seq<seq<bv8>>)
    requires Absorbing(algo, s, rest, message)
    ensures var fed := FeedAll(HashMachine(algo), s, rest, chunks);
            Absorbing(algo, fed.state, fed.rest, message + Flatten(chunks))
    decreases |chunks|
  {
    hide Absorbing, Feed, HashMachine;
    if chunks == [] {
      assert message + [] == message;
    } else {
      var first := Feed(HashMachine(algo), s, rest, chunks[0]);
      FeedAbsorbs(algo, s, rest, message, chunks[0]);
      FeedAllAbsorbs(algo, first.state, first.rest, message + chunks[0], chunks[1..]);
      assert message + chunks[0] + Flatten(chunks[1..]) == message + Flatten(chunks);
    }
  }

  /** Streaming equals one shot: any updates, then any last piece, hash the concatenation. */
  lemma StreamedHash<S>(algo: Algo<S>, chunks: seq<seq<bv8>>, last: seq<bv8>)
    ensures var fed := FeedAll(HashMachine(algo), algo.init, [], chunks);
            var message := Flatten(chunks) + last;
            var rest := fed.rest + last;
            algo.digest(Absorb(algo, fed.state, rest + Padding(|rest|, |message|))) == HashOf(algo, message)
  {
    hide Padding, HashMachine, HashOf;
    var fed := FeedAll(HashMachine(algo), algo.init, [], chunks);
    var message := Flatten(chunks) + last;
    FeedAllAbsorbs(algo, algo.init, [], [], chunks);
    assert [] + Flatten(chunks) == Flatten(chunks);
    AppendAbsorbs(algo, fed.state, fed.rest, Flatten(chunks), last);
    AbsorbingCloses(algo, fed.state, fed.rest + last, message);
  }

  lemma AppendAbsorbs<S>(algo: Algo<S>, s: S, rest: seq<bv8>, message: seq<bv8>, last: seq<bv8>)
    requires Absorbing(algo, s, rest, message)
    ensures Absorbing(algo, s, rest + last, message + last)
  {
    hide Absorb, Whole;
    var k := |message| - |rest|;
    assert (message + last)[..k] == message[..k] && (message + last)[k..] == rest + last;
  }

  // ----- The Hasher object -----

  class Hasher<S(!new)> {
    const algo: Algo<S>
    const buf: Buffered<S>
    /** The bytes given since the last reset. */
    ghost var message: seq<bv8>

    ghost predicate Valid()
      reads this, buf
    {
      && buf.Valid() && buf.step == HashStep(algo) && buf.blockSize == BLOCK_WORDS && buf.minBufferSize == 0
    }

    /** Ready for more input: what was given so far is absorbed or buffered. */
    ghost predicate Streaming()
      reads this, buf, buf.data
    {
      Valid() && Absorbing(algo, buf.state, buf.data.Value(), message) && buf.nDataBytes == |message|
    }

    constructor (algo: Algo<S>)
      ensures Streaming() && this.algo == algo && message == [] && buf.data.IsClean() && buf.data.sigBytes == 0
      ensures fresh(buf) && fresh(buf.data)
    {
      this.algo := algo;
      buf := new Buffered(HashStep(algo), BLOCK_WORDS, 0, algo.init);
      message := [];
    }

    method Reset()
      requires Valid()
      modifies this, buf
      ensures Streaming() && message == [] && buf.data.IsClean() && fresh(buf.data) && buf.data.sigBytes == 0
    {
      buf.data := new WordArray([], 0);
      buf.nDataBytes := 0;
      buf.state := algo.init;
      message := [];
    }

    method Update(a: WordArray)
      requires Streaming() && a != buf.data
      modifies this, buf, buf.data
      ensures Streaming() && message == old(message) + old(a.Value())
      ensures old(a.IsClean()) ==> buf.data.IsClean()
      ensures buf.data == old(buf.data) && buf.data.sigBytes < BLOCK_BYTES
    {
      hide Drain, Bytes, Absorbing, HashMachine, HashStep, Clean;
      ghost var s, rest, chunk := buf.state, buf.data.Value(), a.Value();
      buf.Append(a);
      var _ := buf.Process(false);
      message := message + chunk;
      assert buf.M() == HashMachine(algo) by { MachineIs(algo); }
      FeedAbsorbs(algo, s, rest, old(message), chunk);
    }

    /**
      Pads and hashes what is buffered: the hash of the whole message whenever the bytes behind the buffered
      ones do no harm, and always after a clean last piece.
     */
    method Finalize(last: Option<WordArray>) returns (hash: WordArray)
      requires Streaming() && (last.Some? ==> last.value != buf.data)
      requires 8 * (buf.data.sigBytes + (if last.Some? then last.value.sigBytes else 0)) + 64 < TWO32
      modifies buf, buf.data
      ensures Valid() && fresh(hash) && hash.sigBytes == 4 * |hash.words| && buf.data == old(buf.data)
      ensures (if last.Some? then old(last.value.IsClean()) else old(Harmless(buf.data.words, buf.data.sigBytes))) ==>
                hash.words == HashOf(algo, message + if last.Some? then old(last.value.Value()) else [])
    {
      hide Drain, Bytes, Absorbing, HashMachine, HashStep, Clean, Harmless, FinalWords, HashOf, Padding, Absorb, Run;
      ghost var tail := if last.Some? then last.value.Value() else [];
      ghost var s, full := buf.state, message + tail;
      AppendAbsorbs(algo, s, buf.data.Value(), message, tail);
      if last.Some? { buf.Append(last.value); }
      ghost var rest := buf.data.Value();
      assert rest == old(buf.data.Value()) + tail;
      ghost var words, count := buf.data.words, buf.data.sigBytes;
      var n := buf.nDataBytes;
      buf.data.words := FinalWords(buf.data.words, buf.data.sigBytes, n);
      buf.data.sigBytes := 4 * |buf.data.words|;
      ghost var padded := buf.data.Value();
      var _ := buf.Process(false);
      hash := new WordArray(algo.digest(buf.state), 4 * |algo.digest(buf.state)|);
      if Harmless(words, count) || Clean(words, count) {
        if Clean(words, count) { CleanIsHarmless(words, count); }
        PaddingExact(words, count, n);
        assert padded == rest + Padding(count, n);
        assert buf.M() == HashMachine(algo) by { MachineIs(algo); }
        DrainPadded(algo, s, rest, n);
        AbsorbingCloses(algo, s, rest, full);
      }
    }
  }

  lemma MachineIs<S>(algo: Algo<S>)
    ensures ByteMachine(HashStep(algo), BLOCK_WORDS, 0) == HashMachine(algo)
  {
  }

  lemma ReadyAll<S>(m: Machine<S>, n: nat)
    requires m.block == BLOCK_BYTES && m.hold == 0 && n % BLOCK_BYTES == 0
    ensures Ready(m, n) == n
  {
  }

  /** A padded buffer is a whole number of blocks, so processing takes all of it. */
  lemma DrainPadded<S>(algo: Algo<S>, s: S, rest: seq<bv8>, n: nat)
    ensures Drain(HashMachine(algo), s, rest + Padding(|rest|, n)).state == Absorb(algo, s, rest + Padding(|rest|, n))
  {
    hide *;
    var all := rest + Padding(|rest|, n);
    ZeroCountIs(|rest|);
    assert |all| == |rest| + 1 + ZeroCount(|rest|) + 8;
    DrainWhole(HashMachine(algo), s, all);
    RunIsAbsorb(algo, s, all);
  }

  lemma DrainWhole<S>(m: Machine<S>, s: S, all: seq<bv8>)
    requires m.block == BLOCK_BYTES && m.hold == 0 && |all| % BLOCK_BYTES == 0
    ensures Drain(m, s, all).state == Run(m, s, all).0
  {
    hide Run, Ready;
    ReadyAll(m, |all|);
    assert all[..|all|] == all;
  }
}

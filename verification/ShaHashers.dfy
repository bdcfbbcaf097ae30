/**
  The SHA-256 and SHA-1 hashers as the script runs them: its buffer, its in-place padding and its block steps on
  unreduced numbers.  For every split of a message into updates the digest is the standard's.
 */
module ShaHashers {
  import opened Numbers
  import opened Options
  import opened Words
  import opened WordArrays
  import opened Streams
  import opened BufferedBlocks
  import opened Hashers
  import opened Sha
  import opened ShaMessages

  // ----- The buffer, on bytes -----

  lemma FirstBytes(words: seq<bv32>, n: nat, b: nat)
    requires BLOCK_BYTES * n <= b
    ensures Unpack(Slice(words, 0, BLOCK_WORDS * n)) == Bytes(words, b)[..BLOCK_BYTES * n]
  {
    hide Unpack, ByteAt, Slice;
    BytesOfSlice(words, 0, BLOCK_WORDS * n);
    assert Bytes(words, 4 * 0) == [];
    assert Bytes(words, b)[..BLOCK_BYTES * n] == Bytes(words, 4 * (BLOCK_WORDS * n));
  }

  /** d.splice(0, 16 * n), and as many bytes less. */
  method DropBlocks(data: WordArray, n: nat)
    requires BLOCK_BYTES * n <= data.sigBytes
    modifies data
    ensures data.Value() == old(data.Value())[BLOCK_BYTES * n..] && (old(data.IsClean()) ==> data.IsClean())
    ensures data.sigBytes == old(data.sigBytes) - BLOCK_BYTES * n
  {
    hide Bytes, Clean;
    var a, w0 := BLOCK_WORDS * n, data.words;
    ghost var w := if |w0| < a then w0 + seq(a - |w0|, _ => 0 as bv32) else w0;
    assert forall j: nat :: a <= j ==> Word(w, j) == Word(w0, j);
    Cut(w0, w, a, data.sigBytes);
    data.words := if a <= |data.words| then data.words[a..] else [];
    assert data.words == w[a..];
    data.sigBytes := data.sigBytes - BLOCK_BYTES * n;
  }

  /** Absorbing all whole blocks of the buffer keeps a stream on course. */
  lemma KeepsAbsorbing<S>(algo: Algo<S>, s: S, rest: seq<bv8>, message: seq<bv8>, chunk: seq<bv8>)
    requires Absorbing(algo, s, rest, message)
    ensures var r := BLOCK_BYTES * (|rest + chunk| / BLOCK_BYTES);
            Absorbing(algo, Absorb(algo, s, (rest + chunk)[..r]), (rest + chunk)[r..], message + chunk)
  {
    hide Run, Absorb, Absorbing, HashMachine;
    var m, all := HashMachine(algo), rest + chunk;
    var r := BLOCK_BYTES * (|all| / BLOCK_BYTES);
    assert Ready(m, |all|) == r;
    FeedAbsorbs(algo, s, rest, message, chunk);
    RunIsAbsorb(algo, s, all[..r]);
  }

  /** The in-place padding closes a stream. */
  lemma PaddingCloses<S>(algo: Algo<S>, s: S, words: seq<bv32>, count: nat, message: seq<bv8>)
    requires Absorbing(algo, s, Bytes(words, count), message) && 8 * count + 64 < TWO32 && Harmless(words, count)
    ensures var padded := Unpack(FinalWords(words, count, |message|));
            |padded| % BLOCK_BYTES == 0 && algo.digest(Absorb(algo, s, padded)) == HashOf(algo, message)
  {
    hide Absorb, Absorbing, Harmless, FinalWords, Padding, HashOf, Unpack, ZeroCount, Bytes;
    PaddingExact(words, count, |message|);
    AbsorbingCloses(algo, s, Bytes(words, count), message);
  }

  // ----- SHA-256 -----

  class Sha256 {
    const round: int -> int
    const k: seq<int>
    const iv: seq<int>
    const scratch: array<int>
    var hash: array<int>
    var data: WordArray
    var nDataBytes: nat
    /** The bytes given since the last reset. */
    ghost var message: seq<bv8>

    ghost predicate Valid()
      reads this, hash
    {
      && Rounding(round) && |k| == 64 && (forall i :: 0 <= i < 64 ==> IsInt32(k[i]))
      && |iv| == 8 && (forall i :: 0 <= i < 8 ==> Within(iv[i], 2))
      && scratch.Length >= 64 && hash != scratch
      && hash.Length == 8 && (forall i :: 0 <= i < 8 ==> Within(hash[i], 2))
    }

    ghost function Fips(): Algo<Regs256>
      requires |iv| == 8
    {
      Fips256(k, Reduce256(Regs(iv)))
    }

    ghost function State(): Regs256
      reads this, hash
      requires hash.Length == 8
    {
      Reduce256(Regs(hash[..]))
    }

    ghost predicate Streaming()
      reads this, hash, data
    {
      Valid() && Absorbing(Fips(), State(), data.Value(), message) && nDataBytes == |message|
    }

    constructor (round: int -> int, k: seq<int>, iv: seq<int>)
      requires Rounding(round) && |k| == 64 && (forall i :: 0 <= i < 64 ==> IsInt32(k[i]))
      requires |iv| == 8 && forall i :: 0 <= i < 8 ==> Within(iv[i], 2)
      ensures Streaming() && message == [] && this.iv == iv && this.k == k
              && fresh(scratch) && fresh(hash) && fresh(data)
      ensures data.IsClean() && data.sigBytes == 0
    {
      this.round, this.iv, nDataBytes, message := round, iv, 0, [];
      this.k := k;
      scratch := new int[64];
      hash := new int[8](i requires 0 <= i < |iv| => iv[i]);
      data := new WordArray([], 0);
      new;
      assert hash[..] == iv;
    }

    method Reset()
      requires Valid()
      modifies this
      ensures Streaming() && message == [] && fresh(hash) && fresh(data)
      ensures data.IsClean() && data.sigBytes == 0
    {
      hash := new int[8](i requires 0 <= i < |iv| => iv[i]);
      data := new WordArray([], 0);
      nDataBytes, message := 0, [];
      assert hash[..] == iv;
    }

    /** _process: the block step over all whole blocks of the buffer, which are then cut off. */
    method Process()
      requires Valid()
      modifies hash, scratch, data
      ensures Valid() && (old(data.IsClean()) ==> data.IsClean()) && data.sigBytes < BLOCK_BYTES
      ensures var r := BLOCK_BYTES * (old(data.sigBytes) / BLOCK_BYTES);
              data.Value() == old(data.Value())[r..] && State() == Absorb(Fips(), old(State()), old(data.Value())[..r])
    {
      hide Absorb, Bytes, Clean, Unpack, Reduce256, Fips256, Rounding;
      var n := data.sigBytes / BLOCK_BYTES;
      var ws := Slice(data.words, 0, BLOCK_WORDS * n);
      FirstBytes(data.words, n, data.sigBytes);
      StandsForItself(ws);
      Blocks256(round, k, hash, Ints(ws), scratch, ws, Reduce256(Regs(iv)));
      DropBlocks(data, n);
    }

    method Update(a: WordArray)
      requires Streaming() && a != data
      modifies this`nDataBytes, this`message, hash, scratch, data
      ensures Streaming() && message == old(message) + old(a.Value())
      ensures (old(a.IsClean()) ==> data.IsClean()) && data.sigBytes < BLOCK_BYTES
    {
      hide Absorb, Absorbing, Bytes, Clean, Reduce256, Fips256, Rounding, Within;
      ghost var chunk := a.Value();
      KeepsAbsorbing(Fips(), State(), data.Value(), message, chunk);
      data.Concat(a);
      nDataBytes := nDataBytes + a.sigBytes;
      Process();
      message := message + chunk;
    }

    /** The standard's digest of everything updated and the last piece, whatever the split. */
    method Finalize(last: Option<WordArray>) returns (digest: seq<bv32>)
      requires Streaming() && (last.Some? ==> last.value != data)
      requires 8 * (data.sigBytes + (if last.Some? then last.value.sigBytes else 0)) + 64 < TWO32
      modifies this`nDataBytes, hash, scratch, data
      ensures Valid() && |digest| == hash.Length
      ensures (if last.Some? then old(last.value.IsClean()) else old(Harmless(data.words, data.sigBytes))) ==>
                digest == HashOf(Fips(), message + if last.Some? then old(last.value.Value()) else [])
    {
      hide Absorb, Absorbing, Bytes, Clean, Harmless, FinalWords, HashOf, Reduce256, Rounding, Within;
      ghost var tail := if last.Some? then last.value.Value() else [];
      AppendAbsorbs(Fips(), State(), data.Value(), message, tail);
      if last.Some? {
        data.Concat(last.value);
        nDataBytes := nDataBytes + last.value.sigBytes;
      }
      assert data.Value() == old(data.Value()) + tail;
      if Clean(data.words, data.sigBytes) { CleanIsHarmless(data.words, data.sigBytes); }
      digest := DoFinalize(message + tail);
    }

    /** _doFinalize: pads the buffer in place and runs the block step over what is left. */
    method DoFinalize(ghost full: seq<bv8>) returns (digest: seq<bv32>)
      requires Valid() && Absorbing(Fips(), State(), data.Value(), full) && nDataBytes == |full|
      requires 8 * data.sigBytes + 64 < TWO32
      modifies hash, scratch, data
      ensures Valid() && |digest| == hash.Length
      ensures old(Harmless(data.words, data.sigBytes)) ==> digest == HashOf(Fips(), full)
    {
      hide Absorb, Absorbing, Bytes, Clean, Harmless, FinalWords, HashOf, Bits, Reduce256, Rounding, Within;
      if Harmless(data.words, data.sigBytes) { PaddingCloses(Fips(), State(), data.words, data.sigBytes, full); }
      data.words := FinalWords(data.words, data.sigBytes, nDataBytes);
      data.sigBytes := 4 * |data.words|;
      ghost var padded := data.Value();
      assert padded == Unpack(data.words);
      Process();
      digest := Digest();
      assert padded[..|padded|] == padded;
    }

    /** The hash words, as the script hands them on. */
    method Digest() returns (digest: seq<bv32>)
      requires Valid()
      ensures digest == Fips().digest(State()) && |digest| == hash.Length
    {
      hide Bits, U32;
      digest := [Bits(hash[0]), Bits(hash[1]), Bits(hash[2]), Bits(hash[3]),
                 Bits(hash[4]), Bits(hash[5]), Bits(hash[6]), Bits(hash[7])];
      forall i | 0 <= i < 8 ensures Bits(U32(hash[i])) == Bits(hash[i]) { BitsOfU32(hash[i]); }
    }
  }

  // ----- SHA-1 -----

  class Sha1 {
    const round: int -> int
    const iv: seq<int>
    const scratch: array<int>
    var hash: array<int>
    var data: WordArray
    var nDataBytes: nat
    /** The bytes given since the last reset. */
    ghost var message: seq<bv8>

    ghost predicate Valid()
      reads this, hash
    {
      && Rounding(round)
      && |iv| == 5 && (forall i :: 0 <= i < 5 ==> Within(iv[i], 2))
      && scratch.Length >= 80 && hash != scratch
      && hash.Length == 5 && (forall i :: 0 <= i < 5 ==> Within(hash[i], 2))
    }

    ghost function Fips(): Algo<Regs1>
      requires |iv| == 5
    {
      Fips1(Reduce1(Regs5(iv)))
    }

    ghost function State(): Regs1
      reads this, hash
      requires hash.Length == 5
    {
      Reduce1(Regs5(hash[..]))
    }

    ghost predicate Streaming()
      reads this, hash, data
    {
      Valid() && Absorbing(Fips(), State(), data.Value(), message) && nDataBytes == |message|
    }

    constructor (round: int -> int, iv: seq<int>)
      requires Rounding(round)
      requires |iv| == 5 && forall i :: 0 <= i < 5 ==> Within(iv[i], 2)
      ensures Streaming() && message == [] && this.iv == iv && fresh(scratch) && fresh(hash) && fresh(data)
      ensures data.IsClean() && data.sigBytes == 0
    {
      this.round, this.iv, nDataBytes, message := round, iv, 0, [];
      scratch := new int[80];
      hash := new int[5](i requires 0 <= i < |iv| => iv[i]);
      data := new WordArray([], 0);
      new;
      assert hash[..] == iv;
    }

    method Reset()
      requires Valid()
      modifies this
      ensures Streaming() && message == [] && fresh(hash) && fresh(data)
      ensures data.IsClean() && data.sigBytes == 0
    {
      hash := new int[5](i requires 0 <= i < |iv| => iv[i]);
      data := new WordArray([], 0);
      nDataBytes, message := 0, [];
      assert hash[..] == iv;
    }

    /** _process: the block step over all whole blocks of the buffer, which are then cut off. */
    method Process()
      requires Valid()
      modifies hash, scratch, data
      ensures Valid() && (old(data.IsClean()) ==> data.IsClean()) && data.sigBytes < BLOCK_BYTES
      ensures var r := BLOCK_BYTES * (old(data.sigBytes) / BLOCK_BYTES);
              data.Value() == old(data.Value())[r..] && State() == Absorb(Fips(), old(State()), old(data.Value())[..r])
    {
      hide Absorb, Bytes, Clean, Unpack, Reduce1, Fips1, Rounding;
      var n := data.sigBytes / BLOCK_BYTES;
      var ws := Slice(data.words, 0, BLOCK_WORDS * n);
      FirstBytes(data.words, n, data.sigBytes);
      StandsForItself(ws);
      Blocks1(round, hash, Ints(ws), scratch, ws, Reduce1(Regs5(iv)));
      DropBlocks(data, n);
    }

    method Update(a: WordArray)
      requires Streaming() && a != data
      modifies this`nDataBytes, this`message, hash, scratch, data
      ensures Streaming() && message == old(message) + old(a.Value())
      ensures (old(a.IsClean()) ==> data.IsClean()) && data.sigBytes < BLOCK_BYTES
    {
      hide Absorb, Absorbing, Bytes, Clean, Reduce1, Fips1, Rounding, Within;
      ghost var chunk := a.Value();
      KeepsAbsorbing(Fips(), State(), data.Value(), message, chunk);
      data.Concat(a);
      nDataBytes := nDataBytes + a.sigBytes;
      Process();
      message := message + chunk;
    }

    /** The standard's digest of everything updated and the last piece, whatever the split. */
    method Finalize(last: Option<WordArray>) returns (digest: seq<bv32>)
      requires Streaming() && (last.Some? ==> last.value != data)
      requires 8 * (data.sigBytes + (if last.Some? then last.value.sigBytes else 0)) + 64 < TWO32
      modifies this`nDataBytes, hash, scratch, data
      ensures Valid() && |digest| == hash.Length
      ensures (if last.Some? then old(last.value.IsClean()) else old(Harmless(data.words, data.sigBytes))) ==>
                digest == HashOf(Fips(), message + if last.Some? then old(last.value.Value()) else [])
    {
      hide Absorb, Absorbing, Bytes, Clean, Harmless, FinalWords, HashOf, Reduce1, Rounding, Within;
      ghost var tail := if last.Some? then last.value.Value() else [];
      AppendAbsorbs(Fips(), State(), data.Value(), message, tail);
      if last.Some? {
        data.Concat(last.value);
        nDataBytes := nDataBytes + last.value.sigBytes;
      }
      assert data.Value() == old(data.Value()) + tail;
      if Clean(data.words, data.sigBytes) { CleanIsHarmless(data.words, data.sigBytes); }
      digest := DoFinalize(message + tail);
    }

    /** _doFinalize: pads the buffer in place and runs the block step over what is left. */
    method DoFinalize(ghost full: seq<bv8>) returns (digest: seq<bv32>)
      requires Valid() && Absorbing(Fips(), State(), data.Value(), full) && nDataBytes == |full|
      requires 8 * data.sigBytes + 64 < TWO32
      modifies hash, scratch, data
      ensures Valid() && |digest| == hash.Length
      ensures old(Harmless(data.words, data.sigBytes)) ==> digest == HashOf(Fips(), full)
    {
      hide Absorb, Absorbing, Bytes, Clean, Harmless, FinalWords, HashOf, Bits, Reduce1, Rounding, Within;
      if Harmless(data.words, data.sigBytes) { PaddingCloses(Fips(), State(), data.words, data.sigBytes, full); }
      data.words := FinalWords(data.words, data.sigBytes, nDataBytes);
      data.sigBytes := 4 * |data.words|;
      ghost var padded := data.Value();
      assert padded == Unpack(data.words);
      Process();
      digest := Digest();
      assert padded[..|padded|] == padded;
    }

    /** The hash words, as the script hands them on. */
    method Digest() returns (digest: seq<bv32>)
      requires Valid()
      ensures digest == Fips().digest(State()) && |digest| == hash.Length
    {
      hide Bits, U32;
      digest := [Bits(hash[0]), Bits(hash[1]), Bits(hash[2]), Bits(hash[3]), Bits(hash[4])];
      forall i | 0 <= i < 5 ensures Bits(U32(hash[i])) == Bits(hash[i]) { BitsOfU32(hash[i]); }
    }
  }

  lemma StandsForItself(ws: seq<bv32>)
    ensures StandFor(Ints(ws), ws)
  {
    hide Unsigned;
  }
}

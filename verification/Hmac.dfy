/** HMAC (section 2 of RFC 2104) over any hasher with 64-byte blocks. */
module Hmac {
  import opened Numbers
  import opened Options
  import opened Words
  import opened WordArrays
  import opened Streams
  import opened Hashers

  // ----- The reference -----

  ghost predicate ShortDigest<S(!new)>(algo: Algo<S>) {
    forall s: S :: |algo.digest(s)| <= BLOCK_WORDS
  }

  /** The key of one block: hashed when longer than a block. */
  function BlockKey<S>(algo: Algo<S>, key: seq<bv8>): seq<bv8> {
    if |key| > BLOCK_BYTES then Unpack(HashOf(algo, key)) else key
  }

  /** The key, zero-extended to a block, with every byte xor-ed with b. */
  function PadKey(key: seq<bv8>, b: bv8): (k: seq<bv8>)
    ensures |k| == BLOCK_BYTES
  {
    seq(BLOCK_BYTES, i requires 0 <= i < BLOCK_BYTES => XorByte(ByteOr0(key, i), b))
  }

  function HmacOf<S>(algo: Algo<S>, key: seq<bv8>, message: seq<bv8>): seq<bv32> {
    var k := BlockKey(algo, key);
    HashOf(algo, PadKey(k, 0x5C) + Unpack(HashOf(algo, PadKey(k, 0x36) + message)))
  }

  /** Section 2 of RFC 2104 outright, for a key of at most a block. */
  lemma HmacMeans<S>(algo: Algo<S>, key: seq<bv8>, message: seq<bv8>, opad: seq<bv8>, ipad: seq<bv8>)
    requires |key| <= BLOCK_BYTES == |opad| == |ipad|
    requires forall j :: 0 <= j < |key| ==> opad[j] == key[j] ^ 0x5C && ipad[j] == key[j] ^ 0x36
    requires forall j :: |key| <= j < BLOCK_BYTES ==> opad[j] == 0x5C && ipad[j] == 0x36
    ensures HmacOf(algo, key, message) == HashOf(algo, opad + Unpack(HashOf(algo, ipad + message)))
  {
    hide HashOf, Unpack;
    XorWithZero();
    assert PadKey(key, 0x5C) == opad && PadKey(key, 0x36) == ipad;
  }

  lemma XorWithZero()
    ensures XorByte(0, 0x5C) == 0x5C && XorByte(0, 0x36) == 0x36
  {
  }

  /** A key longer than a block stands for its hash. */
  lemma LongKey<S(!new)>(algo: Algo<S>, key: seq<bv8>, message: seq<bv8>)
    requires |key| > BLOCK_BYTES && ShortDigest(algo)
    ensures HmacOf(algo, key, message) == HmacOf(algo, Unpack(HashOf(algo, key)), message)
  {
    hide Unpack, HashOf;
    DigestFits(algo, key);
    UnpackLength(HashOf(algo, key));
  }

  // ----- Xor-ing a constant into a word -----

  lemma XorOpad(w: bv32)
    ensures var v := Xor(w, 0x5C5C_5C5C);
            && ByteOf(v, 0) == XorByte(ByteOf(w, 0), 0x5C) && ByteOf(v, 1) == XorByte(ByteOf(w, 1), 0x5C)
            && ByteOf(v, 2) == XorByte(ByteOf(w, 2), 0x5C) && ByteOf(v, 3) == XorByte(ByteOf(w, 3), 0x5C)
  {
  }

  lemma XorIpad(w: bv32)
    ensures var v := Xor(w, 0x3636_3636);
            && ByteOf(v, 0) == XorByte(ByteOf(w, 0), 0x36) && ByteOf(v, 1) == XorByte(ByteOf(w, 1), 0x36)
            && ByteOf(v, 2) == XorByte(ByteOf(w, 2), 0x36) && ByteOf(v, 3) == XorByte(ByteOf(w, 3), 0x36)
  {
  }

  lemma XorMask(w: bv32, k: nat)
    requires k < 4
    ensures ByteOf(Xor(w, 0x5C5C_5C5C), k) == XorByte(ByteOf(w, k), 0x5C)
    ensures ByteOf(Xor(w, 0x3636_3636), k) == XorByte(ByteOf(w, k), 0x36)
  {
    hide *;
    XorOpad(w);
    XorIpad(w);
    if k == 0 {} else if k == 1 {} else if k == 2 {} else { assert k == 3; }
  }

  lemma XoredWords(words: seq<bv32>, was: seq<bv32>, n: nat, mask: bv32, b: bv8)
    requires (mask == 0x5C5C_5C5C && b == 0x5C) || (mask == 0x3636_3636 && b == 0x36)
    requires Clean(was, n) && n <= BLOCK_BYTES && |words| == BLOCK_WORDS
    requires forall j :: 0 <= j < BLOCK_WORDS ==> words[j] == Xor(Word(was, j), mask)
    ensures Bytes(words, BLOCK_BYTES) == PadKey(Bytes(was, n), b) && Clean(words, BLOCK_BYTES)
  {
    hide ByteOf, Xor;
    CleanPast(was, n);
    forall i: nat | i < BLOCK_BYTES ensures ByteAt(words, i) == XorByte(ByteOr0(Bytes(was, n), i), b) {
      XorMask(Word(was, i / 4), i % 4);
      assert ByteAt(was, i) == ByteOr0(Bytes(was, n), i);
    }
  }

  /** A digest fills its words, so it is clean. */
  lemma FullIsClean(words: seq<bv32>)
    ensures Clean(words, 4 * |words|)
  {
  }

  lemma DigestFits<S(!new)>(algo: Algo<S>, message: seq<bv8>)
    requires ShortDigest(algo)
    ensures |HashOf(algo, message)| <= BLOCK_WORDS
  {
  }

  /** The first part of the constructor: hash a long key, then clamp it. */
  method ShortenKey<S(!new)>(hasher: Hasher<S>, key: WordArray) returns (g: WordArray)
    requires hasher.Streaming() && hasher.message == [] && hasher.buf.data.sigBytes == 0
    requires ShortDigest(hasher.algo) && 8 * key.sigBytes + 64 < TWO32 && key != hasher.buf.data
    requires key.sigBytes > BLOCK_BYTES ==> key.IsClean()
    modifies key, hasher.buf, hasher.buf.data
    ensures hasher.Valid() && hasher.buf.data == old(hasher.buf.data) && key.Value() == old(key.Value())
    ensures (g == key || fresh(g)) && key.IsClean() && key.sigBytes == old(key.sigBytes)
    ensures g.IsClean() && g.sigBytes <= BLOCK_BYTES && g.Value() == BlockKey(hasher.algo, old(key.Value()))
  {
    hide HashOf, Bytes, Clean, Harmless, Absorbing;
    g := key;
    if g.sigBytes > BLOCK_BYTES {
      assert hasher.message + key.Value() == key.Value();
      DigestFits(hasher.algo, key.Value());
      g := hasher.Finalize(Some(g));
      FullIsClean(g.words);
    }
    g.Clamp();
  }

  class Hmac<S(!new)> {
    const hasher: Hasher<S>
    var oKey: WordArray
    var iKey: WordArray
    ghost var key: seq<bv8>
    ghost var message: seq<bv8>

    ghost predicate Valid()
      reads this, hasher, hasher.buf, oKey, iKey
    {
      && hasher.Valid() && ShortDigest(hasher.algo)
      && oKey != hasher.buf.data && iKey != hasher.buf.data
      && oKey.IsClean() && oKey.Value() == PadKey(BlockKey(hasher.algo, key), 0x5C)
      && iKey.IsClean() && iKey.Value() == PadKey(BlockKey(hasher.algo, key), 0x36)
    }

    ghost predicate Streaming()
      reads this, hasher, hasher.buf, hasher.buf.data, oKey, iKey
    {
      Valid() && hasher.Streaming() && hasher.message == PadKey(BlockKey(hasher.algo, key), 0x36) + message
    }

    /** Keys longer than a block are hashed, which needs them clamped; the key object itself gets clamped. */
    constructor (algo: Algo<S>, key: WordArray)
      requires ShortDigest(algo) && 8 * key.sigBytes + 64 < TWO32
      requires key.sigBytes > BLOCK_BYTES ==> key.IsClean()
      modifies key
      ensures Streaming() && this.key == old(key.Value()) && message == []
      ensures key.Value() == old(key.Value()) && key.IsClean() && key.sigBytes == old(key.sigBytes)
      ensures hasher.algo == algo && hasher.buf.data.IsClean() && hasher.buf.data.sigBytes < BLOCK_BYTES
      ensures fresh(hasher) && fresh(hasher.buf) && fresh(hasher.buf.data) && fresh(oKey) && fresh(iKey)
    {
      hasher := new Hasher(algo);
      oKey := key;
      iKey := key;
      new;
      hide HashOf, Bytes, Clean, Harmless, PadKey, Absorbing, BlockKey;
      SetKeys(key);
      Reset();
    }

    method SetKeys(key: WordArray)
      requires hasher.Streaming() && hasher.message == [] && hasher.buf.data.sigBytes == 0
      requires ShortDigest(hasher.algo) && 8 * key.sigBytes + 64 < TWO32 && key != hasher.buf.data
      requires key.sigBytes > BLOCK_BYTES ==> key.IsClean()
      modifies this, key, hasher.buf, hasher.buf.data
      ensures Valid() && this.key == old(key.Value()) && key.Value() == old(key.Value()) && key.IsClean()
      ensures key.sigBytes == old(key.sigBytes)
      ensures hasher.buf.data == old(hasher.buf.data) && fresh(oKey) && fresh(iKey)
    {
      hide HashOf, Bytes, Clean, Harmless, PadKey, Absorbing, BlockKey;
      this.key := key.Value();
      var g := ShortenKey(hasher, key);
      oKey := XorClone(g, 0x5C5C_5C5C, 0x5C);
      iKey := XorClone(g, 0x3636_3636, 0x36);
    }

    method Reset()
      requires Valid()
      modifies this`message, hasher, hasher.buf
      ensures Streaming() && message == [] && key == old(key) && hasher.buf.data.IsClean()
      ensures fresh(hasher.buf.data) && hasher.buf.data.sigBytes < BLOCK_BYTES
    {
      hide Bytes, PadKey, Absorbing, Clean;
      hasher.Reset();
      hasher.Update(iKey);
      message := [];
      assert hasher.message == [] + PadKey(BlockKey(hasher.algo, key), 0x36);
      assert hasher.message == PadKey(BlockKey(hasher.algo, key), 0x36) + [];
    }

    method Update(a: WordArray)
      requires Streaming() && a != hasher.buf.data
      modifies this`message, hasher, hasher.buf, hasher.buf.data
      ensures Streaming() && message == old(message) + old(a.Value()) && key == old(key)
      ensures old(a.IsClean()) ==> hasher.buf.data.IsClean()
      ensures hasher.buf.data == old(hasher.buf.data) && hasher.buf.data.sigBytes < BLOCK_BYTES
    {
      hide Bytes, PadKey, Absorbing, Clean;
      ghost var k := PadKey(BlockKey(hasher.algo, key), 0x36);
      hasher.Update(a);
      message := message + old(a.Value());
      assert k + old(message) + old(a.Value()) == k + message;
    }

    /** The result is the RFC's nested hash of everything given since the last reset. */
    method Finalize(last: Option<WordArray>) returns (hash: WordArray)
      requires Streaming() && (last.Some? ==> last.value != hasher.buf.data)
      requires 8 * (hasher.buf.data.sigBytes + (if last.Some? then last.value.sigBytes else 0)) + 64 < TWO32
      requires if last.Some? then last.value.IsClean() else Harmless(hasher.buf.data.words, hasher.buf.data.sigBytes)
      modifies this`message, hasher, hasher.buf, hasher.buf.data
      ensures Valid() && key == old(key) && fresh(hash)
      ensures hash.words == HmacOf(hasher.algo, key, old(message) + if last.Some? then old(last.value.Value()) else [])
    {
      hide Bytes, PadKey, Absorbing, Clean, HashOf, Harmless;
      ghost var tail := if last.Some? then last.value.Value() else [];
      ghost var k := BlockKey(hasher.algo, key);
      ghost var full := old(message) + tail;
      var inner := hasher.Finalize(last);
      assert PadKey(k, 0x36) + old(message) + tail == PadKey(k, 0x36) + full;
      FullIsClean(inner.words);
      DigestFits(hasher.algo, PadKey(k, 0x36) + full);
      hasher.Reset();
      var outer := new WordArray(oKey.words, oKey.sigBytes);
      outer.Concat(inner);
      assert outer.Value() == PadKey(k, 0x5C) + Unpack(HashOf(hasher.algo, PadKey(k, 0x36) + full));
      assert hasher.message + outer.Value() == outer.Value();
      hash := hasher.Finalize(Some(outer));
    }
  }

  /** The clone-and-xor loop over the key's words. */
  method XorClone(g: WordArray, mask: bv32, ghost b: bv8) returns (r: WordArray)
    requires (mask == 0x5C5C_5C5C && b == 0x5C) || (mask == 0x3636_3636 && b == 0x36)
    requires g.IsClean() && g.sigBytes <= BLOCK_BYTES
    ensures fresh(r) && r.IsClean() && r.Value() == PadKey(g.Value(), b)
  {
    hide Xor, Put, Bytes, PadKey, ByteAt;
    r := new WordArray(g.words, g.sigBytes);
    var j := 0;
    while j < BLOCK_WORDS
      invariant j <= BLOCK_WORDS && |r.words| == if j < |g.words| then |g.words| else j
      invariant forall i: nat :: Word(r.words, i) == if i < j then Xor(Word(g.words, i), mask) else Word(g.words, i)
    {
      r.words := Put(r.words, j, Xor(Word(r.words, j), mask));
      j := j + 1;
    }
    assert forall i :: 0 <= i < BLOCK_WORDS ==> r.words[i] == Word(r.words, i);
    r.sigBytes := BLOCK_BYTES;
    XoredWords(r.words, g.words, g.sigBytes, mask, b);
  }

  /** Any number of updates. */
  method UpdateAll<S(!new)>(h: Hmac<S>, chunks: seq<WordArray>)
    requires h.Streaming() && h.hasher.buf.data.sigBytes < BLOCK_BYTES
    requires forall i :: 0 <= i < |chunks| ==> chunks[i] != h.hasher.buf.data
    modifies h`message, h.hasher, h.hasher.buf, h.hasher.buf.data
    ensures h.Streaming() && h.hasher.buf.data == old(h.hasher.buf.data) && h.hasher.buf.data.sigBytes < BLOCK_BYTES
    ensures h.message == old(h.message) + Flatten(old(Values(chunks))) && h.key == old(h.key)
  {
    hide Bytes, Clean, Flatten, PadKey, BlockKey, Absorbing, ShortDigest;
    ghost var values := Values(chunks);
    FlattenNone();
    assert values[..0] == [] && h.message + [] == h.message;
    for i := 0 to |chunks|
      invariant h.Streaming() && h.hasher.buf.data == old(h.hasher.buf.data)
      invariant h.hasher.buf.data.sigBytes < BLOCK_BYTES && h.key == old(h.key)
      invariant h.message == old(h.message) + Flatten(values[..i])
    {
      FlattenPush(values, i);
      h.Update(chunks[i]);
    }
    assert values[..|chunks|] == values;
  }

  /** A new object, any number of updates and a last piece: the RFC's code of the concatenation, for every split. */
  method Authenticate<S(!new)>(algo: Algo<S>, key: WordArray, chunks: seq<WordArray>, last: WordArray)
    returns (hash: WordArray)
    requires ShortDigest(algo) && 8 * key.sigBytes + 64 < TWO32 && (key.sigBytes > BLOCK_BYTES ==> key.IsClean())
    requires last.IsClean() && 8 * (BLOCK_BYTES + last.sigBytes) + 64 < TWO32
    modifies key
    ensures hash.words == HmacOf(algo, old(key.Value()), Flatten(old(Values(chunks))) + old(last.Value()))
  {
    hide Bytes, Clean, Flatten, HmacOf, PadKey, BlockKey, Absorbing, ShortDigest, Harmless;
    ghost var values := Values(chunks);
    var h := new Hmac(algo, key);
    assert Values(chunks) == values;
    UpdateAll(h, chunks);
    assert [] + Flatten(values) == Flatten(values);
    hash := h.Finalize(Some(last));
  }

  lemma FlattenNone()
    ensures Flatten([]) == []
  {
  }
}

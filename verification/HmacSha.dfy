/** HMAC as the example calls it, over the script's own SHA-256 and SHA-1 objects. */
module HmacSha {
  import opened Numbers
  import opened Options
  import opened Words
  import opened WordArrays
  import opened Streams
  import opened Hashers
  import opened Sha
  import opened ShaMessages
  import opened ShaHashers
  import opened Hmac

  // ----- SHA-256 -----

  /** The key of one block: hashed by the script's own steps when longer than a block, then clamped. */
  method KeyBlock256(h: Sha256, key: WordArray) returns (g: WordArray)
    requires h.Streaming() && h.message == [] && h.data.sigBytes == 0 && key != h.data
    requires 8 * key.sigBytes + 64 < TWO32 && (key.sigBytes > BLOCK_BYTES ==> key.IsClean())
    modifies key, h`nDataBytes, h.hash, h.scratch, h.data
    ensures h.Valid() && (g == key || fresh(g)) && key.Value() == old(key.Value()) && key.IsClean()
    ensures key.sigBytes == old(key.sigBytes)
    ensures g.IsClean() && g.sigBytes <= BLOCK_BYTES && g.Value() == BlockKey(h.Fips(), old(key.Value()))
  {
    hide HashOf, Bytes, Clean, Harmless, Absorbing;
    g := key;
    if g.sigBytes > BLOCK_BYTES {
      assert h.message + key.Value() == key.Value();
      var digest := h.Finalize(Some(g));
      g := new WordArray(digest, 4 * |digest|);
      FullIsClean(g.words);
    }
    g.Clamp();
  }

  /** Any number of updates. */
  method UpdateAll256(h: Sha256, chunks: seq<WordArray>)
    requires h.Streaming() && h.data.sigBytes < BLOCK_BYTES && forall i :: 0 <= i < |chunks| ==> chunks[i] != h.data
    modifies h`nDataBytes, h`message, h.hash, h.scratch, h.data
    ensures h.Streaming() && h.data.sigBytes < BLOCK_BYTES
    ensures h.message == old(h.message) + Flatten(old(Values(chunks)))
  {
    hide Bytes, Clean, Absorbing, Flatten, Reduce256, Fips256, Rounding, Within, IsInt32;
    ghost var values := Values(chunks);
    FlattenNone();
    assert values[..0] == [] && h.message + [] == h.message;
    for i := 0 to |chunks|
      invariant h.Streaming() && h.data.sigBytes < BLOCK_BYTES
      invariant h.message == old(h.message) + Flatten(values[..i])
    {
      FlattenPush(values, i);
      h.Update(chunks[i]);
    }
    assert values[..|chunks|] == values;
  }

  /** Reset, a first piece, any number of further pieces, and a last one. */
  method Digest256(h: Sha256, first: WordArray, chunks: seq<WordArray>, last: WordArray) returns (digest: seq<bv32>)
    requires h.Valid() && last.IsClean() && 8 * (BLOCK_BYTES + last.sigBytes) + 64 < TWO32
    modifies h, h.scratch
    ensures h.Valid() && |digest| == h.hash.Length
    ensures digest == HashOf(h.Fips(), old(first.Value()) + Flatten(old(Values(chunks))) + old(last.Value()))
  {
    hide HashOf, Bytes, Clean, Harmless, Absorbing, Flatten, Reduce256, Fips256, Rounding, Within, IsInt32;
    ghost var values, start := Values(chunks), first.Value();
    h.Reset();
    h.Update(first);
    assert [] + start == start && Values(chunks) == values;
    UpdateAll256(h, chunks);
    digest := h.Finalize(Some(last));
  }

  /** HmacSHA256 of any message, in any pieces, under any key: section 2 of RFC 2104 over the standard's hash. */
  method HmacSha256(round: int -> int, k: seq<int>, iv: seq<int>, key: WordArray,
                    chunks: seq<WordArray>, last: WordArray)
    returns (code: seq<bv32>)
    requires Rounding(round) && |k| == 64 && (forall i :: 0 <= i < 64 ==> IsInt32(k[i]))
    requires |iv| == 8 && forall i :: 0 <= i < 8 ==> Within(iv[i], 2)
    requires 8 * key.sigBytes + 64 < TWO32 && (key.sigBytes > BLOCK_BYTES ==> key.IsClean())
    requires last.IsClean() && 8 * (BLOCK_BYTES + last.sigBytes) + 64 < TWO32
    modifies key
    ensures code == HmacOf(Fips256(k, Reduce256(Regs(iv))), old(key.Value()),
                           Flatten(old(Values(chunks))) + old(last.Value()))
  {
    hide HashOf, Bytes, Clean, Harmless, Absorbing, Flatten, PadKey, BlockKey, Reduce256, Fips256,
         Rounding, Within, Unpack;
    ghost var values := Values(chunks);
    var h := new Sha256(round, k, iv);
    var g := KeyBlock256(h, key);
    assert Values(chunks) == values;
    code := Code256(h, g, chunks, last);
  }

  /** The two nested hashes under a key block. */
  method Code256(h: Sha256, g: WordArray, chunks: seq<WordArray>, last: WordArray) returns (code: seq<bv32>)
    requires h.Valid() && g.IsClean() && g.sigBytes <= BLOCK_BYTES
    requires last.IsClean() && 8 * (BLOCK_BYTES + last.sigBytes) + 64 < TWO32
    modifies h, h.scratch
    ensures var message, block := Flatten(old(Values(chunks))) + old(last.Value()), old(g.Value());
            code == HashOf(h.Fips(), PadKey(block, 0x5C) + Unpack(HashOf(h.Fips(), PadKey(block, 0x36) + message)))
  {
    hide HashOf, Bytes, Clean, Harmless, Absorbing, Flatten, PadKey, Reduce256, Fips256, Rounding, Within, IsInt32;
    ghost var values, tail, block := Values(chunks), last.Value(), g.Value();
    var oKey := XorClone(g, 0x5C5C_5C5C, 0x5C);
    var iKey := XorClone(g, 0x3636_3636, 0x36);
    assert Values(chunks) == values;
    var inner := Digest256(h, iKey, chunks, last);
    assert PadKey(block, 0x36) + Flatten(values) + tail == PadKey(block, 0x36) + (Flatten(values) + tail);
    var a := new WordArray(inner, 4 * |inner|);
    FullIsClean(a.words);
    code := Outer256(h, oKey, a);
  }

  /** The second hash: the outer key block followed by the inner digest, handed over as one last piece. */
  method Outer256(h: Sha256, oKey: WordArray, inner: WordArray) returns (digest: seq<bv32>)
    requires h.Valid() && oKey.sigBytes == BLOCK_BYTES && inner.IsClean() && inner.sigBytes <= BLOCK_BYTES
    modifies h, h.scratch
    ensures digest == HashOf(h.Fips(), old(oKey.Value()) + old(inner.Value()))
  {
    hide HashOf, Bytes, Clean, Harmless, Absorbing, Reduce256, Rounding, Within;
    h.Reset();
    var outer := new WordArray(oKey.words, oKey.sigBytes);
    outer.Concat(inner);
    assert h.message + outer.Value() == outer.Value();
    digest := h.Finalize(Some(outer));
  }

  // ----- SHA-1 -----

  /** The key of one block: hashed by the script's own steps when longer than a block, then clamped. */
  method KeyBlock1(h: Sha1, key: WordArray) returns (g: WordArray)
    requires h.Streaming() && h.message == [] && h.data.sigBytes == 0 && key != h.data
    requires 8 * key.sigBytes + 64 < TWO32 && (key.sigBytes > BLOCK_BYTES ==> key.IsClean())
    modifies key, h`nDataBytes, h.hash, h.scratch, h.data
    ensures h.Valid() && (g == key || fresh(g)) && key.Value() == old(key.Value()) && key.IsClean()
    ensures key.sigBytes == old(key.sigBytes)
    ensures g.IsClean() && g.sigBytes <= BLOCK_BYTES && g.Value() == BlockKey(h.Fips(), old(key.Value()))
  {
    hide HashOf, Bytes, Clean, Harmless, Absorbing;
    g := key;
    if g.sigBytes > BLOCK_BYTES {
      assert h.message + key.Value() == key.Value();
      var digest := h.Finalize(Some(g));
      g := new WordArray(digest, 4 * |digest|);
      FullIsClean(g.words);
    }
    g.Clamp();
  }

  /** Any number of updates. */
  method UpdateAll1(h: Sha1, chunks: seq<WordArray>)
    requires h.Streaming() && h.data.sigBytes < BLOCK_BYTES && forall i :: 0 <= i < |chunks| ==> chunks[i] != h.data
    modifies h`nDataBytes, h`message, h.hash, h.scratch, h.data
    ensures h.Streaming() && h.data.sigBytes < BLOCK_BYTES
    ensures h.message == old(h.message) + Flatten(old(Values(chunks)))
  {
    hide Bytes, Clean, Absorbing, Flatten, Reduce1, Fips1, Rounding, Within, IsInt32;
    ghost var values := Values(chunks);
    FlattenNone();
    assert values[..0] == [] && h.message + [] == h.message;
    for i := 0 to |chunks|
      invariant h.Streaming() && h.data.sigBytes < BLOCK_BYTES
      invariant h.message == old(h.message) + Flatten(values[..i])
    {
      FlattenPush(values, i);
      h.Update(chunks[i]);
    }
    assert values[..|chunks|] == values;
  }

  /** Reset, a first piece, any number of further pieces, and a last one. */
  method Digest1(h: Sha1, first: WordArray, chunks: seq<WordArray>, last: WordArray) returns (digest: seq<bv32>)
    requires h.Valid() && last.IsClean() && 8 * (BLOCK_BYTES + last.sigBytes) + 64 < TWO32
    modifies h, h.scratch
    ensures h.Valid() && |digest| == h.hash.Length
    ensures digest == HashOf(h.Fips(), old(first.Value()) + Flatten(old(Values(chunks))) + old(last.Value()))
  {
    hide HashOf, Bytes, Clean, Harmless, Absorbing, Flatten, Reduce1, Fips1, Rounding, Within, IsInt32;
    ghost var values, start := Values(chunks), first.Value();
    h.Reset();
    h.Update(first);
    assert [] + start == start && Values(chunks) == values;
    UpdateAll1(h, chunks);
    digest := h.Finalize(Some(last));
  }

  /** HmacSHA1 of any message, in any pieces, under any key: section 2 of RFC 2104 over the standard's hash. */
  method HmacSha1(round: int -> int, iv: seq<int>, key: WordArray, chunks: seq<WordArray>, last: WordArray)
    returns (code: seq<bv32>)
    requires Rounding(round)
    requires |iv| == 5 && forall i :: 0 <= i < 5 ==> Within(iv[i], 2)
    requires 8 * key.sigBytes + 64 < TWO32 && (key.sigBytes > BLOCK_BYTES ==> key.IsClean())
    requires last.IsClean() && 8 * (BLOCK_BYTES + last.sigBytes) + 64 < TWO32
    modifies key
    ensures code == HmacOf(Fips1(Reduce1(Regs5(iv))), old(key.Value()),
                           Flatten(old(Values(chunks))) + old(last.Value()))
  {
    hide HashOf, Bytes, Clean, Harmless, Absorbing, Flatten, PadKey, BlockKey, Reduce1, Fips1, Rounding, Within, Unpack;
    ghost var values := Values(chunks);
    var h := new Sha1(round, iv);
    var g := KeyBlock1(h, key);
    assert Values(chunks) == values;
    code := Code1(h, g, chunks, last);
  }

  /** The two nested hashes under a key block. */
  method Code1(h: Sha1, g: WordArray, chunks: seq<WordArray>, last: WordArray) returns (code: seq<bv32>)
    requires h.Valid() && g.IsClean() && g.sigBytes <= BLOCK_BYTES
    requires last.IsClean() && 8 * (BLOCK_BYTES + last.sigBytes) + 64 < TWO32
    modifies h, h.scratch
    ensures var message, block := Flatten(old(Values(chunks))) + old(last.Value()), old(g.Value());
            code == HashOf(h.Fips(), PadKey(block, 0x5C) + Unpack(HashOf(h.Fips(), PadKey(block, 0x36) + message)))
  {
    hide HashOf, Bytes, Clean, Harmless, Absorbing, Flatten, PadKey, Reduce1, Fips1, Rounding, Within, IsInt32;
    ghost var values, tail, block := Values(chunks), last.Value(), g.Value();
    var oKey := XorClone(g, 0x5C5C_5C5C, 0x5C);
    var iKey := XorClone(g, 0x3636_3636, 0x36);
    assert Values(chunks) == values;
    var inner := Digest1(h, iKey, chunks, last);
    assert PadKey(block, 0x36) + Flatten(values) + tail == PadKey(block, 0x36) + (Flatten(values) + tail);
    var a := new WordArray(inner, 4 * |inner|);
    FullIsClean(a.words);
    code := Outer1(h, oKey, a);
  }

  /** The second hash: the outer key block followed by the inner digest, handed over as one last piece. */
  method Outer1(h: Sha1, oKey: WordArray, inner: WordArray) returns (digest: seq<bv32>)
    requires h.Valid() && oKey.sigBytes == BLOCK_BYTES && inner.IsClean() && inner.sigBytes <= BLOCK_BYTES
    modifies h, h.scratch
    ensures digest == HashOf(h.Fips(), old(oKey.Value()) + old(inner.Value()))
  {
    hide HashOf, Bytes, Clean, Harmless, Absorbing, Reduce1, Rounding, Within;
    h.Reset();
    var outer := new WordArray(oKey.words, oKey.sigBytes);
    outer.Concat(inner);
    assert h.message + outer.Value() == outer.Value();
    digest := h.Finalize(Some(outer));
  }
}

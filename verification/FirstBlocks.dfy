/** What is left of a ciphertext whose first block was taken for something else, and when it still decrypts right. */
module FirstBlocks {
  import opened Options
  import opened Words
  import opened Streams
  import opened BufferedBlocks
  import opened Cbc

  // ----- Xor on bytes -----

  lemma XorByte0(v: bv32, w: bv32)
    ensures ByteOf(Xor(v, w), 0) == XorByte(ByteOf(v, 0), ByteOf(w, 0))
  {}
  lemma XorByte1(v: bv32, w: bv32)
    ensures ByteOf(Xor(v, w), 1) == XorByte(ByteOf(v, 1), ByteOf(w, 1))
  {}
  lemma XorByte2(v: bv32, w: bv32)
    ensures ByteOf(Xor(v, w), 2) == XorByte(ByteOf(v, 2), ByteOf(w, 2))
  {}
  lemma XorByte3(v: bv32, w: bv32)
    ensures ByteOf(Xor(v, w), 3) == XorByte(ByteOf(v, 3), ByteOf(w, 3))
  {}

  lemma XorBytes(v: bv32, w: bv32, k: nat)
    requires k < 4
    ensures ByteOf(Xor(v, w), k) == XorByte(ByteOf(v, k), ByteOf(w, k))
  {
    hide *;
    if k == 0 { XorByte0(v, w); } else if k == 1 { XorByte1(v, w); }
    else if k == 2 { XorByte2(v, w); } else { assert k == 3; XorByte3(v, w); }
  }

  /** Xor-ing blocks of words is xor-ing their bytes. */
  lemma XorBlockBytes(block: seq<bv32>, mask: seq<bv32>, i: nat)
    requires i < 4 * |block|
    ensures Unpack(XorBlock(block, mask))[i] == XorByte(ByteAt(block, i), ByteAt(mask, i))
  {
    hide ByteOf, Xor, XorByte;
    XorBytes(block[i / 4], Word(mask, i / 4), i % 4);
  }

  /** Trading one mask for another. */
  lemma XorTrade(d: bv8, a: bv8, b: bv8)
    ensures XorByte(d, b) == XorByte(XorByte(d, a), XorByte(a, b))
  {
  }

  // ----- Decrypting the blocks after the first -----

  /** The decryptor's state after a block depends on that block alone. */
  lemma DecForgets(c: Cipher, m: Mode, n: Mode, b: seq<bv8>)
    ensures Dec(c).step(m, b).0 == Dec(c).step(n, b).0 == Mode(None, Pack(b))
  {
  }

  /** One block under two masks. */
  lemma UnderOtherMask(c: Cipher, m: Mode, n: Mode, b: seq<bv8>, i: nat)
    requires Inverse(c) && |b| == BLOCK_BYTES && i < BLOCK_BYTES
    ensures var p, q := Dec(c).step(m, b).1, Dec(c).step(n, b).1;
            |p| == |q| == BLOCK_BYTES && q[i] == XorByte(p[i], XorByte(ByteAt(Mask(m), i), ByteAt(Mask(n), i)))
  {
    hide Pack, Unpack, ByteAt, XorByte, XorBlock, Xor;
    var d := c.decryptBlock(Pack(b));
    UnpackLength(XorBlock(d, Mask(m)));
    UnpackLength(XorBlock(d, Mask(n)));
    XorBlockBytes(d, Mask(m), i);
    XorBlockBytes(d, Mask(n), i);
    XorTrade(ByteAt(d, i), ByteAt(Mask(m), i), ByteAt(Mask(n), i));
  }

  /** Decrypting a block and more is decrypting the block, then the rest after it. */
  lemma RunFirst(c: Cipher, m: Mode, a: seq<bv8>, b: seq<bv8>)
    requires |a| == BLOCK_BYTES
    ensures Run(Dec(c), m, a + b).1 == Dec(c).step(m, a).1 + Run(Dec(c), Mode(None, Pack(a)), b).1
  {
    hide Run, ByteMachine, Pack, Whole;
    WholeMod(BLOCK_BYTES, |a|);
    RunSplit(Dec(c), m, a, b);
    RunOne(Dec(c), m, a);
    DecForgets(c, m, m, a);
  }

  /**
    The coincidence that lets a message of one block through: what its padding block decrypts to under the IV,
    instead of under the first ciphertext block, is the message itself and claims no padding.
   */
  ghost predicate Coincides(iv: seq<bv32>, ct: seq<bv8>, message: seq<bv8>) {
    && |message| == BLOCK_BYTES <= |ct| && message[15] == 0
    && forall i :: 0 <= i < BLOCK_BYTES ==> message[i] == XorByte(0x10, XorByte(ct[i], ByteAt(iv, i)))
  }

  lemma NothingDecrypts(c: Cipher, iv: seq<bv32>)
    requires Inverse(c)
    ensures Decrypt(c, iv, []) == Decoded([])
  {
    hide Raw, FinishDecrypt, Inverse;
    FinishRaw(c, Start(iv), []);
  }

  /** Two ciphertext blocks: the second is left, and is unmasked with the IV. */
  lemma OneBlockLeft(c: Cipher, iv: seq<bv32>, ct: seq<bv8>, message: seq<bv8>)
    requires Inverse(c) && |ct| == 32 && BLOCK_BYTES <= |message| < 32
    requires Run(Dec(c), Start(iv), ct).1 == message + PadBytes(|message|)
    ensures Decrypt(c, iv, ct[BLOCK_BYTES..]) == Decoded(message) <==> Coincides(iv, ct, message)
  {
    hide Run, ByteMachine, Whole, FinishDecrypt, ByteValue, Inverse, XorByte, ByteAt, Pack;
    var a, b := ct[..BLOCK_BYTES], ct[BLOCK_BYTES..];
    var q := Dec(c).step(Start(iv), b).1;
    OneBlock(c, iv, b);
    if |message| == BLOCK_BYTES {
      SecondBlock(c, iv, ct, message);
      ByteValueZero(q[15]);
      assert q[..BLOCK_BYTES] == q;
    }
  }

  lemma OneBlock(c: Cipher, iv: seq<bv32>, b: seq<bv8>)
    requires Inverse(c) && |b| == BLOCK_BYTES
    ensures var q := Dec(c).step(Start(iv), b).1;
            && |q| == BLOCK_BYTES
            && var pad := ByteValue(q[15]);
               Decrypt(c, iv, b) == if pad <= BLOCK_BYTES then Decoded(q[..BLOCK_BYTES - pad]) else Negative
  {
    hide Run, ByteMachine, Whole, FinishDecrypt, ByteValue, Inverse;
    WholeMod(BLOCK_BYTES, |b|);
    FinishWhole(c, Start(iv), b);
    RunOne(Dec(c), Start(iv), b);
  }

  lemma SecondBlock(c: Cipher, iv: seq<bv32>, ct: seq<bv8>, message: seq<bv8>)
    requires Inverse(c) && |ct| == 32 && |message| == BLOCK_BYTES
    requires Run(Dec(c), Start(iv), ct).1 == message + PadBytes(|message|)
    ensures var q := Dec(c).step(Start(iv), ct[BLOCK_BYTES..]).1;
            && |q| == BLOCK_BYTES
            && forall i :: 0 <= i < BLOCK_BYTES ==> q[i] == XorByte(0x10, XorByte(ct[i], ByteAt(iv, i)))
  {
    hide Run, ByteMachine, Whole, Inverse, XorByte, ByteAt, Pack;
    var a, b := ct[..BLOCK_BYTES], ct[BLOCK_BYTES..];
    assert ct == a + b;
    RunFirst(c, Start(iv), a, b);
    WholeMod(BLOCK_BYTES, |b|);
    RunOne(Dec(c), Mode(None, Pack(a)), b);
    UnderOtherMask(c, Start(iv), Start(iv), a, 0);
    var p, q := Dec(c).step(Mode(None, Pack(a)), b).1, Dec(c).step(Start(iv), b).1;
    var o := Dec(c).step(Start(iv), a).1;
    assert message + PadBytes(|message|) == o + p;
    assert PadBytes(|message|) == (o + p)[BLOCK_BYTES..] == p;
    UnderOtherMask(c, Mode(None, Pack(a)), Start(iv), b, 0);
    forall i | 0 <= i < BLOCK_BYTES ensures q[i] == XorByte(0x10, XorByte(ct[i], ByteAt(iv, i))) {
      UnderOtherMask(c, Mode(None, Pack(a)), Start(iv), b, i);
      ByteAtPack(a, i);
    }
  }

  /** From the third block on, nothing of the first is felt: the last byte is the same. */
  lemma SameLast(c: Cipher, iv: seq<bv32>, ct: seq<bv8>)
    requires Inverse(c) && |ct| >= 48 && Whole(BLOCK_BYTES, |ct|)
    ensures var full, short := Run(Dec(c), Start(iv), ct).1, Run(Dec(c), Start(iv), ct[BLOCK_BYTES..]).1;
            full != [] && short != [] && full[|full| - 1] == short[|short| - 1]
    ensures Whole(BLOCK_BYTES, |ct| - BLOCK_BYTES)
  {
    hide Run, ByteMachine, Whole, FinishDecrypt, ByteValue, Inverse, Pack;
    var a, rest := ct[..BLOCK_BYTES], ct[BLOCK_BYTES..];
    var b, r := rest[..BLOCK_BYTES], rest[BLOCK_BYTES..];
    assert ct == a + rest && rest == b + r;
    WholeMod(BLOCK_BYTES, |a|);
    WholeSum(BLOCK_BYTES, |a|, |rest|);
    WholeSum(BLOCK_BYTES, |b|, |r|);
    RunFirst(c, Start(iv), a, rest);
    RunFirst(c, Mode(None, Pack(a)), b, r);
    RunFirst(c, Start(iv), b, r);
    FinishWhole(c, Mode(None, Pack(b)), r);
    var tail := Run(Dec(c), Mode(None, Pack(b)), r).1;
    LastOf(Dec(c).step(Mode(None, Pack(a)), b).1, tail);
    LastOf(Dec(c).step(Start(iv), a).1, Dec(c).step(Mode(None, Pack(a)), b).1 + tail);
    LastOf(Dec(c).step(Start(iv), b).1, tail);
  }

  lemma LastOf(x: seq<bv8>, y: seq<bv8>)
    requires y != []
    ensures (x + y)[|x + y| - 1] == y[|y| - 1]
  {
  }

  /** Three blocks or more: the padding is found as before, and the message comes out a block too short. */
  lemma MoreLeft(c: Cipher, iv: seq<bv32>, ct: seq<bv8>, message: seq<bv8>)
    requires Inverse(c) && |ct| >= 48 && Whole(BLOCK_BYTES, |ct|) && |ct| == |message| + PadLength(|message|)
    requires Run(Dec(c), Start(iv), ct).1 == message + PadBytes(|message|)
    ensures Decrypt(c, iv, ct[BLOCK_BYTES..]) != Decoded(message)
  {
    hide Run, ByteMachine, Whole, FinishDecrypt, ByteValue, Inverse;
    SameLast(c, iv, ct);
    FinishWhole(c, Start(iv), ct[BLOCK_BYTES..]);
    ValueOfByte(PadLength(|message|));
  }

  /** Without its first block an encryption decrypts to the message exactly for the empty message, or by coincidence. */
  lemma WithoutFirstBlock(c: Cipher, iv: seq<bv32>, message: seq<bv8>)
    requires Inverse(c)
    ensures var ct := Encrypt(c, iv, message);
            |ct| >= BLOCK_BYTES
            && (Decrypt(c, iv, ct[BLOCK_BYTES..]) == Decoded(message) <==> message == [] || Coincides(iv, ct, message))
  {
    hide Run, Whole, Encrypt, Decrypt, PadBytes, ByteValue, Inverse, XorByte;
    var ct := Encrypt(c, iv, message);
    EncryptionIsWhole(c, iv, message);
    WholeMod(BLOCK_BYTES, |ct|);
    if |ct| == BLOCK_BYTES {
      NothingDecrypts(c, iv);
      assert ct[BLOCK_BYTES..] == [];
    } else if |ct| == 32 {
      OneBlockLeft(c, iv, ct, message);
    } else {
      MoreLeft(c, iv, ct, message);
    }
  }
}

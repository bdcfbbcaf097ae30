/** Block ciphers in CBC mode with PKCS#7 padding (section 6.3 of RFC 5652), one-shot and streamed. */
module Cbc {
  import opened Options
  import opened Words
  import opened WordArrays
  import opened Streams
  import opened BufferedBlocks

  const BLOCK_WORDS: nat := 4
  const BLOCK_BYTES: nat := 16

  /** The block transformation of one key, kept abstract. */
  datatype Cipher = Cipher(encryptBlock: seq<bv32> -> seq<bv32>, decryptBlock: seq<bv32> -> seq<bv32>)

  ghost predicate Inverse(c: Cipher) {
    forall x: seq<bv32> :: |x| == BLOCK_WORDS ==>
      |c.encryptBlock(x)| == BLOCK_WORDS && |c.decryptBlock(x)| == BLOCK_WORDS && c.decryptBlock(c.encryptBlock(x)) == x
  }

  /** The mode object: an IV that is used once, then the previous ciphertext block. */
  datatype Mode = Mode(iv: Option<seq<bv32>>, prevBlock: seq<bv32>)

  function Mask(m: Mode): seq<bv32> { if m.iv.Some? then m.iv.value else m.prevBlock }

  function XorBlock(block: seq<bv32>, mask: seq<bv32>): (r: seq<bv32>)
    ensures |r| == |block|
  {
    seq(|block|, i requires 0 <= i < |block| => Xor(block[i], Word(mask, i)))
  }

  function EncryptStep(c: Cipher): (Mode, seq<bv32>) -> (Mode, seq<bv32>) {
    (m: Mode, block: seq<bv32>) =>
      var y := c.encryptBlock(XorBlock(block, Mask(m)));
      (Mode(None, y), y)
  }

  function DecryptStep(c: Cipher): (Mode, seq<bv32>) -> (Mode, seq<bv32>) {
    (m: Mode, block: seq<bv32>) => (Mode(None, block), XorBlock(c.decryptBlock(block), Mask(m)))
  }

  /** The mode's two processBlock methods, which rewrite one block of the words in place. */
  class CbcMode {
    const cipher: Cipher
    var mode: Mode

    constructor (cipher: Cipher, iv: seq<bv32>)
      ensures this.cipher == cipher && mode == Mode(Some(iv), [])
    {
      this.cipher, mode := cipher, Mode(Some(iv), []);
    }

    /** The helper both share: takes the IV once, then the previous block, and xors it in word by word. */
    method XorMask(words: array<bv32>, offset: nat)
      requires offset + BLOCK_WORDS <= words.Length
      modifies this`mode, words
      ensures mode == old(mode).(iv := None)
      ensures words[..] == old(words[..offset]) + XorBlock(old(words[offset..offset + 4]), Mask(old(mode)))
              + old(words[offset + 4..])
    {
      hide Xor;
      var c := Mask(mode);
      mode := mode.(iv := None);
      var d := 0;
      while d < BLOCK_WORDS
        invariant d <= BLOCK_WORDS && mode == old(mode).(iv := None)
        invariant forall i :: 0 <= i < words.Length ==>
          words[i] == if offset <= i < offset + d then Xor(old(words[i]), Word(c, i - offset)) else old(words[i])
      {
        words[offset + d] := Xor(words[offset + d], Word(c, d));
        d := d + 1;
      }
      ghost var block := XorBlock(old(words[offset..offset + 4]), c);
      assert words[offset..offset + 4] == block by {
        forall i | 0 <= i < BLOCK_WORDS ensures words[offset + i] == block[i] {}
      }
      assert words[..offset] == old(words[..offset]) && words[offset + 4..] == old(words[offset + 4..]);
      assert words[..] == words[..offset] + words[offset..offset + 4] + words[offset + 4..];
    }

    method EncryptorProcessBlock(words: array<bv32>, offset: nat)
      requires offset + BLOCK_WORDS <= words.Length && Inverse(cipher)
      modifies this`mode, words
      ensures var r := EncryptStep(cipher)(old(mode), old(words[offset..offset + 4]));
              mode == r.0 && words[..] == old(words[..offset]) + r.1 + old(words[offset + 4..])
    {
      hide XorBlock;
      XorMask(words, offset);
      var block := words[offset..offset + 4];
      Store(words, offset, cipher.encryptBlock(block));
      mode := mode.(prevBlock := words[offset..offset + 4]);
    }

    method DecryptorProcessBlock(words: array<bv32>, offset: nat)
      requires offset + BLOCK_WORDS <= words.Length && Inverse(cipher)
      modifies this`mode, words
      ensures var r := DecryptStep(cipher)(old(mode), old(words[offset..offset + 4]));
              mode == r.0 && words[..] == old(words[..offset]) + r.1 + old(words[offset + 4..])
    {
      hide XorBlock;
      ghost var left, right := words[..offset], words[offset + 4..];
      var thisBlock := words[offset..offset + 4];
      ghost var y := cipher.decryptBlock(thisBlock);
      Store(words, offset, cipher.decryptBlock(thisBlock));
      assert words[..offset] == left && words[offset + 4..] == right && words[offset..offset + 4] == y;
      XorMask(words, offset);
      mode := mode.(prevBlock := thisBlock);
    }

    /** Block after block in place: the same run of the block machine that the buffer's sweep makes. */
    method ProcessBlocks(encrypting: bool, words: array<bv32>, n: nat)
      requires BLOCK_WORDS * n <= words.Length && Inverse(cipher)
      modifies this`mode, words
      ensures words[BLOCK_WORDS * n..] == old(words[BLOCK_WORDS * n..])
      ensures (mode, Unpack(words[..BLOCK_WORDS * n]))
           == Run(if encrypting then Enc(cipher) else Dec(cipher), old(mode), Bytes(old(words[..]), BLOCK_BYTES * n))
    {
      hide Run, Bytes, Slice, ByteMachine, Whole, EncryptStep, DecryptStep, Inverse, Unpack, Sized;
      ghost var w0, step, hold := words[..], StepOf(cipher, encrypting), if encrypting then 0 else 1;
      StepsSized(cipher);
      SweepNone(step, BLOCK_WORDS, hold, mode, w0);
      var g := 0;
      while g < BLOCK_WORDS * n
        invariant g <= BLOCK_WORDS * n && g % BLOCK_WORDS == 0 && Whole(BLOCK_BYTES, 4 * g)
        invariant words[g..] == w0[g..]
        invariant (mode, Unpack(words[..g])) == Run(ByteMachine(step, BLOCK_WORDS, hold), old(mode), Bytes(w0, 4 * g))
      {
        ghost var before, m := words[..], mode;
        SweepOne(step, BLOCK_WORDS, hold, old(mode), w0, g, before[..g], m);
        SliceInside(w0, g, BLOCK_WORDS);
        assert before[g..g + 4] == before[g..][..4] == w0[g..][..4] == w0[g..g + 4];
        if encrypting { EncryptorProcessBlock(words, g); } else { DecryptorProcessBlock(words, g); }
        assert words[g + 4..] == words[..][g + 4..] == before[g + 4..];
        assert before[g + 4..] == before[g..][4..] == w0[g..][4..] == w0[g + 4..];
        g := g + BLOCK_WORDS;
      }
    }
  }

  function StepOf(c: Cipher, encrypting: bool): (Mode, seq<bv32>) -> (Mode, seq<bv32>) {
    if encrypting then EncryptStep(c) else DecryptStep(c)
  }

  lemma SliceInside(ws: seq<bv32>, g: nat, n: nat)
    requires g + n <= |ws|
    ensures Slice(ws, g, n) == ws[g..g + n]
  {
    forall k | 0 <= k < n ensures Slice(ws, g, n)[k] == ws[g..g + n][k] {
      assert Slice(ws, g, n)[k] == Word(ws, g + k);
    }
  }

  method Store(words: array<bv32>, offset: nat, block: seq<bv32>)
    requires offset + |block| <= words.Length
    modifies words
    ensures words[..] == old(words[..offset]) + block + old(words[offset + |block|..])
    ensures words[offset..offset + |block|] == block
  {
    forall i | 0 <= i < |block| { words[offset + i] := block[i]; }
  }

  // ----- Padding -----

  function PadLength(n: nat): (c: nat)
    ensures 1 <= c <= BLOCK_BYTES && (n + c) % BLOCK_BYTES == 0
  {
    BLOCK_BYTES - n % BLOCK_BYTES
  }

  function PadBytes(n: nat): (p: seq<bv8>)
    ensures |p| == PadLength(n)
  {
    var c := PadLength(n);
    seq(c, _ => ToByte(c))
  }

  method Pad(a: WordArray)
    modifies a
    ensures a.Value() == old(a.Value()) + PadBytes(old(a.sigBytes))
    ensures forall i :: old(a.sigBytes) <= i < a.sigBytes ==> ByteValue(a.Value()[i]) == a.sigBytes - old(a.sigBytes)
  {
    hide Bytes, ByteOf, Four, ToByte, ByteValue;
    var c := PadLength(a.sigBytes);
    var d := Four(ToByte(c), ToByte(c), ToByte(c), ToByte(c));
    var l := [];
    var n := 0;
    while n < c
      invariant n % 4 == 0 && n <= c + 3 && |l| == n / 4
      invariant forall i :: 0 <= i < |l| ==> l[i] == d
    {
      l := l + [d];
      n := n + 4;
    }
    var padding := new WordArray(l, c);
    PadWords(l, d, c);
    a.Concat(padding);
    EveryPadByte(old(a.sigBytes));
  }

  /** Section 6.3 of RFC 5652: every byte of the padding is its length. */
  lemma EveryPadByte(n: nat)
    ensures forall i :: 0 <= i < |PadBytes(n)| ==> ByteValue(PadBytes(n)[i]) == |PadBytes(n)|
  {
    hide ToByte, ByteValue;
    ValueOfByte(PadLength(n));
  }

  lemma PadWords(l: seq<bv32>, d: bv32, c: nat)
    requires c <= BLOCK_BYTES && d == Four(ToByte(c), ToByte(c), ToByte(c), ToByte(c)) && c <= 4 * |l|
    requires forall i :: 0 <= i < |l| ==> l[i] == d
    ensures Bytes(l, c) == seq(c, _ => ToByte(c))
  {
    hide ByteOf, Four, ToByte;
    BytesOfFour(ToByte(c), ToByte(c), ToByte(c), ToByte(c));
    forall i: nat | i < c ensures ByteAt(l, i) == ToByte(c) {
      assert Word(l, i / 4) == d;
      if i % 4 == 0 {} else if i % 4 == 1 {} else if i % 4 == 2 {} else { assert i % 4 == 3; }
    }
  }

  /**
    Lowers the byte count by the low byte of the last word.  The source lets the count go below zero on
    malformed input; r is that count, and the object is left alone then.
   */
  method Unpad(a: WordArray) returns (r: int)
    modifies a
    ensures r == old(a.sigBytes) - PadCount(old(a.words), old(a.sigBytes))
    ensures r >= 0 ==> a.sigBytes == r && a.Value() == old(a.Value())[..r]
    ensures r < 0 ==> a.Value() == old(a.Value())
    ensures var n := old(a.sigBytes); n > 0 && n % 4 == 0 ==> r == n - ByteValue(old(a.Value())[n - 1])
  {
    hide ByteOf, ByteValue;
    r := a.sigBytes - PadCount(a.words, a.sigBytes);
    if a.sigBytes > 0 && a.sigBytes % 4 == 0 { assert (a.sigBytes - 1) % 4 == 3; }
    if r >= 0 {
      a.sigBytes := r;
    }
  }

  function PadCount(words: seq<bv32>, n: nat): nat {
    if n == 0 then 0 else ByteValue(ByteOf(Word(words, (n - 1) / 4), 3))
  }

  // ----- What encryption and decryption compute -----

  function Enc(c: Cipher): Machine<Mode> { ByteMachine(EncryptStep(c), BLOCK_WORDS, 0) }

  /** The decryptor keeps one block back until the end, because it may hold the padding. */
  function Dec(c: Cipher): Machine<Mode> { ByteMachine(DecryptStep(c), BLOCK_WORDS, 1) }

  function Start(iv: seq<bv32>): Mode { Mode(Some(iv), []) }

  /** A decryption: the bytes, or the negative byte count that malformed padding leaves behind. */
  datatype Plain = Decoded(bytes: seq<bv8>) | Negative

  function Encrypt(c: Cipher, iv: seq<bv32>, message: seq<bv8>): seq<bv8> {
    Run(Enc(c), Start(iv), message + PadBytes(|message|)).1
  }

  /** Removes from the first n bytes of `full` as many as the last byte of its last word says. */
  function Unpadded(full: seq<bv8>, n: nat): Plain
    requires n <= |full| && |full| % 4 == 0
  {
    var pad := if n == 0 then 0 else ByteValue(full[4 * ((n - 1) / 4) + 3]);
    if pad <= n then Decoded(full[..n - pad]) else Negative
  }

  /** What a ciphertext of any length decrypts to, before the padding is removed. */
  function Raw(c: Cipher, m: Mode, ct: seq<bv8>): seq<bv8> { Run(Dec(c), m, Filled(ct, BLOCK_BYTES)).1 }

  function FinishDecrypt(c: Cipher, m: Mode, rest: seq<bv8>): Plain {
    var full := Raw(c, m, rest);
    if |rest| <= |full| && |full| % 4 == 0 then Unpadded(full, |rest|) else Negative
  }

  function Decrypt(c: Cipher, iv: seq<bv32>, ciphertext: seq<bv8>): Plain {
    FinishDecrypt(c, Start(iv), ciphertext)
  }

  // ----- The BlockCipher object -----

  class BlockCipher {
    const cipher: Cipher
    const encrypting: bool
    const buf: Buffered<Mode>

    ghost predicate Valid()
      reads this
    {
      && Inverse(cipher) && buf.Valid() && buf.blockSize == BLOCK_WORDS
      && buf.step == StepOf(cipher, encrypting)
      && buf.minBufferSize == if encrypting then 0 else 1
    }

    function M(): Machine<Mode> { if encrypting then Enc(cipher) else Dec(cipher) }

    constructor (cipher: Cipher, encrypting: bool, iv: seq<bv32>)
      requires Inverse(cipher)
      ensures Valid() && this.cipher == cipher && this.encrypting == encrypting
      ensures fresh(buf) && fresh(buf.data) && buf.data.Value() == [] && buf.data.IsClean() && buf.state == Start(iv)
    {
      StepsSized(cipher);
      this.cipher, this.encrypting := cipher, encrypting;
      buf := new Buffered(StepOf(cipher, encrypting), BLOCK_WORDS, if encrypting then 0 else 1, Start(iv));
    }

    method Process(chunk: WordArray) returns (out: WordArray)
      requires Valid() && chunk != buf.data
      modifies buf, buf.data
      ensures buf.data == old(buf.data) && fresh(out)
      ensures Fed(buf.state, buf.data.Value(), out.Value())
           == Feed(M(), old(buf.state), old(buf.data.Value()), old(chunk.Value()))
      ensures old(chunk.IsClean()) ==> buf.data.IsClean()
    {
      hide Drain, Bytes;
      buf.Append(chunk);
      out := buf.Process(false);
    }

    method FinalizeEncryption(last: Option<WordArray>) returns (out: WordArray)
      requires Valid() && encrypting && (last.Some? ==> last.value != buf.data)
      modifies buf, buf.data
      ensures var rest := old(buf.data.Value()) + (if last.Some? then old(last.value.Value()) else []);
              fresh(out) && out.Value() == Run(M(), old(buf.state), rest + PadBytes(|rest|)).1
    {
      hide Run, Bytes, ByteMachine, Whole, Filled;
      if last.Some? { buf.Append(last.value); }
      ghost var rest := buf.data.Value();
      assert rest == old(buf.data.Value()) + if last.Some? then old(last.value.Value()) else [];
      Pad(buf.data);
      WholeMod(BLOCK_BYTES, buf.data.sigBytes);
      FilledWhole(rest + PadBytes(|rest|), BLOCK_BYTES);
      StepsSized(cipher);
      RunLength(EncryptStep(cipher), 0, buf.state, rest + PadBytes(|rest|));
      out := buf.Process(true);
    }

    /** The plaintext, or Negative when the padding asks for more bytes than the last piece has. */
    method FinalizeDecryption(last: Option<WordArray>) returns (out: WordArray, count: int)
      requires Valid() && !encrypting && (last.Some? ==> last.value != buf.data)
      requires || Whole(BLOCK_BYTES, buf.data.sigBytes + if last.Some? then last.value.sigBytes else 0)
               || (if last.Some? then last.value.IsClean() else buf.data.IsClean())
      modifies buf, buf.data
      ensures var rest := old(buf.data.Value()) + (if last.Some? then old(last.value.Value()) else []);
              FinishDecrypt(cipher, old(buf.state), rest) == if count >= 0 then Decoded(out.Value()) else Negative
    {
      hide Run, Bytes, ByteMachine, Whole, Filled, Clean, FinishDecrypt, PadCount, Unpack, Inverse, Sized;
      if last.Some? { buf.Append(last.value); }
      ghost var rest, s := buf.data.Value(), buf.state;
      assert rest == old(buf.data.Value()) + if last.Some? then old(last.value.Value()) else [];
      out := buf.Process(true);
      UnpadFinishes(cipher, s, rest, out.words);
      count := Unpad(out);
    }
  }

  /** Unpadding the flushed words is what FinishDecrypt says. */
  lemma UnpadFinishes(c: Cipher, m: Mode, rest: seq<bv8>, words: seq<bv32>)
    requires Inverse(c) && Unpack(words) == Raw(c, m, rest)
    ensures var count := |rest| - PadCount(words, |rest|);
            && |rest| <= |Unpack(words)|
            && FinishDecrypt(c, m, rest) == if count >= 0 then Decoded(Unpack(words)[..|rest|][..count]) else Negative
  {
    hide Raw, FinishDecrypt, PadCount, ByteValue, Unpack, Inverse;
    FinishRaw(c, m, rest);
    RawLength(c, m, rest);
    UnpackLength(words);
    LastByte(words, |rest|);
    if rest != [] { PadIndex(|rest|, |Unpack(words)|); }
    var full, count := Unpack(words), |rest| - PadCount(words, |rest|);
    if 0 <= count { assert full[..|rest|][..count] == full[..count]; }
  }

  lemma StepsSized(c: Cipher)
    requires Inverse(c)
    ensures Sized(EncryptStep(c), BLOCK_WORDS) && Sized(DecryptStep(c), BLOCK_WORDS)
  {
    forall m: Mode, b: seq<bv32> | |b| == BLOCK_WORDS
      ensures |EncryptStep(c)(m, b).1| == BLOCK_WORDS && |DecryptStep(c)(m, b).1| == BLOCK_WORDS
    {
      assert |XorBlock(b, Mask(m))| == BLOCK_WORDS;
    }
  }

  lemma LastByte(words: seq<bv32>, n: nat)
    requires n <= 4 * |words|
    ensures PadCount(words, n) == if n == 0 then 0 else ByteValue(Unpack(words)[4 * ((n - 1) / 4) + 3])
  {
    hide ByteOf, ByteValue;
  }

  /** Whole blocks in, as many bytes out. */
  lemma {:induction false} RunLength(step: (Mode, seq<bv32>) -> (Mode, seq<bv32>), hold: nat, m: Mode, input: seq<bv8>)
    requires Sized(step, BLOCK_WORDS) && Whole(BLOCK_BYTES, |input|)
    ensures |Run(ByteMachine(step, BLOCK_WORDS, hold), m, input).1| == |input|
    decreases |input|
  {
    if input != [] {
      var machine := ByteMachine(step, BLOCK_WORDS, hold);
      var r := machine.step(m, input[..BLOCK_BYTES]);
      UnpackLength(step(m, Pack(input[..BLOCK_BYTES])).1);
      assert |r.1| == BLOCK_BYTES;
      RunLength(step, hold, r.0, input[BLOCK_BYTES..]);
    }
  }

  // ----- The chaining equations of section 6.2 of NIST SP 800-38A, block by block -----

  function Block(bs: seq<bv8>, j: nat): seq<bv32>
    requires BLOCK_BYTES * (j + 1) <= |bs|
  {
    Pack(bs[BLOCK_BYTES * j..BLOCK_BYTES * (j + 1)])
  }

  /** Block j of a string behind a first block is block j + 1 of the whole. */
  lemma BlockBehind(a: seq<bv8>, rest: seq<bv8>, j: nat)
    requires |a| == BLOCK_BYTES && BLOCK_BYTES * (j + 1) <= |rest|
    ensures Block(a + rest, j + 1) == Block(rest, j)
  {
    hide Pack;
    assert (a + rest)[BLOCK_BYTES * (j + 1)..BLOCK_BYTES * (j + 2)] == rest[BLOCK_BYTES * j..BLOCK_BYTES * (j + 1)];
  }

  lemma BlockFirst(a: seq<bv8>, rest: seq<bv8>)
    requires |a| == BLOCK_BYTES
    ensures Block(a + rest, 0) == Pack(a)
  {
    hide Pack;
    assert (a + rest)[BLOCK_BYTES * 0..BLOCK_BYTES * (0 + 1)] == a;
  }

  lemma {:induction false} EncryptedBlock(c: Cipher, m: Mode, p: seq<bv8>, j: nat)
    requires Inverse(c) && Whole(BLOCK_BYTES, |p|) && BLOCK_BYTES * (j + 1) <= |p|
    ensures var ct := Run(Enc(c), m, p).1;
            && |ct| == |p|
            && Block(ct, j) == c.encryptBlock(XorBlock(Block(p, j), if j == 0 then Mask(m) else Block(ct, j - 1)))
    decreases |p|
  {
    hide ByteMachine, Inverse, Block, Pack, Unpack, XorBlock;
    var b, rest := p[..BLOCK_BYTES], p[BLOCK_BYTES..];
    assert p == b + rest;
    var y := c.encryptBlock(XorBlock(Pack(b), Mask(m)));
    EncryptOne(c, m, b);
    StepsSized(c);
    RunLength(EncryptStep(c), 0, m, p);
    RunLength(EncryptStep(c), 0, Mode(None, y), rest);
    var out := Run(Enc(c), Mode(None, y), rest).1;
    assert Run(Enc(c), m, p).1 == Unpack(y) + out;
    BlockFirst(Unpack(y), out);
    BlockFirst(b, rest);
    PackOfUnpack(y);
    if j > 0 {
      EncryptedBlock(c, Mode(None, y), rest, j - 1);
      BlockBehind(b, rest, j - 1);
      BlockBehind(Unpack(y), out, j - 1);
      if j > 1 { BlockBehind(Unpack(y), out, j - 2); }
    }
  }

  lemma EncryptOne(c: Cipher, m: Mode, b: seq<bv8>)
    requires Inverse(c) && |b| == BLOCK_BYTES
    ensures var y := c.encryptBlock(XorBlock(Pack(b), Mask(m)));
            Enc(c).step(m, b) == (Mode(None, y), Unpack(y)) && |Unpack(y)| == BLOCK_BYTES
  {
    hide Pack, Unpack;
    UnpackLength(c.encryptBlock(XorBlock(Pack(b), Mask(m))));
  }

  /** Each ciphertext block encrypts its padded block xor the ciphertext block before it, the first one xor the IV. */
  lemma CbcEncryption(c: Cipher, iv: seq<bv32>, message: seq<bv8>, j: nat) returns (x: seq<bv32>)
    requires Inverse(c) && BLOCK_BYTES * (j + 1) <= |message| + PadLength(|message|)
    ensures var p, ct := message + PadBytes(|message|), Encrypt(c, iv, message);
            && |ct| == |p| && |x| == BLOCK_WORDS && Block(ct, j) == c.encryptBlock(x)
            && forall i :: 0 <= i < BLOCK_WORDS ==>
                 x[i] == Xor(Block(p, j)[i], Word(if j == 0 then iv else Block(ct, j - 1), i))
  {
    hide Run, Whole, Inverse, Xor, PadBytes;
    var p := message + PadBytes(|message|);
    WholeMod(BLOCK_BYTES, |p|);
    EncryptedBlock(c, Start(iv), p, j);
    x := XorBlock(Block(p, j), if j == 0 then iv else Block(Encrypt(c, iv, message), j - 1));
  }

  // ----- Decryption undoes encryption -----

  lemma XorTwice(a: bv32, b: bv32)
    ensures Xor(Xor(a, b), b) == a
  {
  }

  lemma XorBlockTwice(block: seq<bv32>, mask: seq<bv32>)
    ensures XorBlock(XorBlock(block, mask), mask) == block
  {
    hide Xor;
    forall i | 0 <= i < |block| ensures XorBlock(XorBlock(block, mask), mask)[i] == block[i] {
      XorTwice(block[i], Word(mask, i));
    }
  }

  /** One block through both steps, from modes that agree on what to xor in. */
  lemma StepRoundTrip(c: Cipher, em: Mode, dm: Mode, b: seq<bv8>)
    requires Inverse(c) && Mask(em) == Mask(dm) && |b| == BLOCK_BYTES
    ensures var e := Enc(c).step(em, b);
            var d := Dec(c).step(dm, e.1);
            |e.1| == BLOCK_BYTES && d.1 == b && Mask(e.0) == Mask(d.0)
  {
    hide XorBlock, Pack, Unpack;
    var x := Pack(b);
    var masked := XorBlock(x, Mask(em));
    var y := c.encryptBlock(masked);
    UnpackOfPack(b);
    PackOfUnpack(y);
    XorBlockTwice(x, Mask(em));
    assert Enc(c).step(em, b) == (Mode(None, y), Unpack(y));
    assert |y| == BLOCK_WORDS && |Unpack(y)| == 4 * |y| by { UnpackLength(y); }
  }

  lemma {:induction false} RunRoundTrip(c: Cipher, em: Mode, dm: Mode, p: seq<bv8>)
    requires Inverse(c) && Mask(em) == Mask(dm) && Whole(BLOCK_BYTES, |p|)
    ensures Run(Dec(c), dm, Run(Enc(c), em, p).1).1 == p
    decreases |p|
  {
    hide ByteMachine;
    if p != [] {
      var b, rest := p[..BLOCK_BYTES], p[BLOCK_BYTES..];
      var e := Enc(c).step(em, b);
      var ct := Run(Enc(c), e.0, rest).1;
      StepRoundTrip(c, em, dm, b);
      var d := Dec(c).step(dm, e.1);
      RunRoundTrip(c, e.0, d.0, rest);
      assert Run(Enc(c), em, p).1 == e.1 + ct;
      assert (e.1 + ct)[..BLOCK_BYTES] == e.1 && (e.1 + ct)[BLOCK_BYTES..] == ct;
      assert p == b + rest;
    }
  }

  /** Facts about every encryption: whole blocks, and decrypting gives back the padded message. */
  lemma EncryptionIsWhole(c: Cipher, iv: seq<bv32>, message: seq<bv8>)
    requires Inverse(c)
    ensures var ct := Encrypt(c, iv, message);
            var padded := message + PadBytes(|message|);
            && |ct| == |padded| && Whole(BLOCK_BYTES, |ct|)
            && Run(Dec(c), Start(iv), ct).1 == padded
            && ByteValue(padded[|padded| - 1]) == PadLength(|message|)
  {
    hide Run;
    var padded := message + PadBytes(|message|);
    WholeMod(BLOCK_BYTES, |padded|);
    StepsSized(c);
    RunLength(EncryptStep(c), 0, Start(iv), padded);
    RunRoundTrip(c, Start(iv), Start(iv), padded);
    ValueOfByte(PadLength(|message|));
  }

  /** Decrypting an encryption returns the message: every message, IV and invertible cipher. */
  lemma RoundTrip(c: Cipher, iv: seq<bv32>, message: seq<bv8>)
    requires Inverse(c)
    ensures Decrypt(c, iv, Encrypt(c, iv, message)) == Decoded(message)
  {
    hide Run, Whole, Filled, Encrypt, PadBytes, FinishDecrypt;
    var ct := Encrypt(c, iv, message);
    var padded := message + PadBytes(|message|);
    EncryptionIsWhole(c, iv, message);
    FinishWhole(c, Start(iv), ct);
    assert padded[..|message|] == message;
  }

  // ----- Streaming equals one shot -----

  lemma PadSame(k: nat, n: nat)
    requires Whole(BLOCK_BYTES, k)
    ensures PadBytes(k + n) == PadBytes(n)
  {
    hide Whole;
    WholeMod(BLOCK_BYTES, k);
    PadLengthSame(k, n);
  }

  lemma PadLengthSame(k: nat, n: nat)
    requires k % BLOCK_BYTES == 0
    ensures PadLength(k + n) == PadLength(n)
  {
    assert (k + n) % BLOCK_BYTES == n % BLOCK_BYTES;
  }

  lemma LastIndex(n: nat)
    requires n > 0 && n % BLOCK_BYTES == 0
    ensures 4 * ((n - 1) / 4) + 3 == n - 1 && n % 4 == 0
  {
  }

  /** For every split of the message, the outputs of the encryptor concatenate to the one-shot ciphertext. */
  lemma StreamedEncryption(c: Cipher, iv: seq<bv32>, chunks: seq<seq<bv8>>, last: seq<bv8>)
    ensures var fed := FeedAll(Enc(c), Start(iv), [], chunks);
            var rest := fed.rest + last;
            fed.out + Run(Enc(c), fed.state, rest + PadBytes(|rest|)).1 == Encrypt(c, iv, Flatten(chunks) + last)
  {
    hide Run, FeedAll, Flatten, Whole, ByteMachine, PadBytes;
    var m := Enc(c);
    var fed := FeedAll(m, Start(iv), [], chunks);
    var k := FeedAllIsRun(m, Start(iv), [], chunks);
    var message := Flatten(chunks) + last;
    var rest := fed.rest + last;
    assert [] + Flatten(chunks) == Flatten(chunks);
    assert |message| == k + |rest|;
    PadSame(k, |rest|);
    var tail := last + PadBytes(|message|);
    StreamThenTail(m, Start(iv), chunks, tail);
    assert Flatten(chunks) + tail == message + PadBytes(|message|);
    assert fed.rest + tail == rest + PadBytes(|rest|);
  }

  /** The pad byte of a ciphertext: the last byte of the last word that its bytes reach into. */
  function PadByte(c: Cipher, m: Mode, ct: seq<bv8>): nat {
    var i := 4 * ((|ct| - 1) / 4) + 3;
    if ct == [] || |Raw(c, m, ct)| <= i then 0 else ByteValue(Raw(c, m, ct)[i])
  }

  /** What a streamed decryption yields: the outputs so far, then the last piece without its padding. */
  function StreamedDecryption(c: Cipher, iv: seq<bv32>, chunks: seq<seq<bv8>>, last: seq<bv8>): Plain {
    var fed := FeedAll(Dec(c), Start(iv), [], chunks);
    match FinishDecrypt(c, fed.state, fed.rest + last)
    case Decoded(bytes) => Decoded(fed.out + bytes)
    case Negative => Negative
  }

  lemma FinishWhole(c: Cipher, m: Mode, rest: seq<bv8>)
    requires Inverse(c) && Whole(BLOCK_BYTES, |rest|) && rest != []
    ensures var full := Run(Dec(c), m, rest).1;
            && |full| == |rest|
            && var pad := ByteValue(full[|full| - 1]);
               FinishDecrypt(c, m, rest) == if pad <= |full| then Decoded(full[..|full| - pad]) else Negative
  {
    hide Run, ByteMachine, Whole, Filled, Sized, ByteValue, Inverse;
    FilledWhole(rest, BLOCK_BYTES);
    StepsSized(c);
    RunLength(DecryptStep(c), 1, m, rest);
    WholeMod(BLOCK_BYTES, |rest|);
    LastIndex(|rest|);
  }

  lemma RawLength(c: Cipher, m: Mode, ct: seq<bv8>)
    requires Inverse(c)
    ensures |Raw(c, m, ct)| == |Filled(ct, BLOCK_BYTES)| >= |ct| && |Raw(c, m, ct)| % BLOCK_BYTES == 0
  {
    hide Run, ByteMachine, Whole, Filled, Sized, Inverse;
    FilledIsLeast(ct, BLOCK_BYTES);
    StepsSized(c);
    RunLength(DecryptStep(c), 1, m, Filled(ct, BLOCK_BYTES));
    WholeMod(BLOCK_BYTES, |Filled(ct, BLOCK_BYTES)|);
  }

  /** Finishing cuts the pad byte's worth off the raw bytes of any piece, or goes negative. */
  lemma FinishRaw(c: Cipher, m: Mode, rest: seq<bv8>)
    requires Inverse(c)
    ensures |rest| <= |Raw(c, m, rest)|
    ensures var pad := PadByte(c, m, rest);
            FinishDecrypt(c, m, rest)
            == if pad <= |rest| then Decoded(Raw(c, m, rest)[..|rest| - pad]) else Negative
  {
    hide Raw, ByteValue, Inverse;
    RawLength(c, m, rest);
    if rest != [] { PadIndex(|rest|, |Raw(c, m, rest)|); }
  }

  lemma PadIndex(n: nat, size: nat)
    requires 0 < n <= size && size % BLOCK_BYTES == 0
    ensures 4 * ((n - 1) / 4) + 3 < size && size % 4 == 0
  {
    var q := size / BLOCK_BYTES;
    assert size == 4 * (4 * q);
    assert (n - 1) / 4 < 4 * q;
  }

  /** Zero-filling commutes with cutting whole blocks off the front. */
  lemma FilledTail(a: seq<bv8>, b: seq<bv8>)
    requires Whole(BLOCK_BYTES, |a|)
    ensures Filled(a + b, BLOCK_BYTES) == a + Filled(b, BLOCK_BYTES)
  {
    hide Whole;
    WholeMod(BLOCK_BYTES, |a|);
    var q, n := |a| / BLOCK_BYTES, |b|;
    assert |a| == 16 * q;
    assert (16 * q + n + 15) / 16 == q + (n + 15) / 16;
  }

  /** A stream's outputs are the raw bytes up to the piece it holds: a block at least, once it put out any. */
  lemma StreamedRaw(c: Cipher, iv: seq<bv32>, chunks: seq<seq<bv8>>, last: seq<bv8>)
    requires Inverse(c)
    ensures var fed, ct := FeedAll(Dec(c), Start(iv), [], chunks), Flatten(chunks) + last;
            var rest := fed.rest + last;
            && Raw(c, Start(iv), ct) == fed.out + Raw(c, fed.state, rest) && |ct| == |fed.out| + |rest|
            && |fed.out| % BLOCK_BYTES == 0 && (fed.out != [] ==> |rest| >= BLOCK_BYTES)
  {
    hide Run, FeedAll, Flatten, Whole, ByteMachine, Inverse, Filled, Sized;
    var m := Dec(c);
    var fed, ct := FeedAll(m, Start(iv), [], chunks), Flatten(chunks) + last;
    var k := FeedAllIsRun(m, Start(iv), [], chunks);
    assert [] + Flatten(chunks) == Flatten(chunks);
    var done, rest := Flatten(chunks)[..k], fed.rest + last;
    assert ct == done + rest;
    FilledTail(done, rest);
    RunSplit(m, Start(iv), done, Filled(rest, BLOCK_BYTES));
    StepsSized(c);
    RunLength(DecryptStep(c), 1, Start(iv), done);
    WholeMod(BLOCK_BYTES, k);
    assert Held(m) == BLOCK_BYTES;
  }

  /** What every split yields: the one-shot bytes when the pad byte is no more than the piece held at the end. */
  lemma StreamedOutcome(c: Cipher, iv: seq<bv32>, chunks: seq<seq<bv8>>, last: seq<bv8>)
    requires Inverse(c)
    ensures var fed, ct := FeedAll(Dec(c), Start(iv), [], chunks), Flatten(chunks) + last;
            var pad := PadByte(c, Start(iv), ct);
            && |fed.rest + last| <= |ct| <= |Raw(c, Start(iv), ct)|
            && StreamedDecryption(c, iv, chunks, last)
               == if pad <= |fed.rest + last| then Decoded(Raw(c, Start(iv), ct)[..|ct| - pad]) else Negative
  {
    hide Raw, FinishDecrypt, ByteValue, FeedAll, Flatten, ByteMachine, Inverse;
    var fed, ct := FeedAll(Dec(c), Start(iv), [], chunks), Flatten(chunks) + last;
    var rest := fed.rest + last;
    StreamedRaw(c, iv, chunks, last);
    FinishRaw(c, Start(iv), ct);
    FinishRaw(c, fed.state, rest);
    SamePad(c, iv, ct, fed.out, fed.state, rest);
    var pad := PadByte(c, Start(iv), ct);
    if pad <= |rest| {
      CutTail(fed.out, Raw(c, fed.state, rest), |rest| - pad);
    }
  }

  lemma SamePad(c: Cipher, iv: seq<bv32>, ct: seq<bv8>, out: seq<bv8>, m: Mode, rest: seq<bv8>)
    requires Raw(c, Start(iv), ct) == out + Raw(c, m, rest) && |ct| == |out| + |rest| && |out| % BLOCK_BYTES == 0
    requires out != [] ==> |rest| >= BLOCK_BYTES
    ensures PadByte(c, m, rest) == PadByte(c, Start(iv), ct)
  {
    hide Raw, ByteValue;
    if rest != [] {
      var q := |out| / BLOCK_BYTES;
      assert |out| == 16 * q && |ct| - 1 == 16 * q + (|rest| - 1);
      assert (16 * q + (|rest| - 1)) / 4 == 4 * q + (|rest| - 1) / 4;
    }
  }

  lemma CutTail(out: seq<bv8>, piece: seq<bv8>, n: nat)
    requires n <= |piece|
    ensures (out + piece)[..|out| + n] == out + piece[..n]
  {
  }

  /** When the pad byte leaves a held-back block and an incomplete one alone, or exceeds everything. */
  predicate PadIsSafe(c: Cipher, iv: seq<bv32>, ct: seq<bv8>) {
    var pad := PadByte(c, Start(iv), ct);
    pad <= BLOCK_BYTES + |ct| % BLOCK_BYTES || pad > |ct|
  }

  /** For every split of any ciphertext with a safe pad byte, the outputs concatenate to the one-shot plaintext. */
  lemma StreamedDecryptionIsOneShot(c: Cipher, iv: seq<bv32>, chunks: seq<seq<bv8>>, last: seq<bv8>)
    requires Inverse(c) && PadIsSafe(c, iv, Flatten(chunks) + last)
    ensures StreamedDecryption(c, iv, chunks, last) == Decrypt(c, iv, Flatten(chunks) + last)
  {
    hide Raw, PadByte, FinishDecrypt, StreamedDecryption, FeedAll, Flatten, ByteMachine, Inverse;
    var fed, ct := FeedAll(Dec(c), Start(iv), [], chunks), Flatten(chunks) + last;
    StreamedOutcome(c, iv, chunks, last);
    StreamedRaw(c, iv, chunks, last);
    FinishRaw(c, Start(iv), ct);
    HeldAtLeast(|fed.out|, |fed.rest + last|);
  }

  lemma HeldAtLeast(k: nat, n: nat)
    requires k % BLOCK_BYTES == 0 && (k > 0 ==> n >= BLOCK_BYTES)
    ensures n == k + n || n >= BLOCK_BYTES + (k + n) % BLOCK_BYTES
  {
  }

  /**
    Otherwise handing over the whole ciphertext and then finishing leaves only the held-back blocks, and the byte
    count goes negative, although decrypting at one go succeeds.
   */
  lemma StreamedDecryptionNeedsPadding(c: Cipher, iv: seq<bv32>, ct: seq<bv8>)
    requires Inverse(c) && !PadIsSafe(c, iv, ct)
    ensures StreamedDecryption(c, iv, [ct], []) == Negative && Decrypt(c, iv, ct).Decoded?
  {
    hide Raw, PadByte, FinishDecrypt, StreamedDecryption, Flatten, ByteMachine, Inverse;
    FlattenOne(ct);
    StreamedOutcome(c, iv, [ct], []);
    FinishRaw(c, Start(iv), ct);
    HoldsLittle(c, iv, ct);
  }

  /** For every ciphertext: all splits agree with the one-shot plaintext if and only if the pad byte is safe. */
  lemma StreamedDecryptionExact(c: Cipher, iv: seq<bv32>, ct: seq<bv8>)
    requires Inverse(c)
    ensures (forall chunks, last :: Flatten(chunks) + last == ct ==>
              StreamedDecryption(c, iv, chunks, last) == Decrypt(c, iv, ct))
        <==> PadIsSafe(c, iv, ct)
  {
    hide PadIsSafe, FinishDecrypt, Flatten, Inverse, StreamedDecryption;
    if PadIsSafe(c, iv, ct) {
      forall chunks, last | Flatten(chunks) + last == ct
        ensures StreamedDecryption(c, iv, chunks, last) == Decrypt(c, iv, ct)
      {
        StreamedDecryptionIsOneShot(c, iv, chunks, last);
      }
    } else {
      FlattenOne(ct);
      StreamedDecryptionNeedsPadding(c, iv, ct);
    }
  }

  /**
    What the script's own join of the pieces holds, where the last count may be negative: for every split the raw bytes
    up to the sum of the counts are the one-shot plaintext, and the sum is negative exactly when that fails too.
   */
  lemma JoinedPieces(c: Cipher, iv: seq<bv32>, chunks: seq<seq<bv8>>, last: seq<bv8>)
    requires Inverse(c)
    ensures var fed, ct := FeedAll(Dec(c), Start(iv), [], chunks), Flatten(chunks) + last;
            var rest := fed.rest + last;
            var pieces, count := fed.out + Raw(c, fed.state, rest), |fed.out| + (|rest| - PadByte(c, fed.state, rest));
            && count <= |pieces|
            && Decrypt(c, iv, ct) == if count >= 0 then Decoded(pieces[..count]) else Negative
  {
    hide Raw, PadByte, FinishDecrypt, FeedAll, Flatten, ByteMachine, Inverse;
    var fed, ct := FeedAll(Dec(c), Start(iv), [], chunks), Flatten(chunks) + last;
    StreamedRaw(c, iv, chunks, last);
    SamePad(c, iv, ct, fed.out, fed.state, fed.rest + last);
    FinishRaw(c, Start(iv), ct);
  }

  lemma FlattenOne(ct: seq<bv8>)
    ensures Flatten([ct]) + [] == ct
  {
    assert Flatten([ct]) == ct + Flatten([]);
  }

  lemma HoldsLittle(c: Cipher, iv: seq<bv32>, ct: seq<bv8>)
    requires |ct| >= 2 * BLOCK_BYTES
    ensures |FeedAll(Dec(c), Start(iv), [], [ct]).rest| == BLOCK_BYTES + |ct| % BLOCK_BYTES
  {
    hide Run;
    assert [] + ct == ct;
  }

  /** Streaming the decryption of any encryption, in any pieces, returns the message. */
  lemma StreamedRoundTrip(c: Cipher, iv: seq<bv32>, message: seq<bv8>, chunks: seq<seq<bv8>>, last: seq<bv8>)
    requires Inverse(c) && Flatten(chunks) + last == Encrypt(c, iv, message)
    ensures StreamedDecryption(c, iv, chunks, last) == Decoded(message)
  {
    hide Run, FinishDecrypt, StreamedDecryption, ByteValue, Filled;
    EncryptionIsWhole(c, iv, message);
    var ct := Encrypt(c, iv, message);
    FilledWhole(ct, BLOCK_BYTES);
    WholeMod(BLOCK_BYTES, |ct|);
    LastIndex(|ct|);
    StreamedDecryptionIsOneShot(c, iv, chunks, last);
    RoundTrip(c, iv, message);
  }

  // ----- A cipher to compute with -----

  const IDENTITY: Cipher := Cipher((x: seq<bv32>) => x, (x: seq<bv32>) => x)

  const ZERO_IV: seq<bv32> := [0, 0, 0, 0]

  lemma IdentityInverts()
    ensures Inverse(IDENTITY)
  {
  }

  /** Under a zero mask the identity cipher changes nothing. */
  lemma IdentityStep(m: Mode, b: seq<bv8>)
    requires Mask(m) == ZERO_IV && |b| == BLOCK_BYTES
    ensures Enc(IDENTITY).step(m, b) == (Mode(None, Pack(b)), b) && Dec(IDENTITY).step(m, b) == (Mode(None, Pack(b)), b)
  {
    hide Pack, Unpack, Xor;
    var w := Pack(b);
    forall i | 0 <= i < |w| ensures XorBlock(w, ZERO_IV)[i] == w[i] { XorZero(w[i]); }
    assert XorBlock(w, ZERO_IV) == w;
    UnpackOfPack(b);
  }

  lemma XorZero(a: bv32)
    ensures Xor(a, 0) == a
  {
  }

  lemma PackZeros()
    ensures Pack(seq(BLOCK_BYTES, _ => 0 as bv8)) == ZERO_IV
  {
    assert Four(0, 0, 0, 0) == 0;
  }

  /**
    A ciphertext of two blocks that decrypts at one go and not when streamed: its pad byte asks for 17 bytes,
    one more than the block that was held back.
   */
  lemma StreamingFails()
    ensures var ct := seq(31, _ => 0 as bv8) + [17];
            && Decrypt(IDENTITY, ZERO_IV, ct) == Decoded(seq(15, _ => 0 as bv8))
            && StreamedDecryption(IDENTITY, ZERO_IV, [ct], []) == Negative
  {
    hide Whole, ByteMachine, Pack, FinishDecrypt, StreamedDecryption, Inverse;
    var z, b := seq(BLOCK_BYTES, _ => 0 as bv8), seq(15, _ => 0 as bv8) + [17];
    var ct := seq(31, _ => 0 as bv8) + [17];
    var d := Dec(IDENTITY);
    assert ct[..BLOCK_BYTES] == z && ct[BLOCK_BYTES..] == b && b[..BLOCK_BYTES] == b && ct == z + b;
    PackZeros();
    IdentityStep(Start(ZERO_IV), z);
    IdentityStep(Mode(None, ZERO_IV), b);
    assert Run(d, Mode(None, ZERO_IV), b).1 == b;
    assert Run(d, Start(ZERO_IV), ct).1 == ct;
    WholeMod(BLOCK_BYTES, |ct|);
    FilledWhole(ct, BLOCK_BYTES);
    IdentityInverts();
    FinishRaw(IDENTITY, Start(ZERO_IV), ct);
    assert ct[..15] == seq(15, _ => 0 as bv8);
    StreamedDecryptionNeedsPadding(IDENTITY, ZERO_IV, ct);
  }
}

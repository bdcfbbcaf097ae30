/**
  The OpenSSL text container of a ciphertext, and the serialising ciphers above it: what is encrypted to text
  under a password comes back from the text.
 */
module OpenSsl {
  import opened Options
  import opened Words
  import opened WordArrays
  import opened Cbc
  import opened Streams
  import opened BufferedBlocks
  import opened FirstBlocks
  import Base64

  // ----- The container on byte strings -----

  /** "Salt" and "ed__", as two words. */
  const MARK0: bv32 := 1398893684
  const MARK1: bv32 := 1701076831
  const MARKER: seq<bv8> := [0x53, 0x61, 0x6c, 0x74, 0x65, 0x64, 0x5f, 0x5f]

  lemma MarkerSpells()
    ensures forall i :: 0 <= i < 8 ==> ByteValue(MARKER[i]) == "Salted__"[i] as int
  {
  }

  const SALT_BYTES: nat := 8

  predicate Marked(bs: seq<bv8>) { |bs| >= 8 && bs[..8] == MARKER }

  function Container(ciphertext: seq<bv8>, salt: Option<seq<bv8>>): seq<bv8> {
    if salt.Some? then MARKER + salt.value + ciphertext else ciphertext
  }

  /** What parsing finds; a marked text with fewer than 16 bytes leaves a negative byte count and a short salt. */
  datatype Params = Params(ciphertext: seq<bv8>, salt: Option<seq<bv8>>) | Short(sigBytes: int, bytes: seq<bv8>)

  function Open(bs: seq<bv8>): Params {
    if !Marked(bs) then Params(bs, None)
    else if |bs| < 16 then Short(|bs| - 16, Filled(bs[8..], 4))
    else Params(bs[16..], Some(bs[8..16]))
  }

  /** With a salt the container is read back exactly when the salt has eight bytes. */
  lemma SaltedRoundTrip(ciphertext: seq<bv8>, salt: seq<bv8>)
    ensures Open(Container(ciphertext, Some(salt))) == Params(ciphertext, Some(salt)) <==> |salt| == SALT_BYTES
  {
    var bs := Container(ciphertext, Some(salt));
    assert bs[..8] == MARKER;
    if |salt| == 8 {
      assert bs[8..16] == salt && bs[16..] == ciphertext;
    }
  }

  /** Without a salt it is read back exactly when the ciphertext does not itself begin with the marker. */
  lemma UnsaltedRoundTrip(ciphertext: seq<bv8>)
    ensures Open(Container(ciphertext, None)) == Params(ciphertext, None) <==> !Marked(ciphertext)
  {
  }

  function Print(ciphertext: seq<bv8>, salt: Option<seq<bv8>>): string {
    Base64.Encode(Container(ciphertext, salt))
  }

  /** The same for the printed text: when parsing it returns what was printed. */
  lemma PrintedRoundTrip(ciphertext: seq<bv8>, salt: Option<seq<bv8>>)
    ensures Base64.Readable(Print(ciphertext, salt))
    ensures Open(Base64.Decode(Print(ciphertext, salt))) == Params(ciphertext, salt)
        <==> if salt.Some? then |salt.value| == SALT_BYTES else !Marked(ciphertext)
  {
    hide Open, Marked, Base64.Encode, Base64.Decode, Base64.Readable;
    Base64.RoundTrip(Container(ciphertext, salt));
    if salt.Some? { SaltedRoundTrip(ciphertext, salt.value); } else { UnsaltedRoundTrip(ciphertext); }
  }

  // ----- The formatter on word arrays -----

  function ValueOf(a: WordArray?): Option<seq<bv8>>
    reads a
  {
    if a == null then None else Some(a.Value())
  }

  method Stringify(ciphertext: WordArray, salt: WordArray?) returns (text: string)
    modifies ciphertext`words
    ensures text == Print(old(ciphertext.Value()), old(ValueOf(salt)))
    ensures ciphertext.Value() == old(ciphertext.Value()) && ValueOf(salt) == old(ValueOf(salt))
  {
    hide Bytes, Base64.Encode;
    if salt != null {
      var all := new WordArray([MARK0, MARK1], 8);
      assert all.Value() == MARKER by { MarkerWords(all.words); }
      all.Concat(salt);
      all.Concat(ciphertext);
      text := Base64.Stringify(all);
    } else {
      text := Base64.Stringify(ciphertext);
    }
  }

  lemma MarkerWords(ws: seq<bv32>)
    requires |ws| >= 2
    ensures ws[0] == MARK0 && ws[1] == MARK1 <==> Bytes(ws, 8) == MARKER
  {
    var bs := Bytes(ws, 8);
    MarkerHead(ws[0]);
    MarkerTail(ws[1]);
    assert bs[0] == ByteOf(ws[0], 0) && bs[1] == ByteOf(ws[0], 1)
           && bs[2] == ByteOf(ws[0], 2) && bs[3] == ByteOf(ws[0], 3);
    assert bs[4] == ByteOf(ws[1], 0) && bs[5] == ByteOf(ws[1], 1)
           && bs[6] == ByteOf(ws[1], 2) && bs[7] == ByteOf(ws[1], 3);
  }

  lemma MarkerHead(w: bv32)
    ensures w == MARK0 <==> ByteOf(w, 0) == 0x53 && ByteOf(w, 1) == 0x61 && ByteOf(w, 2) == 0x6c && ByteOf(w, 3) == 0x74
  {
  }

  lemma MarkerTail(w: bv32)
    ensures w == MARK1 <==> ByteOf(w, 0) == 0x65 && ByteOf(w, 1) == 0x64 && ByteOf(w, 2) == 0x5f && ByteOf(w, 3) == 0x5f
  {
  }

  /** The ciphertext's bytes, its count as the script holds it (it may go negative), and the salt if there is one. */
  method Parse(text: string) returns (a: WordArray, sigBytes: int, salt: WordArray?)
    ensures fresh(a) && (salt != null ==> fresh(salt) && salt != a)
    ensures Base64.Readable(text) ==>
      match Open(Base64.Decode(text))
      case Params(ciphertext, s) =>
        a.sigBytes == sigBytes && a.Value() == ciphertext && a.IsClean() && ValueOf(salt) == s
      case Short(count, bytes) => sigBytes == count && ValueOf(salt) == Some(bytes)
  {
    hide Bytes, Base64.Decode, Base64.Readable, Clean, Filled;
    a := Base64.Parse(text);
    sigBytes, salt := a.sigBytes, null;
    ghost var ws, n := a.words, a.sigBytes;
    if Base64.Readable(text) { MarkedWords(ws, n); }
    if Word(a.words, 0) == MARK0 && Word(a.words, 1) == MARK1 {
      var c := if |a.words| <= 2 then [] else if |a.words| <= 4 then a.words[2..] else a.words[2..4];
      salt := new WordArray(c, 4 * |c|);
      a.words := if |a.words| <= 4 then [] else a.words[4..];
      sigBytes := sigBytes - 16;
      a.sigBytes := if sigBytes < 0 then 0 else sigBytes;
      if Base64.Readable(text) {
        ClampedLength(ws, n);
        if n >= 16 { CutFront(ws, n, a.words, c); } else { ShortSalt(ws, n, c); }
      }
    }
  }

  /** The test on the first two words is the test on the first eight bytes. */
  lemma MarkedWords(ws: seq<bv32>, n: nat)
    requires Clean(ws, n)
    ensures Word(ws, 0) == MARK0 && Word(ws, 1) == MARK1 <==> Marked(Bytes(ws, n))
  {
    hide ByteOf, Bytes;
    if 2 <= |ws| {
      MarkerWords(ws);
      FirstEight(ws, n);
    }
  }

  lemma FirstEight(ws: seq<bv32>, n: nat)
    requires Clean(ws, n) && 2 <= |ws|
    ensures n >= 8 ==> Bytes(ws, n)[..8] == Bytes(ws, 8)
    ensures n < 8 ==> Bytes(ws, 8) != MARKER
  {
    hide ByteOf;
    if n < 8 { assert Bytes(ws, 8)[7] == ByteAt(ws, 7) == 0; }
  }

  lemma CutFront(ws: seq<bv32>, n: nat, rest: seq<bv32>, c: seq<bv32>)
    requires Clean(ws, n) && n >= 16 && |ws| >= 4 && rest == ws[4..] && c == ws[2..4]
    ensures Bytes(rest, n - 16) == Bytes(ws, n)[16..] && Clean(rest, n - 16)
    ensures Bytes(c, 8) == Bytes(ws, n)[8..16]
  {
    hide ByteOf;
    forall i: nat | i < 4 * |rest| ensures ByteAt(rest, i) == ByteAt(ws, 16 + i) {
      assert (16 + i) / 4 == 4 + i / 4;
    }
    forall i: nat | i < 8 ensures ByteAt(c, i) == ByteAt(ws, 8 + i) {
      assert (8 + i) / 4 == 2 + i / 4;
    }
  }

  lemma ShortSalt(ws: seq<bv32>, n: nat, c: seq<bv32>)
    requires Clean(ws, n) && 8 <= n < 16 && c == ws[2..]
    ensures Bytes(c, 4 * |c|) == Filled(Bytes(ws, n)[8..], 4)
  {
    hide ByteOf;
    forall i: nat | i < 4 * |c| ensures ByteAt(c, i) == ByteAt(ws, 8 + i) {
      assert (8 + i) / 4 == 2 + i / 4;
    }
  }

  // ----- The serialising ciphers -----

  /** A cipher family with a key-derivation function, both abstract. */
  datatype Suite = Suite(keySize: nat, cipher: seq<bv32> -> Cipher, derive: (seq<bv8>, seq<bv8>) -> seq<bv32>)

  /** Enough words are derived, and every derived key gives an invertible cipher. */
  ghost predicate Sound(su: Suite) {
    forall password, salt ::
      var derived := su.derive(password, salt);
      |derived| >= su.keySize && Inverse(su.cipher(derived[..su.keySize]))
  }

  function Key(su: Suite, password: seq<bv8>, salt: seq<bv8>): Cipher
    requires |su.derive(password, salt)| >= su.keySize
  {
    su.cipher(KeyWords(su, password, salt))
  }

  function KeyWords(su: Suite, password: seq<bv8>, salt: seq<bv8>): seq<bv32>
    requires |su.derive(password, salt)| >= su.keySize
  {
    su.derive(password, salt)[..su.keySize]
  }

  /** The derived words are the key words, as many as the key size, followed by the IV. */
  lemma KeyThenIv(su: Suite, password: seq<bv8>, salt: seq<bv8>)
    requires |su.derive(password, salt)| >= su.keySize
    ensures |KeyWords(su, password, salt)| == su.keySize
    ensures KeyWords(su, password, salt) + Iv(su, password, salt) == su.derive(password, salt)
  {
  }

  function Iv(su: Suite, password: seq<bv8>, salt: seq<bv8>): seq<bv32>
    requires |su.derive(password, salt)| >= su.keySize
  {
    su.derive(password, salt)[su.keySize..]
  }

  ghost function EncryptText(su: Suite, password: seq<bv8>, salt: seq<bv8>, message: seq<bv8>): string
    requires Sound(su)
  {
    Print(Encrypt(Key(su, password, salt), Iv(su, password, salt), message), Some(salt))
  }

  /** A container without a salt is decrypted under a salt drawn at random. */
  ghost function DecryptText(su: Suite, password: seq<bv8>, text: string, random: seq<bv8>): Plain
    requires Sound(su) && Base64.Readable(text) && Open(Base64.Decode(text)).Params?
  {
    var p := Open(Base64.Decode(text));
    var salt := if p.salt.Some? then p.salt.value else random;
    Decrypt(Key(su, password, salt), Iv(su, password, salt), p.ciphertext)
  }

  /** Text made under a password decrypts under it to the message: every message, password, 8-byte salt and cipher. */
  lemma PasswordRoundTrip(su: Suite, password: seq<bv8>, salt: seq<bv8>, message: seq<bv8>, random: seq<bv8>)
    requires Sound(su) && |salt| == SALT_BYTES
    ensures var text := EncryptText(su, password, salt, message);
            && Base64.Readable(text) && Open(Base64.Decode(text)).Params?
            && DecryptText(su, password, text, random) == Decoded(message)
  {
    hide Open, Encrypt, Decrypt, Base64.Encode, Base64.Decode, Base64.Readable, Container;
    var c, iv := Key(su, password, salt), Iv(su, password, salt);
    PrintedRoundTrip(Encrypt(c, iv, message), Some(salt));
    RoundTrip(c, iv, message);
  }

  /**
    Under a bare key no salt is printed, and a ciphertext that begins with the marker loses its first block.  The text
    decrypts to the message exactly when the ciphertext is unmarked, the message is empty, or by a coincidence.
   */
  lemma KeyedRoundTrip(c: Cipher, iv: seq<bv32>, message: seq<bv8>)
    requires Inverse(c)
    ensures var ct := Encrypt(c, iv, message);
            var text := Print(ct, None);
            && Base64.Readable(text) && |ct| >= BLOCK_BYTES
            && Open(Base64.Decode(text)) == (if Marked(ct) then Params(ct[16..], Some(ct[8..16])) else Params(ct, None))
            && (Decrypt(c, iv, Open(Base64.Decode(text)).ciphertext) == Decoded(message)
                <==> !Marked(ct) || message == [] || Coincides(iv, ct, message))
  {
    hide Encrypt, Decrypt, Base64.Encode, Base64.Decode, Base64.Readable, Marked, Coincides;
    Base64.RoundTrip(Encrypt(c, iv, message));
    RoundTrip(c, iv, message);
    WithoutFirstBlock(c, iv, message);
  }

  /** The eight marker bytes as a message, under the identity cipher and a zero IV, do not come back. */
  lemma KeyedRoundTripFails()
    ensures var text := Print(Encrypt(IDENTITY, ZERO_IV, MARKER), None);
            && Base64.Readable(text) && Open(Base64.Decode(text)).Params?
            && Decrypt(IDENTITY, ZERO_IV, Open(Base64.Decode(text)).ciphertext) == Decoded([]) != Decoded(MARKER)
  {
    hide Decrypt, Base64.Encode, Base64.Decode, Base64.Readable, ByteMachine, Inverse, PadBytes;
    var ct := Encrypt(IDENTITY, ZERO_IV, MARKER);
    var padded := MARKER + PadBytes(8);
    IdentityInverts();
    IdentityStep(Start(ZERO_IV), padded);
    RunOne(Enc(IDENTITY), Start(ZERO_IV), padded);
    assert ct == padded;
    KeyedRoundTrip(IDENTITY, ZERO_IV, MARKER);
    assert ct[16..] == [];
    NothingDecrypts(IDENTITY, ZERO_IV);
  }

  // ----- The coincidence happens -----

  const TENS: seq<bv32> := [0x10101010, 0x10101010, 0x10101010, 0x10101010]

  /** A cipher that undoes, under a zero IV, exactly what the padding block of a one-block message brings. */
  const TEN_CIPHER: Cipher := Cipher((x: seq<bv32>) => XorBlock(x, TENS), (x: seq<bv32>) => XorBlock(x, TENS))

  const LUCKY: seq<bv8> := [0x43, 0x71, 0x7c, 0x64, 0x75, 0x74, 0x4f, 0x4f, 0, 0, 0, 0, 0, 0, 0, 0]

  lemma TenCipherInverts()
    ensures Inverse(TEN_CIPHER)
  {
    hide Xor;
    forall x: seq<bv32> | |x| == BLOCK_WORDS
      ensures |XorBlock(x, TENS)| == BLOCK_WORDS && XorBlock(XorBlock(x, TENS), TENS) == x
    {
      XorBlockTwice(x, TENS);
    }
  }

  lemma TenBytes(i: nat)
    requires i < BLOCK_BYTES
    ensures ByteAt(TENS, i) == 0x10 && ByteAt(ZERO_IV, i) == 0
  {
    var w := Word(TENS, i / 4);
    assert w == 0x10101010 && Word(ZERO_IV, i / 4) == 0;
  }

  lemma TwiceXored(x: bv8)
    ensures XorByte(XorByte(x, 0), 0x10) == XorByte(x, 0x10) && x == XorByte(0x10, XorByte(XorByte(x, 0x10), 0))
  {
  }

  /** The first ciphertext block of the lucky message: every byte with 0x10 xor-ed in, which spells the marker. */
  lemma LuckyBlock(i: nat)
    requires i < BLOCK_BYTES
    ensures var ct := Encrypt(TEN_CIPHER, ZERO_IV, LUCKY); |ct| == 32 && ct[i] == XorByte(LUCKY[i], 0x10)
  {
    hide Run, ByteMachine, Inverse, Pack, Unpack, XorBlock, XorByte, ByteAt, Whole, PadBytes;
    TenCipherInverts();
    EncryptionIsWhole(TEN_CIPHER, ZERO_IV, LUCKY);
    WholeMod(BLOCK_BYTES, |LUCKY|);
    RunSplit(Enc(TEN_CIPHER), Start(ZERO_IV), LUCKY, PadBytes(16));
    RunOne(Enc(TEN_CIPHER), Start(ZERO_IV), LUCKY);
    LuckyStep(i);
  }

  lemma LuckyStep(i: nat)
    requires i < BLOCK_BYTES
    ensures var b := Enc(TEN_CIPHER).step(Start(ZERO_IV), LUCKY).1;
            |b| == BLOCK_BYTES && b[i] == XorByte(LUCKY[i], 0x10)
  {
    hide Pack, Unpack, XorByte, ByteAt, XorBlock;
    var x := XorBlock(Pack(LUCKY), ZERO_IV);
    assert |LUCKY| == BLOCK_BYTES && Mask(Start(ZERO_IV)) == ZERO_IV;
    assert TEN_CIPHER.encryptBlock(x) == XorBlock(x, TENS);
    assert Enc(TEN_CIPHER).step(Start(ZERO_IV), LUCKY).1 == Unpack(XorBlock(x, TENS));
    UnpackLength(XorBlock(x, TENS));
    XorBlockBytes(x, TENS, i);
    UnpackLength(x);
    XorBlockBytes(Pack(LUCKY), ZERO_IV, i);
    BytesOfUnpack(x, i);
    ByteAtPack(LUCKY, i);
    TenBytes(i);
    TwiceXored(LUCKY[i]);
  }

  lemma BytesOfUnpack(ws: seq<bv32>, i: nat)
    requires i < 4 * |ws|
    ensures Unpack(ws)[i] == ByteAt(ws, i)
  {
  }

  lemma LuckyMarker(i: nat)
    requires i < 8
    ensures XorByte(LUCKY[i], 0x10) == MARKER[i]
  {
  }

  /** The third case of KeyedRoundTrip is inhabited: a marked ciphertext whose text decrypts right all the same. */
  lemma CoincidenceHappens()
    ensures Inverse(TEN_CIPHER)
    ensures var ct := Encrypt(TEN_CIPHER, ZERO_IV, LUCKY); Marked(ct) && Coincides(ZERO_IV, ct, LUCKY)
  {
    hide Inverse, Encrypt, XorByte, ByteAt;
    TenCipherInverts();
    var ct := Encrypt(TEN_CIPHER, ZERO_IV, LUCKY);
    LuckyBlock(0);
    forall i | 0 <= i < 8 ensures ct[i] == MARKER[i] {
      LuckyBlock(i);
      LuckyMarker(i);
    }
    assert ct[..8] == MARKER;
    forall i | 0 <= i < BLOCK_BYTES ensures LUCKY[i] == XorByte(0x10, XorByte(ct[i], ByteAt(ZERO_IV, i))) {
      LuckyBlock(i);
      TenBytes(i);
      TwiceXored(LUCKY[i]);
    }
  }

  method EncryptWithPassword(su: Suite, message: WordArray, password: seq<bv8>, salt: WordArray) returns (text: string)
    requires Sound(su)
    ensures text == EncryptText(su, password, old(salt.Value()), old(message.Value()))
  {
    hide Bytes, Base64.Encode, Run, PadBytes, ByteMachine, Inverse, Clean, Container, Print;
    var derived := su.derive(password, salt.Value());
    var key, iv := derived[..su.keySize], derived[su.keySize..];
    var e := new BlockCipher(su.cipher(key), true, iv);
    var ciphertext := e.FinalizeEncryption(Some(message));
    assert [] + old(message.Value()) == old(message.Value());
    text := Stringify(ciphertext, salt);
  }

  method DecryptWithPassword(su: Suite, text: string, password: seq<bv8>, random: seq<bv8>)
    returns (out: WordArray, count: int)
    requires Sound(su) && Base64.Readable(text) && Open(Base64.Decode(text)).Params?
    ensures DecryptText(su, password, text, random) == if count >= 0 then Decoded(out.Value()) else Negative
  {
    hide Bytes, Base64.Decode, Base64.Readable, Open, FinishDecrypt, Run, ByteMachine, Inverse, Clean;
    var ciphertext, n, s := Parse(text);
    var salt := if s == null then random else s.Value();
    var derived := su.derive(password, salt);
    var d := new BlockCipher(su.cipher(derived[..su.keySize]), false, derived[su.keySize..]);
    ghost var ct := ciphertext.Value();
    out, count := d.FinalizeDecryption(Some(ciphertext));
    assert [] + ct == ct;
  }
}

/**
  Byte strings packed big-endian in 32-bit words, as the CryptoJS library keeps them.
  An element past the end of a script array is `undefined`, which the bit operators read as 0.
 */
module Words {
  import opened Numbers

  function Word(ws: seq<bv32>, i: nat): bv32 { if i < |ws| then ws[i] else 0 }

  /** A store at any index: the array grows and the skipped elements read as 0. */
  function Put(ws: seq<bv32>, i: nat, v: bv32): (r: seq<bv32>)
    ensures |r| == if i < |ws| then |ws| else i + 1
    ensures forall j: nat :: Word(r, j) == if j == i then v else Word(ws, j)
  {
    if i < |ws| then ws[i := v] else ws + seq(i - |ws|, _ => 0 as bv32) + [v]
  }

  function Or(a: bv32, b: bv32): bv32 { a | b }
  function And(a: bv32, b: bv32): bv32 { a & b }
  function Xor(a: bv32, b: bv32): bv32 { a ^ b }
  function XorByte(a: bv8, b: bv8): bv8 { a ^ b }

  /** w >>> 24 - 8 * k & 255 */
  function ByteOf(w: bv32, k: nat): bv8
    requires k < 4
  {
    if k == 0 then (w >> 24) as bv8
    else if k == 1 then ((w >> 16) & 0xFF) as bv8
    else if k == 2 then ((w >> 8) & 0xFF) as bv8
    else (w & 0xFF) as bv8
  }

  /** b << 24 - 8 * k */
  function Place(b: bv8, k: nat): bv32
    requires k < 4
  {
    if k == 0 then (b as bv32) << 24
    else if k == 1 then (b as bv32) << 16
    else if k == 2 then (b as bv32) << 8
    else b as bv32
  }

  /** 4294967295 << 32 - 8 * r, where a shift by 32 is a shift by 0 */
  function KeepMask(r: nat): bv32
    requires r < 4
  {
    if r == 0 then 0xFFFF_FFFF else if r == 1 then 0xFF00_0000 else if r == 2 then 0xFFFF_0000 else 0xFFFF_FF00
  }

  // ----- Facts about one word -----

  lemma OrAt0(w: bv32, b: bv8)
    ensures var v := Or(w, Place(b, 0));
            ByteOf(v, 0) == ByteOf(w, 0) | b && ByteOf(v, 1) == ByteOf(w, 1)
            && ByteOf(v, 2) == ByteOf(w, 2) && ByteOf(v, 3) == ByteOf(w, 3)
  {}
  lemma OrAt1(w: bv32, b: bv8)
    ensures var v := Or(w, Place(b, 1));
            ByteOf(v, 0) == ByteOf(w, 0) && ByteOf(v, 1) == ByteOf(w, 1) | b
            && ByteOf(v, 2) == ByteOf(w, 2) && ByteOf(v, 3) == ByteOf(w, 3)
  {}
  lemma OrAt2(w: bv32, b: bv8)
    ensures var v := Or(w, Place(b, 2));
            ByteOf(v, 0) == ByteOf(w, 0) && ByteOf(v, 1) == ByteOf(w, 1)
            && ByteOf(v, 2) == ByteOf(w, 2) | b && ByteOf(v, 3) == ByteOf(w, 3)
  {}
  lemma OrAt3(w: bv32, b: bv8)
    ensures var v := Or(w, Place(b, 3));
            ByteOf(v, 0) == ByteOf(w, 0) && ByteOf(v, 1) == ByteOf(w, 1)
            && ByteOf(v, 2) == ByteOf(w, 2) && ByteOf(v, 3) == ByteOf(w, 3) | b
  {}

  /** Or-ing a byte into place j touches that place alone. */
  lemma ByteOfOr(w: bv32, b: bv8, j: nat, k: nat)
    requires j < 4 && k < 4
    ensures ByteOf(Or(w, Place(b, j)), k) == if k == j then ByteOf(w, k) | b else ByteOf(w, k)
  {
    hide *;
    if j == 0 { OrAt0(w, b); } else if j == 1 { OrAt1(w, b); }
    else if j == 2 { OrAt2(w, b); } else { assert j == 3; OrAt3(w, b); }
    if k == 0 {} else if k == 1 {} else if k == 2 {} else { assert k == 3; }
  }

  lemma Keep0(w: bv32)
    ensures And(w, KeepMask(0)) == w
  {}
  lemma Keep1(w: bv32)
    ensures var v := And(w, KeepMask(1));
            ByteOf(v, 0) == ByteOf(w, 0) && ByteOf(v, 1) == 0 && ByteOf(v, 2) == 0 && ByteOf(v, 3) == 0
  {}
  lemma Keep2(w: bv32)
    ensures var v := And(w, KeepMask(2));
            ByteOf(v, 0) == ByteOf(w, 0) && ByteOf(v, 1) == ByteOf(w, 1) && ByteOf(v, 2) == 0 && ByteOf(v, 3) == 0
  {}
  lemma Keep3(w: bv32)
    ensures var v := And(w, KeepMask(3));
            ByteOf(v, 0) == ByteOf(w, 0) && ByteOf(v, 1) == ByteOf(w, 1)
            && ByteOf(v, 2) == ByteOf(w, 2) && ByteOf(v, 3) == 0
  {}

  lemma ByteOfKeep(w: bv32, r: nat, k: nat)
    requires r < 4 && k < 4
    ensures ByteOf(And(w, KeepMask(r)), k) == if r == 0 || k < r then ByteOf(w, k) else 0
  {
    hide *;
    if r == 0 { Keep0(w); } else if r == 1 { Keep1(w); } else if r == 2 { Keep2(w); } else { assert r == 3; Keep3(w); }
    if k == 0 {} else if k == 1 {} else if k == 2 {} else { assert k == 3; }
  }

  lemma ByteOfZero(k: nat)
    requires k < 4
    ensures ByteOf(0, k) == 0
  {
  }

  lemma EqualBytes(v: bv32, w: bv32)
    requires ByteOf(v, 0) == ByteOf(w, 0) && ByteOf(v, 1) == ByteOf(w, 1)
    requires ByteOf(v, 2) == ByteOf(w, 2) && ByteOf(v, 3) == ByteOf(w, 3)
    ensures v == w
  {
  }

  // ----- Byte strings and word strings -----

  function ByteAt(ws: seq<bv32>, i: nat): bv8 { ByteOf(Word(ws, i / 4), i % 4) }

  /** The first n bytes. */
  function Bytes(ws: seq<bv32>, n: nat): (bs: seq<bv8>)
    ensures |bs| == n
  {
    seq(n, i requires 0 <= i < n => ByteAt(ws, i))
  }

  /** words[p >>> 2] |= b << 24 - 8 * (p % 4) */
  function Merge(ws: seq<bv32>, p: nat, b: bv8): seq<bv32> {
    Put(ws, p / 4, Or(Word(ws, p / 4), Place(b, p % 4)))
  }

  lemma ByteAtMerge(ws: seq<bv32>, p: nat, b: bv8, i: nat)
    ensures ByteAt(Merge(ws, p, b), i) == if i == p then ByteAt(ws, i) | b else ByteAt(ws, i)
  {
    hide ByteOf, Or, Place, Put;
    ByteOfOr(Word(ws, p / 4), b, p % 4, i % 4);
  }

  lemma ByteAtPast(ws: seq<bv32>, i: nat)
    requires 4 * |ws| <= i
    ensures ByteAt(ws, i) == 0
  {
    ByteOfZero(i % 4);
  }

  lemma BytesAgree(v: seq<bv32>, w: seq<bv32>, n: nat)
    requires forall i: nat :: i < n ==> ByteAt(v, i) == ByteAt(w, i)
    ensures Bytes(v, n) == Bytes(w, n)
  {
    hide ByteAt;
  }

  lemma BytesJoin(ws: seq<bv32>, left: seq<bv8>, right: seq<bv8>)
    requires forall i: nat :: i < |left| ==> ByteAt(ws, i) == left[i]
    requires forall i: nat :: i < |right| ==> ByteAt(ws, |left| + i) == right[i]
    ensures Bytes(ws, |left| + |right|) == left + right
  {
    hide ByteAt;
    forall i: nat | i < |left| + |right| ensures ByteAt(ws, i) == (left + right)[i] {
      if i >= |left| { assert ByteAt(ws, |left| + (i - |left|)) == right[i - |left|]; }
    }
  }

  /** The words that hold exactly n bytes: no spare word, nothing set after the last byte. */
  ghost predicate Clean(ws: seq<bv32>, n: nat) {
    && |ws| == (n + 3) / 4
    && forall i :: n <= i < 4 * |ws| ==> ByteAt(ws, i) == 0
  }

  function Four(a: bv8, b: bv8, c: bv8, d: bv8): bv32 {
    Or(Or(Place(a, 0), Place(b, 1)), Or(Place(c, 2), Place(d, 3)))
  }

  lemma FourAt0(a: bv8, b: bv8, c: bv8, d: bv8)
    ensures ByteOf(Four(a, b, c, d), 0) == a
  {}
  lemma FourAt1(a: bv8, b: bv8, c: bv8, d: bv8)
    ensures ByteOf(Four(a, b, c, d), 1) == b
  {}
  lemma FourAt2(a: bv8, b: bv8, c: bv8, d: bv8)
    ensures ByteOf(Four(a, b, c, d), 2) == c
  {}
  lemma FourAt3(a: bv8, b: bv8, c: bv8, d: bv8)
    ensures ByteOf(Four(a, b, c, d), 3) == d
  {}

  lemma BytesOfFour(a: bv8, b: bv8, c: bv8, d: bv8)
    ensures var w := Four(a, b, c, d);
            ByteOf(w, 0) == a && ByteOf(w, 1) == b && ByteOf(w, 2) == c && ByteOf(w, 3) == d
  {
    hide *;
    FourAt0(a, b, c, d);
    FourAt1(a, b, c, d);
    FourAt2(a, b, c, d);
    FourAt3(a, b, c, d);
  }

  function ByteOr0(bs: seq<bv8>, i: nat): bv8 { if i < |bs| then bs[i] else 0 }

  /** The clean words of a byte string. */
  function Pack(bs: seq<bv8>): (ws: seq<bv32>)
    ensures |ws| == (|bs| + 3) / 4
  {
    seq((|bs| + 3) / 4, j requires 0 <= j < (|bs| + 3) / 4 =>
      Four(ByteOr0(bs, 4 * j), ByteOr0(bs, 4 * j + 1), ByteOr0(bs, 4 * j + 2), ByteOr0(bs, 4 * j + 3)))
  }

  function Unpack(ws: seq<bv32>): seq<bv8> { Bytes(ws, 4 * |ws|) }

  lemma UnpackLength(ws: seq<bv32>)
    ensures |Unpack(ws)| == 4 * |ws|
  {
  }

  lemma ByteAtPack(bs: seq<bv8>, i: nat)
    ensures ByteAt(Pack(bs), i) == ByteOr0(bs, i)
  {
    hide ByteOf, Four;
    var j := i / 4;
    BytesOfFour(ByteOr0(bs, 4 * j), ByteOr0(bs, 4 * j + 1), ByteOr0(bs, 4 * j + 2), ByteOr0(bs, 4 * j + 3));
    ByteOfZero(i % 4);
    if i % 4 == 0 {} else if i % 4 == 1 {} else if i % 4 == 2 {} else { assert i % 4 == 3; }
  }

  lemma BytesOfPack(bs: seq<bv8>)
    ensures Bytes(Pack(bs), |bs|) == bs && Clean(Pack(bs), |bs|)
  {
    hide ByteOf, Four, Pack, ByteAt;
    forall i: nat ensures ByteAt(Pack(bs), i) == ByteOr0(bs, i) { ByteAtPack(bs, i); }
  }

  /** Words that agree on all bytes are equal. */
  lemma EqualWords(v: seq<bv32>, w: seq<bv32>)
    requires |v| == |w| && forall i :: 0 <= i < 4 * |v| ==> ByteAt(v, i) == ByteAt(w, i)
    ensures v == w
  {
    hide ByteOf;
    forall j | 0 <= j < |v| ensures v[j] == w[j] {
      assert ByteAt(v, 4 * j) == ByteAt(w, 4 * j) && ByteAt(v, 4 * j + 1) == ByteAt(w, 4 * j + 1);
      assert ByteAt(v, 4 * j + 2) == ByteAt(w, 4 * j + 2) && ByteAt(v, 4 * j + 3) == ByteAt(w, 4 * j + 3);
      EqualBytes(v[j], w[j]);
    }
  }

  lemma PackOfBytes(ws: seq<bv32>, n: nat)
    requires Clean(ws, n)
    ensures Pack(Bytes(ws, n)) == ws
  {
    hide ByteOf, Four, Pack, ByteAt;
    var bs := Bytes(ws, n);
    forall i | 0 <= i < 4 * |ws| ensures ByteAt(Pack(bs), i) == ByteAt(ws, i) { ByteAtPack(bs, i); }
    EqualWords(Pack(bs), ws);
  }

  lemma UnpackOfPack(bs: seq<bv8>)
    requires |bs| % 4 == 0
    ensures Unpack(Pack(bs)) == bs
  {
    BytesOfPack(bs);
    assert 4 * |Pack(bs)| == |bs|;
  }

  lemma PackOfUnpack(ws: seq<bv32>)
    ensures Pack(Unpack(ws)) == ws
  {
    PackOfBytes(ws, 4 * |ws|);
  }

  // ----- Bytes and words as numbers -----

  function NibbleValue(n: bv4): (v: nat)
    ensures v < 16
  {
    n as nat
  }

  function ToNibble(v: nat): bv4
    requires v < 16
  {
    v as bv4
  }

  lemma NibbleValues(v: nat, n: bv4)
    requires v < 16
    ensures NibbleValue(ToNibble(v)) == v && ToNibble(NibbleValue(n)) == n
  {
  }

  function Upper(b: bv8): bv4 { (b >> 4) as bv4 }
  function Lower(b: bv8): bv4 { (b & 15) as bv4 }
  function Nibbles(u: bv4, l: bv4): bv8 { ((u as bv8) << 4) | (l as bv8) }

  lemma NibblesJoin(u: bv4, l: bv4, b: bv8)
    ensures Upper(Nibbles(u, l)) == u && Lower(Nibbles(u, l)) == l && Nibbles(Upper(b), Lower(b)) == b
  {
  }

  function ByteValue(b: bv8): (v: nat)
    ensures v < 256
  {
    16 * NibbleValue(Upper(b)) + NibbleValue(Lower(b))
  }

  function ToByte(v: nat): bv8
    requires v < 256
  {
    Nibbles(ToNibble(v / 16), ToNibble(v % 16))
  }

  lemma ValueOfByte(v: nat)
    requires v < 256
    ensures ByteValue(ToByte(v)) == v
  {
    hide Nibbles, Upper, Lower, ToNibble, NibbleValue;
    NibblesJoin(ToNibble(v / 16), ToNibble(v % 16), 0);
    NibbleValues(v / 16, 0);
    NibbleValues(v % 16, 0);
  }

  lemma ByteOfValue(b: bv8)
    ensures ToByte(ByteValue(b)) == b
  {
    hide Nibbles, Upper, Lower, ToNibble, NibbleValue;
    NibblesJoin(0, 0, b);
    NibbleValues(0, Upper(b));
    NibbleValues(0, Lower(b));
  }

  lemma ByteValueZero(b: bv8)
    ensures ByteValue(b) == 0 <==> b == 0
  {
  }

  /** The number a word stands for, most significant byte first. */
  function NumberOf(w: bv32): nat {
    16777216 * ByteValue(ByteOf(w, 0)) + 65536 * ByteValue(ByteOf(w, 1))
    + 256 * ByteValue(ByteOf(w, 2)) + ByteValue(ByteOf(w, 3))
  }

  /** The low 32 bits of a number. */
  function WordOf(x: nat): bv32 {
    Four(ToByte(x / 16777216 % 256), ToByte(x / 65536 % 256), ToByte(x / 256 % 256), ToByte(x % 256))
  }

  lemma NumberOfWordOf(x: nat)
    ensures NumberOf(WordOf(x)) == x % TWO32
  {
    hide Four, ByteOf, ByteValue, ToByte;
    var a, b, c, d := x / 16777216 % 256, x / 65536 % 256, x / 256 % 256, x % 256;
    BytesOfFour(ToByte(a), ToByte(b), ToByte(c), ToByte(d));
    ValueOfByte(a);
    ValueOfByte(b);
    ValueOfByte(c);
    ValueOfByte(d);
    Digits(x);
  }

  lemma Digits(x: nat)
    ensures 16777216 * (x / 16777216 % 256) + 65536 * (x / 65536 % 256) + 256 * (x / 256 % 256) + x % 256 == x % TWO32
  {
    assert x / 65536 == (x / 256) / 256 && x / 16777216 == (x / 65536) / 256;
  }

  lemma WordOfNumberOf(w: bv32)
    ensures NumberOf(w) < TWO32 && WordOf(NumberOf(w)) == w
  {
    hide Four, ByteOf, ByteValue, ToByte;
    var a, b, c, d := ByteOf(w, 0), ByteOf(w, 1), ByteOf(w, 2), ByteOf(w, 3);
    DigitsOf(ByteValue(a), ByteValue(b), ByteValue(c), ByteValue(d));
    ByteOfValue(a);
    ByteOfValue(b);
    ByteOfValue(c);
    ByteOfValue(d);
    BytesOfFour(a, b, c, d);
    EqualBytes(Four(a, b, c, d), w);
  }

  lemma DigitsOf(a: nat, b: nat, c: nat, d: nat)
    requires a < 256 && b < 256 && c < 256 && d < 256
    ensures var x := 16777216 * a + 65536 * b + 256 * c + d;
            && x < TWO32 && x / 16777216 % 256 == a && x / 65536 % 256 == b && x / 256 % 256 == c && x % 256 == d
  {
    var x := 16777216 * a + 65536 * b + 256 * c + d;
    assert x / 256 == 65536 * a + 256 * b + c && x / 65536 == 256 * a + b && x / 16777216 == a;
  }

  /** Numbers agree with the shifts: a small word is its value, and a byte's shift multiplies by 256. */
  lemma SmallNumber(b: bv8)
    ensures NumberOf(b as bv32) == ByteValue(b)
  {
    var w := b as bv32;
    assert ByteOf(w, 0) == 0 && ByteOf(w, 1) == 0 && ByteOf(w, 2) == 0 && ByteOf(w, 3) == b;
  }

  lemma ShiftMultiplies(w: bv32)
    ensures NumberOf(w << 8) == 256 * NumberOf(w) % TWO32
  {
    ShiftedBytes(w);
    hide ByteOf, ByteValue, ToByte;
    assert ByteValue(0) == 0 by { ByteValueZero(0); }
    var a := ByteValue(ByteOf(w, 0));
    assert 256 * NumberOf(w) == TWO32 * a + NumberOf(w << 8);
  }

  lemma ShiftedBytes(w: bv32)
    ensures ByteOf(w << 8, 0) == ByteOf(w, 1) && ByteOf(w << 8, 1) == ByteOf(w, 2)
    ensures ByteOf(w << 8, 2) == ByteOf(w, 3) && ByteOf(w << 8, 3) == 0
  {
  }

  /** The number that a byte string spells, most significant byte first. */
  function BigEndian(bs: seq<bv8>): nat {
    if bs == [] then 0 else 256 * BigEndian(bs[..|bs| - 1]) + ByteValue(bs[|bs| - 1])
  }

  lemma BigEndianPush(bs: seq<bv8>, b: bv8)
    ensures BigEndian(bs + [b]) == 256 * BigEndian(bs) + ByteValue(b)
  {
    assert (bs + [b])[..|bs|] == bs;
  }

  function BytesOfWord(w: bv32): seq<bv8> { [ByteOf(w, 0), ByteOf(w, 1), ByteOf(w, 2), ByteOf(w, 3)] }

  lemma BigEndianWord(bs: seq<bv8>, w: bv32)
    ensures BigEndian(bs + BytesOfWord(w)) == TWO32 * BigEndian(bs) + NumberOf(w)
  {
    hide ByteOf, ByteValue, BigEndian;
    var a, b, c, d := ByteOf(w, 0), ByteOf(w, 1), ByteOf(w, 2), ByteOf(w, 3);
    BigEndianPush(bs, a);
    BigEndianPush(bs + [a], b);
    BigEndianPush(bs + [a] + [b], c);
    BigEndianPush(bs + [a] + [b] + [c], d);
    assert bs + BytesOfWord(w) == bs + [a] + [b] + [c] + [d];
  }

  lemma BigEndianWords(v: bv32, w: bv32)
    ensures BigEndian(Unpack([v, w])) == TWO32 * NumberOf(v) + NumberOf(w)
  {
    hide ByteOf, NumberOf;
    assert Unpack([v, w]) == [] + BytesOfWord(v) + BytesOfWord(w);
    BigEndianWord([], v);
    BigEndianWord([] + BytesOfWord(v), w);
  }
}

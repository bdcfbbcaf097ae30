/** Base64 (section 4 of RFC 4648) over word arrays: the encoder, and a decoder whose intermediates overlap bytes. */
module Base64 {
  import opened Words
  import opened WordArrays

  // ----- The alphabet: index i of the map string, and its inverse -----

  const PAD: char := '='

  const UPPER: string := "ABCDEFGHIJKLMNOPQRSTUVWXYZ"
  const LOWER: string := "abcdefghijklmnopqrstuvwxyz"
  const MAP: string := UPPER + LOWER + "0123456789" + "+/="

  function CharAt(i: nat): char
    requires i < 64
  {
    if i < 26 then ('A' as int + i) as char
    else if i < 52 then ('a' as int + i - 26) as char
    else if i < 62 then ('0' as int + i - 52) as char
    else if i == 62 then '+' else '/'
  }

  predicate InAlphabet(c: char) {
    'A' <= c <= 'Z' || 'a' <= c <= 'z' || '0' <= c <= '9' || c == '+' || c == '/'
  }

  function IndexOf(c: char): (i: nat)
    requires InAlphabet(c)
    ensures i < 64
  {
    if 'A' <= c <= 'Z' then c as int - 'A' as int
    else if 'a' <= c <= 'z' then c as int - 'a' as int + 26
    else if '0' <= c <= '9' then c as int - '0' as int + 52
    else if c == '+' then 62 else 63
  }

  lemma IndexOfCharAt(i: nat)
    requires i < 64
    ensures InAlphabet(CharAt(i)) && IndexOf(CharAt(i)) == i
  {
  }

  // ----- The reference, on 6-bit groups held in bytes -----

  function Top(a: bv8): bv8 { a >> 2 }
  function Mid1(a: bv8, b: bv8): bv8 { ((a & 3) << 4) | (b >> 4) }
  function Mid2(b: bv8, c: bv8): bv8 { ((b & 15) << 2) | (c >> 6) }
  function Low(c: bv8): bv8 { c & 63 }

  /** Group j of a byte string, which is read as 0 past its end. */
  function GroupAt(bs: seq<bv8>, j: nat): bv8 {
    var k, v := 3 * (j / 4), j % 4;
    if v == 0 then Top(ByteOr0(bs, k))
    else if v == 1 then Mid1(ByteOr0(bs, k), ByteOr0(bs, k + 1))
    else if v == 2 then Mid2(ByteOr0(bs, k + 1), ByteOr0(bs, k + 2))
    else Low(ByteOr0(bs, k + 2))
  }

  function GroupCount(n: nat): nat { (4 * n + 2) / 3 }

  function Groups(bs: seq<bv8>): (gs: seq<bv8>)
    ensures |gs| == GroupCount(|bs|)
  {
    seq(GroupCount(|bs|), j requires 0 <= j < GroupCount(|bs|) => GroupAt(bs, j))
  }

  function First(x: bv8, y: bv8): bv8 { (x << 2) | (y >> 4) }
  function Second(x: bv8, y: bv8): bv8 { (x << 4) | (y >> 2) }
  function Third(x: bv8, y: bv8): bv8 { (x << 6) | y }

  /** How many bytes n groups make. */
  function ByteCount(n: nat): nat { 3 * (n / 4) + if n % 4 == 0 then 0 else n % 4 - 1 }

  /** Byte k of a string of groups. */
  function Decoded(gs: seq<bv8>, k: nat): bv8
    requires 4 * (k / 3) + k % 3 + 1 < |gs|
  {
    var w := 4 * (k / 3) + k % 3;
    if k % 3 == 0 then First(gs[w], gs[w + 1])
    else if k % 3 == 1 then Second(gs[w], gs[w + 1])
    else Third(gs[w], gs[w + 1])
  }

  function Ungroup(gs: seq<bv8>): (bs: seq<bv8>)
    ensures |bs| == ByteCount(|gs|)
  {
    seq(ByteCount(|gs|), k requires 0 <= k < ByteCount(|gs|) => Decoded(gs, k))
  }

  lemma GroupsOverlap(a: bv8, b: bv8, c: bv8)
    ensures First(Top(a), Mid1(a, b)) == a
    ensures Second(Mid1(a, b), Mid2(b, c)) == b
    ensures Third(Mid2(b, c), Low(c)) == c
  {
  }

  lemma GroupsAreSmall(a: bv8, b: bv8)
    ensures Top(a) < 64 && Mid1(a, b) < 64 && Mid2(a, b) < 64 && Low(a) < 64
  {
  }

  lemma GroupIsSmall(bs: seq<bv8>, j: nat)
    ensures GroupAt(bs, j) < 64
  {
    hide Top, Mid1, Mid2, Low;
    var k := 3 * (j / 4);
    GroupsAreSmall(ByteOr0(bs, k), ByteOr0(bs, k + 1));
    GroupsAreSmall(ByteOr0(bs, k + 1), ByteOr0(bs, k + 2));
    GroupsAreSmall(ByteOr0(bs, k + 2), 0);
  }

  /** Ungrouping undoes grouping, for every byte string. */
  lemma UngroupOfGroups(bs: seq<bv8>)
    ensures Ungroup(Groups(bs)) == bs
  {
    hide Decoded;
    CountsMatch(|bs|);
    forall k | 0 <= k < |bs| ensures Decoded(Groups(bs), k) == bs[k] { DecodedGroup(bs, k); }
  }

  lemma DecodedGroup(bs: seq<bv8>, k: nat)
    requires k < |bs|
    ensures 4 * (k / 3) + k % 3 + 1 < |Groups(bs)| && Decoded(Groups(bs), k) == bs[k]
  {
    hide Top, Mid1, Mid2, Low, First, Second, Third, GroupAt, ByteOr0;
    var gs, q, m := Groups(bs), k / 3, k % 3;
    GroupsAround(bs, q);
    GroupsOverlap(ByteOr0(bs, 3 * q), ByteOr0(bs, 3 * q + 1), ByteOr0(bs, 3 * q + 2));
    var w := 4 * q + m;
    assert w + 1 < GroupCount(|bs|);
    assert gs[w] == GroupAt(bs, w) && gs[w + 1] == GroupAt(bs, w + 1);
    assert ByteOr0(bs, k) == bs[k] by { ByteHere(bs, k); }
    if m == 0 { assert k == 3 * q; } else if m == 1 { assert k == 3 * q + 1; } else { assert k == 3 * q + 2; }
  }

  lemma ByteHere(bs: seq<bv8>, k: nat)
    requires k < |bs|
    ensures ByteOr0(bs, k) == bs[k]
  {
  }

  lemma GroupsAround(bs: seq<bv8>, q: nat)
    ensures var a, b, c := ByteOr0(bs, 3 * q), ByteOr0(bs, 3 * q + 1), ByteOr0(bs, 3 * q + 2);
            && GroupAt(bs, 4 * q) == Top(a) && GroupAt(bs, 4 * q + 1) == Mid1(a, b)
            && GroupAt(bs, 4 * q + 2) == Mid2(b, c) && GroupAt(bs, 4 * q + 3) == Low(c)
  {
    hide Top, Mid1, Mid2, Low, ByteOr0;
    assert 4 * q / 4 == q && (4 * q + 1) / 4 == q && (4 * q + 2) / 4 == q && (4 * q + 3) / 4 == q;
  }

  lemma CountsMatch(n: nat)
    ensures ByteCount(GroupCount(n)) == n
  {
    var q := n / 3;
    if n % 3 == 0 { assert GroupCount(n) == 4 * q; }
    else if n % 3 == 1 { assert GroupCount(n) == 4 * q + 2; }
    else { assert GroupCount(n) == 4 * q + 3; }
  }

  // ----- The reference, on strings -----

  function CharOf(g: bv8): (c: char)
    requires g < 64
  {
    CharAt(g as nat)
  }

  function IndexByte(c: char): (g: bv8)
    requires InAlphabet(c)
  {
    IndexOf(c) as bv8
  }

  lemma IndexByteOfCharOf(g: bv8)
    requires g < 64
    ensures InAlphabet(CharOf(g)) && CharOf(g) != PAD && IndexByte(CharOf(g)) == g
  {
    IndexOfCharAt(g as nat);
  }

  function PadCount(n: nat): nat { (4 - n % 4) % 4 }

  /** The characters of the groups, with padding up to a multiple of four. */
  function Encode(bs: seq<bv8>): (s: string)
    ensures |s| == GroupCount(|bs|) + PadCount(GroupCount(|bs|)) && |s| % 4 == 0
  {
    var n := GroupCount(|bs|);
    seq(n, j requires 0 <= j < n => GroupIsSmall(bs, j); CharOf(GroupAt(bs, j))) + seq(PadCount(n), _ => PAD)
  }

  /** What stands before the first padding character. */
  function Unpadded(s: string): (t: string)
    ensures |t| <= |s| && t == s[..|t|] && (|t| < |s| ==> s[|t|] == PAD)
    ensures forall i :: 0 <= i < |t| ==> t[i] != PAD
  {
    if s == [] || s[0] == PAD then [] else [s[0]] + Unpadded(s[1..])
  }

  predicate Readable(s: string) {
    forall i :: 0 <= i < |Unpadded(s)| ==> InAlphabet(Unpadded(s)[i])
  }

  function Indices(t: string): (gs: seq<bv8>)
    requires forall i :: 0 <= i < |t| ==> InAlphabet(t[i])
    ensures |gs| == |t|
  {
    seq(|t|, i requires 0 <= i < |t| => IndexByte(t[i]))
  }

  function Decode(s: string): seq<bv8>
    requires Readable(s)
  {
    Ungroup(Indices(Unpadded(s)))
  }

  lemma {:induction false} UnpaddedLength(s: string, n: nat)
    requires n <= |s| && (n < |s| ==> s[n] == PAD) && forall i :: 0 <= i < n ==> s[i] != PAD
    ensures |Unpadded(s)| == n
  {
    if n > 0 { UnpaddedLength(s[1..], n - 1); }
  }

  /** Decoding undoes encoding, for every byte string. */
  lemma RoundTrip(bs: seq<bv8>)
    ensures Readable(Encode(bs)) && Decode(Encode(bs)) == bs
  {
    hide CharOf, IndexByte, InAlphabet, GroupAt, Ungroup;
    var n, s := GroupCount(|bs|), Encode(bs);
    forall j | 0 <= j < n
      ensures s[j] != PAD && InAlphabet(s[j]) && IndexByte(s[j]) == GroupAt(bs, j)
    {
      GroupIsSmall(bs, j);
      IndexByteOfCharOf(GroupAt(bs, j));
    }
    assert forall j :: n <= j < |s| ==> s[j] == PAD;
    var t := Unpadded(s);
    UnpaddedLength(s, n);
    assert Indices(t) == Groups(bs);
    UngroupOfGroups(bs);
  }

  lemma VectorGroups()
    ensures Top(0x66) == 25 && Mid1(0x66, 0) == 32 && Mid1(0x66, 0x6f) == 38
    ensures Mid2(0x6f, 0) == 60 && Mid2(0x6f, 0x6f) == 61 && Low(0x6f) == 47
  {
  }

  lemma VectorChars()
    ensures CharOf(25) == 'Z' && CharOf(32) == 'g' && CharOf(38) == 'm' && CharOf(60) == '8'
    ensures CharOf(61) == '9' && CharOf(47) == 'v'
  {
  }

  lemma Vector1()
    ensures Encode([0x66]) == "Zg=="
  {
    hide Top, Mid1, Mid2, Low, CharOf;
    VectorGroups();
    VectorChars();
  }

  lemma Vector2()
    ensures Encode([0x66, 0x6f]) == "Zm8="
  {
    hide Top, Mid1, Mid2, Low, CharOf;
    VectorGroups();
    VectorChars();
  }

  lemma Vector3()
    ensures Encode([0x66, 0x6f, 0x6f]) == "Zm9v"
  {
    hide Top, Mid1, Mid2, Low, CharOf;
    VectorGroups();
    VectorChars();
  }

  /** The test vectors of section 10 of RFC 4648 for one, two and three bytes. */
  lemma Vectors()
    ensures Encode([0x66]) == "Zg==" && Encode([0x66, 0x6f]) == "Zm8=" && Encode([0x66, 0x6f, 0x6f]) == "Zm9v"
  {
    hide Encode;
    Vector1();
    Vector2();
    Vector3();
  }

  // ----- The encoder: three bytes make a 24-bit number, cut in four -----

  function Three(a: bv8, b: bv8, c: bv8): bv32 { ((a as bv32) << 16) | ((b as bv32) << 8) | (c as bv32) }

  /** w >>> 6 * (3 - v) & 63 */
  function Sextet(w: bv32, v: nat): bv8
    requires v < 4
  {
    (if v == 0 then (w >> 18) & 63 else if v == 1 then (w >> 12) & 63
     else if v == 2 then (w >> 6) & 63 else w & 63) as bv8
  }

  lemma SextetsAreGroups(a: bv8, b: bv8, c: bv8)
    ensures Sextet(Three(a, b, c), 0) == Top(a) && Sextet(Three(a, b, c), 1) == Mid1(a, b)
    ensures Sextet(Three(a, b, c), 2) == Mid2(b, c) && Sextet(Three(a, b, c), 3) == Low(c)
  {
  }

  /** Every group is cut from the three clamped bytes around it. */
  lemma SextetIsGroup(ws: seq<bv32>, p: nat, r: nat, v: nat)
    requires Clean(ws, p) && r % 3 == 0 && v < 4
    ensures Sextet(Three(ByteAt(ws, r), ByteAt(ws, r + 1), ByteAt(ws, r + 2)), v)
         == GroupAt(Bytes(ws, p), 4 * (r / 3) + v)
  {
    hide ByteAt, Sextet, Three, Top, Mid1, Mid2, Low;
    CleanPast(ws, p);
    SextetsAreGroups(ByteAt(ws, r), ByteAt(ws, r + 1), ByteAt(ws, r + 2));
    var j := 4 * (r / 3) + v;
    assert 3 * (j / 4) == r && j % 4 == v;
    if v == 0 {} else if v == 1 {} else if v == 2 {} else { assert v == 3; }
  }

  function MapChar(g: bv8): (c: char)
    requires g < 64
    ensures c == CharOf(g)
  {
    MapAt(g as nat);
    MAP[g as nat]
  }

  lemma MapAt(i: nat)
    requires i < 64
    ensures MAP[i] == CharAt(i)
  {
    UpperAt(if i < 26 then i else 0);
    LowerAt(if 26 <= i < 52 then i - 26 else 0);
  }

  /** Searching the map finds exactly the alphabet's indices. */
  lemma MapIndex(c: char, i: nat)
    requires i < 64
    ensures MAP[i] == c <==> InAlphabet(c) && IndexOf(c) == i
  {
    MapAt(i);
    IndexOfCharAt(i);
  }

  lemma UpperAt(i: nat)
    requires i < 26
    ensures UPPER[i] as int == 'A' as int + i
  {
  }

  lemma LowerAt(i: nat)
    requires i < 26
    ensures LOWER[i] as int == 'a' as int + i
  {
  }

  /** The string s spells the first groups of bs. */
  ghost predicate Spells(s: string, bs: seq<bv8>) {
    forall j :: 0 <= j < |s| ==> GroupAt(bs, j) < 64 && s[j] == CharOf(GroupAt(bs, j))
  }

  method Stringify(d: WordArray) returns (s: string)
    modifies d`words
    ensures s == Encode(old(d.Value())) && d.Value() == old(d.Value()) && d.IsClean()
  {
    hide ByteAt, GroupAt, CharOf, Clean, Bytes;
    var p := d.sigBytes;
    d.Clamp();
    var l := d.words;
    ghost var bs := Bytes(l, p);
    s := [];
    assert Spells(s, bs);
    var r := 0;
    while r < p
      invariant r % 3 == 0 && r < p + 3 && |s| == if r <= p then 4 * (r / 3) else GroupCount(p)
      invariant Spells(s, bs) && d.words == l
    {
      s := PushGroups(l, p, r, s);
      r := r + 3;
    }
    s := PushPadding(s);
    assert s == Encode(bs);
  }

  /** The inner loop: the characters of the bytes r, r + 1 and r + 2, as far as there are such bytes. */
  method PushGroups(l: seq<bv32>, p: nat, r: nat, s: string) returns (t: string)
    requires Clean(l, p) && r % 3 == 0 && r < p && |s| == 4 * (r / 3) && Spells(s, Bytes(l, p))
    ensures |t| == if r + 3 <= p then |s| + 4 else GroupCount(p)
    ensures Spells(t, Bytes(l, p))
  {
    hide ByteAt, Sextet, Three, GroupAt, CharOf, Clean, Bytes;
    var w := Three(ByteAt(l, r), ByteAt(l, r + 1), ByteAt(l, r + 2));
    t := s;
    var v := 0;
    while v < 4 && 4 * r + 3 * v < 4 * p   // r + 0.75 * v < p
      invariant v <= 4 && |t| == 4 * (r / 3) + v && 4 * r + 3 * v < 4 * p + 3
      invariant Spells(t, Bytes(l, p))
    {
      SextetIsGroup(l, p, r, v);
      GroupIsSmall(Bytes(l, p), 4 * (r / 3) + v);
      t := t + [MapChar(Sextet(w, v))];
      v := v + 1;
    }
  }

  method PushPadding(s: string) returns (t: string)
    ensures t == s + seq(PadCount(|s|), _ => PAD)
  {
    t := s;
    while |t| % 4 != 0
      invariant |s| <= |t| <= |s| + PadCount(|s|)
      invariant t == s + seq(|t| - |s|, _ => PAD)
      decreases |s| + PadCount(|s|) - |t|
    {
      t := t + [MAP[64]];
    }
  }

  // ----- The decoder: each character but the first of four finishes a byte, and repeats bits of the one before -----

  /** indexOf in the map: -1, read as a 32-bit word, for a foreign character. */
  function Index32(c: char): bv32 {
    if InAlphabet(c) then Widen(IndexByte(c)) else 0xFFFF_FFFF
  }

  function Widen(g: bv8): bv32 { g as bv32 }

  /** x << 2 * m | y >>> 6 - 2 * m: ten or twelve bits, of which the last eight are the byte. */
  function Wide(x: bv32, y: bv32, m: nat): bv32
    requires 0 < m < 4
  {
    if m == 1 then (x << 2) | (y >> 4) else if m == 2 then (x << 4) | (y >> 2) else (x << 6) | y
  }

  /** v << 24 - 8 * k: what leaves the word at the left is lost. */
  function Shifted(v: bv32, k: nat): bv32
    requires k < 4
  {
    if k == 0 then v << 24 else if k == 1 then v << 16 else if k == 2 then v << 8 else v
  }

  function Finished(x: bv8, y: bv8, m: nat): bv8
    requires 0 < m < 4
  {
    if m == 1 then First(x, y) else if m == 2 then Second(x, y) else Third(x, y)
  }

  /** The bits that spill over to the left of the byte. */
  function Spill(x: bv8, m: nat): bv8
    requires 0 < m < 4
  {
    if m == 1 then 0 else if m == 2 then x >> 4 else x >> 2
  }

  lemma WideLeft(x: bv8, y: bv8, m: nat)
    requires x < 64 && y < 64 && 0 < m < 4
    ensures var v := Wide(Widen(x), Widen(y), m); ByteOf(v, 0) == 0 && ByteOf(v, 1) == 0
  {
  }
  lemma WideSpill(x: bv8, y: bv8, m: nat)
    requires x < 64 && y < 64 && 0 < m < 4
    ensures var v := Wide(Widen(x), Widen(y), m); ByteOf(v, 2) == Spill(x, m)
  {
  }
  lemma WideRight(x: bv8, y: bv8, m: nat)
    requires x < 64 && y < 64 && 0 < m < 4
    ensures var v := Wide(Widen(x), Widen(y), m); ByteOf(v, 3) == Finished(x, y, m)
  {
  }

  lemma ShiftedBy1(v: bv32)
    ensures var w := Shifted(v, 2);
            ByteOf(w, 0) == ByteOf(v, 1) && ByteOf(w, 1) == ByteOf(v, 2)
            && ByteOf(w, 2) == ByteOf(v, 3) && ByteOf(w, 3) == 0
  {
  }

  lemma ShiftedBy2(v: bv32)
    ensures var w := Shifted(v, 1);
            ByteOf(w, 0) == ByteOf(v, 2) && ByteOf(w, 1) == ByteOf(v, 3) && ByteOf(w, 2) == 0 && ByteOf(w, 3) == 0
  {
  }

  lemma ShiftedBy3(v: bv32)
    ensures var w := Shifted(v, 0);
            ByteOf(w, 0) == ByteOf(v, 3) && ByteOf(w, 1) == 0 && ByteOf(w, 2) == 0 && ByteOf(w, 3) == 0
  {
  }

  lemma ShiftedBy0(v: bv32)
    ensures Shifted(v, 3) == v
  {
  }

  /** A wide value at place k sets byte k and the byte before it, which is lost when k is 0. */
  lemma WideAt(x: bv8, y: bv8, m: nat, k: nat, j: nat)
    requires x < 64 && y < 64 && 0 < m < 4 && k < 4 && j < 4
    ensures ByteOf(Shifted(Wide(Widen(x), Widen(y), m), k), j)
         == if j == k then Finished(x, y, m) else if j + 1 == k then Spill(x, m) else 0
  {
    hide *;
    var v := Wide(Widen(x), Widen(y), m);
    WideLeft(x, y, m);
    WideSpill(x, y, m);
    WideRight(x, y, m);
    if k == 0 { ShiftedBy3(v); } else if k == 1 { ShiftedBy2(v); }
    else if k == 2 { ShiftedBy1(v); } else { assert k == 3; ShiftedBy0(v); }
    if j == 0 {} else if j == 1 {} else if j == 2 {} else { assert j == 3; }
  }

  lemma SpillRepeats(u: bv8, x: bv8, b: bv8)
    ensures First(u, x) | Spill(x, 2) == First(u, x) && Second(u, x) | Spill(x, 3) == Second(u, x)
    ensures b | Spill(x, 1) == b && 0 | b == b && b | 0 == b
  {
  }

  lemma OrByte0(v: bv32, w: bv32)
    ensures ByteOf(Or(v, w), 0) == ByteOf(v, 0) | ByteOf(w, 0)
  {
  }
  lemma OrByte1(v: bv32, w: bv32)
    ensures ByteOf(Or(v, w), 1) == ByteOf(v, 1) | ByteOf(w, 1)
  {
  }
  lemma OrByte2(v: bv32, w: bv32)
    ensures ByteOf(Or(v, w), 2) == ByteOf(v, 2) | ByteOf(w, 2)
  {
  }
  lemma OrByte3(v: bv32, w: bv32)
    ensures ByteOf(Or(v, w), 3) == ByteOf(v, 3) | ByteOf(w, 3)
  {
  }

  lemma OrBytes(v: bv32, w: bv32, k: nat)
    requires k < 4
    ensures ByteOf(Or(v, w), k) == ByteOf(v, k) | ByteOf(w, k)
  {
    hide *;
    if k == 0 { OrByte0(v, w); } else if k == 1 { OrByte1(v, w); }
    else if k == 2 { OrByte2(v, w); } else { assert k == 3; OrByte3(v, w); }
  }

  /** t[r >>> 2] |= v << 24 - 8 * (r % 4) */
  function OrInto(t: seq<bv32>, r: nat, v: bv32): seq<bv32> {
    Put(t, r / 4, Or(Word(t, r / 4), Shifted(v, r % 4)))
  }

  lemma OrIntoBytes(t: seq<bv32>, r: nat, x: bv8, y: bv8, m: nat, i: nat)
    requires x < 64 && y < 64 && 0 < m < 4
    ensures ByteAt(OrInto(t, r, Wide(Widen(x), Widen(y), m)), i)
         == ByteAt(t, i) | if i == r then Finished(x, y, m) else if i + 1 == r && r % 4 != 0 then Spill(x, m) else 0
  {
    hide ByteOf, Or, Put, Shifted, Wide, Widen, Finished, Spill;
    var v := Wide(Widen(x), Widen(y), m);
    if i / 4 == r / 4 {
      OrBytes(Word(t, r / 4), Shifted(v, r % 4), i % 4);
      WideAt(x, y, m, r % 4, i % 4);
    } else {
      SpillRepeats(0, 0, ByteAt(t, i));
    }
  }

  /** The words hold the first r decoded bytes and nothing else. */
  ghost predicate Built(t: seq<bv32>, gs: seq<bv8>, r: nat) {
    && |t| == (r + 3) / 4
    && forall i: nat :: ByteAt(t, i) == if i < r && 4 * (i / 3) + i % 3 + 1 < |gs| then Decoded(gs, i) else 0
  }

  /** Group w finishes byte r; the bits it spills are there already, or fall off the word. */
  lemma Builds(t: seq<bv32>, gs: seq<bv8>, w: nat, r: nat)
    requires forall j :: 0 <= j < |gs| ==> gs[j] < 64
    requires w < |gs| && w % 4 != 0 && r == ByteCount(w) && Built(t, gs, r)
    ensures Built(OrInto(t, r, Wide(Widen(gs[w - 1]), Widen(gs[w]), w % 4)), gs, r + 1)
  {
    hide ByteAt, Finished, Spill, OrInto, Decoded, Wide;
    var x, y, m := gs[w - 1], gs[w], w % 4;
    var t' := OrInto(t, r, Wide(Widen(x), Widen(y), m));
    OrIntoLength(t, r, Wide(Widen(x), Widen(y), m));
    DecodedHere(gs, w, r);
    forall i: nat ensures ByteAt(t', i) == if i < r + 1 && 4 * (i / 3) + i % 3 + 1 < |gs| then Decoded(gs, i) else 0 {
      OrIntoBytes(t, r, x, y, m, i);
      SpillRepeats(0, x, ByteAt(t, i));
      SpillRepeats(0, x, Finished(x, y, m));
    }
  }

  lemma OrIntoLength(t: seq<bv32>, r: nat, v: bv32)
    requires |t| == (r + 3) / 4
    ensures |OrInto(t, r, v)| == (r + 4) / 4
  {
  }

  /** Byte r is finished by groups w - 1 and w, and the byte before it holds the bits that w - 1 spills. */
  lemma DecodedHere(gs: seq<bv8>, w: nat, r: nat)
    requires w < |gs| && w % 4 != 0 && r == ByteCount(w)
    ensures 4 * (r / 3) + r % 3 + 1 == w && Decoded(gs, r) == Finished(gs[w - 1], gs[w], w % 4)
    ensures r > 0 && w % 4 > 1 ==>
      4 * ((r - 1) / 3) + (r - 1) % 3 + 1 < |gs| && Decoded(gs, r - 1) | Spill(gs[w - 1], w % 4) == Decoded(gs, r - 1)
  {
    hide First, Second, Third, Spill;
    assert r / 3 == w / 4 && r % 3 == w % 4 - 1;
    if w % 4 > 1 {
      assert (r - 1) / 3 == w / 4 && (r - 1) % 3 == w % 4 - 2;
      SpillRepeats(gs[w - 2], gs[w - 1], 0);
    }
  }

  lemma IndicesAreSmall(t: string)
    requires forall i :: 0 <= i < |t| ==> InAlphabet(t[i])
    ensures forall i :: 0 <= i < |t| ==> Indices(t)[i] < 64
  {
    forall i | 0 <= i < |t| ensures IndexByte(t[i]) < 64 { IndexIsSmall(t[i]); }
  }

  lemma IndexIsSmall(c: char)
    requires InAlphabet(c)
    ensures IndexByte(c) < 64
  {
  }

  lemma BuiltBytes(t: seq<bv32>, gs: seq<bv8>, r: nat)
    requires r == ByteCount(|gs|) && Built(t, gs, r)
    ensures Bytes(t, r) == Ungroup(gs) && Clean(t, r)
  {
    hide ByteAt, Decoded;
    forall i | 0 <= i < r ensures 4 * (i / 3) + i % 3 + 1 < |gs| {}
  }

  /** Text from outside is accepted too: its foreign characters then count as -1. */
  method Parse(d: string) returns (a: WordArray)
    ensures fresh(a) && a.sigBytes == ByteCount(|Unpadded(d)|)
    ensures Readable(d) ==> a.Value() == Decode(d) && a.IsClean()
  {
    hide ByteAt, OrInto, Wide, InAlphabet, IndexByte, Built, Bytes, Clean, Ungroup, Unpadded;
    var l := |Unpadded(d)|;   // d.indexOf("="), or the whole length
    ghost var gs := if Readable(d) then Indices(Unpadded(d)) else [];
    if Readable(d) { IndicesAreSmall(Unpadded(d)); }
    var t, r, w := [], 0, 0;
    NothingBuilt(gs);
    while w < l
      invariant w <= l && r == ByteCount(w)
      invariant Readable(d) ==> Built(t, gs, r)
    {
      if w % 4 != 0 {
        if Readable(d) { Builds(t, gs, w, r); }
        t := OrInto(t, r, Wide(Index32(d[w - 1]), Index32(d[w]), w % 4));
        r := r + 1;
      }
      w := w + 1;
    }
    if Readable(d) { BuiltBytes(t, gs, r); }
    a := new WordArray(t, r);
  }

  lemma NothingBuilt(gs: seq<bv8>)
    ensures Built([], gs, 0)
  {
    forall i: nat ensures ByteAt([], i) == 0 { ByteAtPast([], i); }
  }
}

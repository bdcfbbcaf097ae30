/**
  The SHA-256 and SHA-1 block functions as the script computes them: on double-precision numbers that are not
  reduced after every addition.  Against sections 6.2.2 and 6.1.2 of FIPS 180-4, where every word is a number
  modulo 2^32.
 */
module Sha {
  import opened Numbers
  import opened Words

  const TWO31: int := 0x8000_0000
  const TWO53: int := 0x20_0000_0000_0000

  function U32(x: int): nat { x % TWO32 }

  /** x | 0: the low 32 bits, read as a signed number. */
  function S32(x: int): int { var u := U32(x); if u < TWO31 then u else u - TWO32 }

  predicate IsInt32(x: int) { -TWO31 <= x < TWO31 }

  /** A double holds every integer up to 2^53 in magnitude; beyond, a sum is rounded to something else. */
  ghost predicate Rounding(round: int -> int) {
    forall x :: -TWO53 <= x <= TWO53 ==> round(x) == x
  }

  /** A rounding as doubles do it just above 2^53, where only even numbers are left. */
  function Even(x: int): int { if -9007199254740992 <= x <= 9007199254740992 then x else 2 * (x / 2) }

  /** The assumption admits it, so a proof from the assumption really shows that no such sum occurs. */
  lemma DoublesRound()
    ensures Rounding(Even) && Even(9007199254740993) != 9007199254740993
  {
  }

  // ----- Words and bit vectors -----

  function Bits(x: int): bv32 { WordOf(U32(x)) }

  function Unsigned(b: bv32): (n: nat)
    ensures n < TWO32
  {
    WordOfNumberOf(b);
    NumberOf(b)
  }

  /** Taking the low 32 bits and reading them back are inverse: x modulo 2^32, and the word itself. */
  lemma BitsAreNumbers(x: int, b: bv32)
    ensures Unsigned(Bits(x)) == U32(x) && Bits(Unsigned(b)) == b
  {
    hide NumberOf, WordOf;
    NumberOfWordOf(U32(x));
    WordOfNumberOf(b);
  }

  function Signed(b: bv32): int { S32(Unsigned(b)) }

  lemma SignedFacts(b: bv32)
    ensures IsInt32(Signed(b)) && U32(Signed(b)) == Unsigned(b)
  {
    hide Unsigned;
  }

  lemma BitsOfU32(x: int)
    ensures Bits(U32(x)) == Bits(x)
  {
  }

  // ----- Section 4.1.2 of FIPS 180-4 -----

  function Ch(x: bv32, y: bv32, z: bv32): bv32 { (x & y) ^ (!x & z) }
  function Maj(x: bv32, y: bv32, z: bv32): bv32 { (x & y) ^ (x & z) ^ (y & z) }
  function BigSigma0(x: bv32): bv32 { x.RotateRight(2) ^ x.RotateRight(13) ^ x.RotateRight(22) }
  function BigSigma1(x: bv32): bv32 { x.RotateRight(6) ^ x.RotateRight(11) ^ x.RotateRight(25) }
  function SmallSigma0(x: bv32): bv32 { x.RotateRight(7) ^ x.RotateRight(18) ^ (x >> 3) }
  function SmallSigma1(x: bv32): bv32 { x.RotateRight(17) ^ x.RotateRight(19) ^ (x >> 10) }

  /** Where the standard's functions send single bits: the rotations and shifts of section 4.1.2 one by one. */
  lemma SigmaValues()
    ensures BigSigma0(1) == 0x40080400 && BigSigma1(1) == 0x04200080
    ensures SmallSigma0(1) == 0x02004000 && SmallSigma0(0x8000_0000) == 0x11002000
    ensures SmallSigma1(1) == 0x0000A000 && SmallSigma1(0x8000_0000) == 0x00205000
  {
  }

  /** Ch chooses and Maj votes, whatever the bits. */
  lemma ChooseAndVote(x: bv32, y: bv32, z: bv32)
    ensures Ch(0xFFFF_FFFF, y, z) == y && Ch(0, y, z) == z
    ensures Maj(x, x, z) == x && Maj(x, y, x) == x && Maj(x, y, y) == y
  {
  }

  // ----- The same, as the script writes them -----

  function ScriptBig0(e: bv32): bv32 { ((e << 30) | (e >> 2)) ^ ((e << 19) | (e >> 13)) ^ ((e << 10) | (e >> 22)) }
  function ScriptBig1(h: bv32): bv32 { ((h << 26) | (h >> 6)) ^ ((h << 21) | (h >> 11)) ^ ((h << 7) | (h >> 25)) }
  function ScriptSmall0(k: bv32): bv32 { ((k << 25) | (k >> 7)) ^ ((k << 14) | (k >> 18)) ^ (k >> 3) }
  function ScriptSmall1(l: bv32): bv32 { ((l << 15) | (l >> 17)) ^ ((l << 13) | (l >> 19)) ^ (l >> 10) }

  lemma ScriptBigIsFips(x: bv32)
    ensures ScriptBig0(x) == BigSigma0(x) && ScriptBig1(x) == BigSigma1(x)
  {
  }
  lemma ScriptSmallIsFips(x: bv32)
    ensures ScriptSmall0(x) == SmallSigma0(x) && ScriptSmall1(x) == SmallSigma1(x)
  {
  }

  // ----- Bit functions on numbers: the standard's and the script's -----

  function FipsSmall0(x: int): nat { Unsigned(SmallSigma0(Bits(x))) }
  function FipsSmall1(x: int): nat { Unsigned(SmallSigma1(Bits(x))) }
  function FipsBig0(x: int): nat { Unsigned(BigSigma0(Bits(x))) }
  function FipsBig1(x: int): nat { Unsigned(BigSigma1(Bits(x))) }
  function FipsCh(x: int, y: int, z: int): nat { Unsigned(Ch(Bits(x), Bits(y), Bits(z))) }
  function FipsMaj(x: int, y: int, z: int): nat { Unsigned(Maj(Bits(x), Bits(y), Bits(z))) }

  function JsSmall0(x: int): int { Signed(ScriptSmall0(Bits(x))) }
  function JsSmall1(x: int): int { Signed(ScriptSmall1(Bits(x))) }
  function JsBig0(x: int): int { Signed(ScriptBig0(Bits(x))) }
  function JsBig1(x: int): int { Signed(ScriptBig1(Bits(x))) }
  function JsCh(x: int, y: int, z: int): int { Signed((Bits(x) & Bits(y)) ^ (!Bits(x) & Bits(z))) }
  function JsMaj(x: int, y: int, z: int): int {
    Signed((Bits(x) & Bits(y)) ^ (Bits(x) & Bits(z)) ^ (Bits(y) & Bits(z)))
  }

  lemma SmallAgree(x: int)
    ensures IsInt32(JsSmall0(x)) && U32(JsSmall0(x)) == FipsSmall0(U32(x))
    ensures IsInt32(JsSmall1(x)) && U32(JsSmall1(x)) == FipsSmall1(U32(x))
  {
    hide Bits, Signed, Unsigned, SmallSigma0, SmallSigma1, ScriptSmall0, ScriptSmall1, U32, IsInt32;
    BitsOfU32(x);
    ScriptSmallIsFips(Bits(x));
    SignedFacts(ScriptSmall0(Bits(x)));
    SignedFacts(ScriptSmall1(Bits(x)));
  }

  lemma BigAgree(x: int)
    ensures IsInt32(JsBig0(x)) && U32(JsBig0(x)) == FipsBig0(U32(x))
    ensures IsInt32(JsBig1(x)) && U32(JsBig1(x)) == FipsBig1(U32(x))
  {
    hide Bits, Signed, Unsigned, BigSigma0, BigSigma1, ScriptBig0, ScriptBig1, U32, IsInt32;
    BitsOfU32(x);
    ScriptBigIsFips(Bits(x));
    SignedFacts(ScriptBig0(Bits(x)));
    SignedFacts(ScriptBig1(Bits(x)));
  }

  lemma ChMajAgree(x: int, y: int, z: int)
    ensures IsInt32(JsCh(x, y, z)) && U32(JsCh(x, y, z)) == FipsCh(U32(x), U32(y), U32(z))
    ensures IsInt32(JsMaj(x, y, z)) && U32(JsMaj(x, y, z)) == FipsMaj(U32(x), U32(y), U32(z))
  {
    hide Bits, Signed, Unsigned, U32, IsInt32;
    BitsOfU32(x);
    BitsOfU32(y);
    BitsOfU32(z);
    SignedFacts(Ch(Bits(x), Bits(y), Bits(z)));
    SignedFacts(Maj(Bits(x), Bits(y), Bits(z)));
  }

  lemma S32Facts(x: int)
    ensures IsInt32(S32(x)) && U32(S32(x)) == U32(x)
  {
  }

  lemma SumAgrees(x: int, y: int)
    ensures U32(x + y) == U32(U32(x) + U32(y))
  {
  }

  // ----- SHA-256 according to the standard -----

  function At(m: seq<int>, i: nat): int { if i < |m| then m[i] else 0 }

  /** The message schedule, step 1 of section 6.2.2. */
  ghost function Schedule256(m: seq<int>, t: nat): nat {
    if t < 16 then U32(At(m, t))
    else U32(FipsSmall1(Schedule256(m, t - 2)) + Schedule256(m, t - 7)
             + FipsSmall0(Schedule256(m, t - 15)) + Schedule256(m, t - 16))
  }

  datatype Regs256 = Regs256(a: int, b: int, c: int, d: int, e: int, f: int, g: int, h: int)

  /** Step 3 of section 6.2.2. */
  function Round256(r: Regs256, k: int, w: int): Regs256 {
    var t1 := r.h + FipsBig1(r.e) + FipsCh(r.e, r.f, r.g) + k + w;
    var t2 := FipsBig0(r.a) + FipsMaj(r.a, r.b, r.c);
    Regs256(U32(t1 + t2), r.a, r.b, r.c, U32(r.d + t1), r.e, r.f, r.g)
  }

  ghost function Rounds256(r: Regs256, k: seq<int>, m: seq<int>, t: nat): Regs256 {
    if t == 0 then r else Round256(Rounds256(r, k, m, t - 1), U32(At(k, t - 1)), Schedule256(m, t - 1))
  }

  function Reduce256(r: Regs256): Regs256 {
    Regs256(U32(r.a), U32(r.b), U32(r.c), U32(r.d), U32(r.e), U32(r.f), U32(r.g), U32(r.h))
  }

  // ----- How large the unreduced schedule gets, in units of 2^31 -----

  function Size(p: nat): nat {
    if p < 16 then 1 else 2 + Size(p - 7) + Size(p - 16)
  }

  function Cap(k: nat): nat { if k == 0 then 1 else 2 + 2 * Cap(k - 1) }

  lemma {:induction false} SizeCapped(p: nat, k: nat)
    requires p < 16 + 7 * k
    ensures 1 <= Size(p) <= Cap(k)
  {
    if p >= 16 {
      SizeCapped(p - 7, k - 1);
      SizeCapped(p - 16, k - 1);
    } else if k > 0 {
      SizeCapped(p, 0);
      CapGrows(k);
    }
  }

  lemma {:induction false} CapGrows(k: nat)
    ensures Cap(k) >= 1
  {
    if k > 0 { CapGrows(k - 1); }
  }

  /** Never more than 382 * 2^31, far below 2^53. */
  lemma SizeBelow(p: nat)
    requires p < 64
    ensures 1 <= Size(p) <= 382
  {
    SizeCapped(p, 7);
    assert Cap(7) == 382;
  }

  predicate Within(x: int, units: nat) { -(units * TWO31) <= x <= units * TWO31 }

  lemma Sum4(a: int, b: int, c: int, d: int)
    ensures U32(a + b + c + d) == U32(U32(a) + U32(b) + U32(c) + U32(d))
  {
    hide U32;
    SumAgrees(a, b);
    SumAgrees(a + b, c);
    SumAgrees(a + b + c, d);
    SumAgrees(U32(a) + U32(b), U32(c));
    SumAgrees(U32(a) + U32(b) + U32(c), U32(d));
    Idem(c);
    Idem(d);
  }

  /** One unreduced entry of the schedule: no addition is rounded, and it is right modulo 2^32. */
  lemma ScheduleEntry(round: int -> int, k: int, x7: int, l: int, x16: int, s7: nat, s16: nat)
    requires Rounding(round) && Within(x7, s7) && Within(x16, s16) && s7 <= 382 && s16 <= 382
    ensures var v := round(round(round(JsSmall0(k) + x7) + JsSmall1(l)) + x16);
            && v == JsSmall0(k) + x7 + JsSmall1(l) + x16
            && Within(v, 2 + s7 + s16)
            && U32(v) == U32(FipsSmall1(U32(l)) + U32(x7) + FipsSmall0(U32(k)) + U32(x16))
  {
    hide JsSmall0, JsSmall1, FipsSmall0, FipsSmall1, U32;
    SmallAgree(k);
    SmallAgree(l);
    Sum4(JsSmall1(l), x7, JsSmall0(k), x16);
  }

  ghost predicate Bounded256(r: Regs256) {
    && Within(r.a, 2) && Within(r.b, 2) && Within(r.c, 2) && Within(r.d, 2)
    && Within(r.e, 2) && Within(r.f, 2) && Within(r.g, 2) && Within(r.h, 2)
  }

  /** One round: every sum is exact, and the new registers are right modulo 2^32. */
  lemma RoundEntry(round: int -> int, r: Regs256, k: int, w: int)
    requires Rounding(round) && Bounded256(r) && IsInt32(k) && Within(w, 382)
    ensures var t1 := round(round(round(round(r.h + JsBig1(r.e)) + JsCh(r.e, r.f, r.g)) + k) + w);
            var t2 := round(JsBig0(r.a) + JsMaj(r.a, r.b, r.c));
            var r' := Regs256(S32(round(t1 + t2)), r.a, r.b, r.c, S32(round(r.d + t1)), r.e, r.f, r.g);
            && t1 == r.h + JsBig1(r.e) + JsCh(r.e, r.f, r.g) + k + w && t2 == JsBig0(r.a) + JsMaj(r.a, r.b, r.c)
            && Bounded256(r') && Reduce256(r') == Round256(Reduce256(r), U32(k), U32(w))
  {
    hide JsBig0, JsBig1, JsCh, JsMaj, FipsBig0, FipsBig1, FipsCh, FipsMaj, S32, U32;
    BigAgree(r.a);
    BigAgree(r.e);
    ChMajAgree(r.a, r.b, r.c);
    ChMajAgree(r.e, r.f, r.g);
    var t1 := r.h + JsBig1(r.e) + JsCh(r.e, r.f, r.g) + k + w;
    var t2 := JsBig0(r.a) + JsMaj(r.a, r.b, r.c);
    var u1 := U32(r.h) + FipsBig1(U32(r.e)) + FipsCh(U32(r.e), U32(r.f), U32(r.g)) + U32(k) + U32(w);
    var u2 := FipsBig0(U32(r.a)) + FipsMaj(U32(r.a), U32(r.b), U32(r.c));
    S32Facts(t1 + t2);
    S32Facts(r.d + t1);
    Sum4(r.h, JsBig1(r.e), JsCh(r.e, r.f, r.g), k);
    SumAgrees(r.h + JsBig1(r.e) + JsCh(r.e, r.f, r.g) + k, w);
    SumAgrees(u1 - U32(w), U32(w));
    Idem(w);
    assert U32(t1) == U32(u1);
    SumAgrees(JsBig0(r.a), JsMaj(r.a, r.b, r.c));
    assert U32(t2) == U32(u2);
    SumAgrees(t1, t2);
    SumAgrees(u1, u2);
    SumAgrees(r.d, t1);
    SumAgrees(U32(r.d), u1);
    Idem(r.d);
  }

  lemma Idem(x: int)
    ensures U32(U32(x)) == U32(x)
  {
  }

  /** Entry p of the schedule, in the scratch array: a message word, or a sum that is never reduced. */
  method FillEntry256(round: int -> int, c: seq<int>, d: nat, a: array<int>, p: nat)
    requires Rounding(round) && p < 64 <= a.Length && d <= |c|
    requires forall i :: 0 <= i < p ==> U32(a[i]) == Schedule256(c[d..], i) && Within(a[i], Size(i))
    modifies a
    ensures forall i :: 0 <= i < p ==> a[i] == old(a[i])
    ensures U32(a[p]) == Schedule256(c[d..], p) && Within(a[p], Size(p)) && Within(a[p], 382)
  {
    hide U32, S32, JsSmall0, JsSmall1, FipsSmall0, FipsSmall1, Size;
    SizeBelow(p);
    if p < 16 {
      a[p] := S32(At(c, d + p));
      assert At(c[d..], p) == At(c, d + p);
      S32Facts(At(c, d + p));
      SizeStart(p);
    } else {
      var k, l := a[p - 15], a[p - 2];
      SizeBelow(p - 7);
      SizeBelow(p - 16);
      ScheduleEntry(round, k, a[p - 7], l, a[p - 16], Size(p - 7), Size(p - 16));
      a[p] := round(round(round(JsSmall0(k) + a[p - 7]) + JsSmall1(l)) + a[p - 16]);
      SizeStep(p);
    }
  }

  /** The 64 rounds; `a` is the scratch array that all hashers share. */
  method Loop256(round: int -> int, k: seq<int>, start: Regs256, c: seq<int>, d: nat, a: array<int>)
    returns (r: Regs256)
    requires Rounding(round) && |k| == 64 && (forall i :: 0 <= i < 64 ==> IsInt32(k[i]))
    requires a.Length >= 64 && d <= |c| && Bounded256(start)
    modifies a
    ensures Bounded256(r) && Reduce256(r) == Rounds256(Reduce256(start), k, c[d..], 64)
  {
    hide U32, S32, JsBig0, JsBig1, JsCh, JsMaj, Size, Round256, Reduce256, Schedule256, Within,
         Bounded256, IsInt32, Rounding;
    ghost var m := c[d..];
    var Regs256(e, f, g, j, h, mm, n, q) := start;
    var p := 0;
    while p < 64
      invariant p <= 64
      invariant forall i :: 0 <= i < p ==> U32(a[i]) == Schedule256(m, i) && Within(a[i], Size(i))
      invariant Bounded256(Regs256(e, f, g, j, h, mm, n, q))
      invariant Reduce256(Regs256(e, f, g, j, h, mm, n, q)) == Rounds256(Reduce256(start), k, m, p)
    {
      FillEntry256(round, c, d, a, p);
      RoundEntry(round, Regs256(e, f, g, j, h, mm, n, q), k[p], a[p]);
      var t1 := round(round(round(round(q + JsBig1(h)) + JsCh(h, mm, n)) + k[p]) + a[p]);
      var t2 := round(JsBig0(e) + JsMaj(e, f, g));
      q := n;
      n := mm;
      mm := h;
      h := S32(round(j + t1));
      j := g;
      g := f;
      f := e;
      e := S32(round(t1 + t2));
      p := p + 1;
    }
    r := Regs256(e, f, g, j, h, mm, n, q);
  }

  function Regs(h: seq<int>): Regs256
    requires |h| == 8
  {
    Regs256(h[0], h[1], h[2], h[3], h[4], h[5], h[6], h[7])
  }

  function Add256(x: Regs256, y: Regs256): Regs256 {
    Regs256(U32(x.a + y.a), U32(x.b + y.b), U32(x.c + y.c), U32(x.d + y.d),
            U32(x.e + y.e), U32(x.f + y.f), U32(x.g + y.g), U32(x.h + y.h))
  }

  /** The whole block function of section 6.2.2. */
  ghost function Block256(k: seq<int>, h: Regs256, m: seq<int>): Regs256 {
    Add256(h, Rounds256(h, k, m, 64))
  }

  /**
    The SHA-256 block step on the hash words, in place.  Whatever a rounded sum would have been, no sum is rounded,
    and the words are the standard's modulo 2^32.
   */
  method ProcessBlock256(round: int -> int, k: seq<int>, hash: array<int>, c: seq<int>, d: nat, a: array<int>)
    requires Rounding(round) && |k| == 64 && (forall i :: 0 <= i < 64 ==> IsInt32(k[i]))
    requires hash.Length == 8 && a.Length >= 64 && hash != a && d <= |c|
    requires forall i :: 0 <= i < 8 ==> Within(hash[i], 2)
    modifies hash, a
    ensures forall i :: 0 <= i < 8 ==> IsInt32(hash[i])
    ensures Reduce256(Regs(hash[..])) == Block256(k, Reduce256(Regs(old(hash[..]))), c[d..])
  {
    hide U32, Rounds256, Reduce256, Add256;
    ghost var h0 := Regs(hash[..]);
    var r := Loop256(round, k, Regs(hash[..]), c, d, a);
    var Regs256(e, f, g, j, h, m, n, q) := r;
    AddBack(round, hash, 0, e);
    AddBack(round, hash, 1, f);
    AddBack(round, hash, 2, g);
    AddBack(round, hash, 3, j);
    AddBack(round, hash, 4, h);
    AddBack(round, hash, 5, m);
    AddBack(round, hash, 6, n);
    AddBack(round, hash, 7, q);
    ReduceSum(Regs(hash[..]), h0, r);
  }

  /** b[i] = b[i] + y | 0 */
  method AddBack(round: int -> int, hash: array<int>, i: nat, y: int)
    requires Rounding(round) && i < hash.Length && Within(hash[i], 2) && Within(y, 6)
    modifies hash
    ensures IsInt32(hash[i]) && U32(hash[i]) == U32(U32(old(hash[i])) + U32(y))
    ensures forall l :: 0 <= l < hash.Length && l != i ==> hash[l] == old(hash[l])
  {
    FinalWord(round, hash[i], y);
    hash[i] := S32(round(hash[i] + y));
  }

  lemma ReduceSum(z: Regs256, x: Regs256, y: Regs256)
    requires U32(z.a) == U32(U32(x.a) + U32(y.a)) && U32(z.b) == U32(U32(x.b) + U32(y.b))
    requires U32(z.c) == U32(U32(x.c) + U32(y.c)) && U32(z.d) == U32(U32(x.d) + U32(y.d))
    requires U32(z.e) == U32(U32(x.e) + U32(y.e)) && U32(z.f) == U32(U32(x.f) + U32(y.f))
    requires U32(z.g) == U32(U32(x.g) + U32(y.g)) && U32(z.h) == U32(U32(x.h) + U32(y.h))
    ensures Reduce256(z) == Add256(Reduce256(x), Reduce256(y))
  {
    hide U32;
  }

  lemma SizeStart(p: nat)
    requires p < 16
    ensures Size(p) == 1
  {
  }

  lemma SizeStep(p: nat)
    requires p >= 16
    ensures Size(p) == 2 + Size(p - 7) + Size(p - 16)
  {
  }

  lemma FinalWord(round: int -> int, x: int, y: int)
    requires Rounding(round) && Within(x, 2) && Within(y, 6)
    ensures IsInt32(S32(round(x + y))) && U32(S32(round(x + y))) == U32(U32(x) + U32(y))
  {
    S32Facts(x + y);
    SumAgrees(x, y);
  }

  // ----- SHA-1: section 6.1.2 of FIPS 180-4 -----

  datatype Regs1 = Regs1(a: int, b: int, c: int, d: int, e: int)

  function RotL1(x: bv32): bv32 { x.RotateLeft(1) }
  function RotL5(x: bv32): bv32 { x.RotateLeft(5) }
  function RotL30(x: bv32): bv32 { x.RotateLeft(30) }
  function ScriptRotL1(x: bv32): bv32 { (x << 1) | (x >> 31) }
  function ScriptRotL5(x: bv32): bv32 { (x << 5) | (x >> 27) }
  function ScriptRotL30(x: bv32): bv32 { (x << 30) | (x >> 2) }
  function ScriptCh(x: bv32, y: bv32, z: bv32): bv32 { (x & y) | (!x & z) }
  function ScriptMaj(x: bv32, y: bv32, z: bv32): bv32 { (x & y) | (x & z) | (y & z) }
  function Parity(x: bv32, y: bv32, z: bv32): bv32 { x ^ y ^ z }

  function FipsRotL1(x: int): nat { Unsigned(RotL1(Bits(x))) }
  function FipsRotL5(x: int): nat { Unsigned(RotL5(Bits(x))) }
  function FipsRotL30(x: int): nat { Unsigned(RotL30(Bits(x))) }
  function FipsXor4(w: int, x: int, y: int, z: int): nat { Unsigned(Bits(w) ^ Bits(x) ^ Bits(y) ^ Bits(z)) }

  function FipsF(t: nat, x: int, y: int, z: int): nat {
    if t < 20 then FipsCh(x, y, z)
    else if 40 <= t < 60 then FipsMaj(x, y, z)
    else Unsigned(Parity(Bits(x), Bits(y), Bits(z)))
  }

  function FipsK(t: nat): nat {
    if t < 20 then 0x5a827999 else if t < 40 then 0x6ed9eba1 else if t < 60 then 0x8f1bbcdc else 0xca62c1d6
  }

  function JsRotL1(x: int): int { Signed(ScriptRotL1(Bits(x))) }
  function JsRotL5(x: int): int { Signed(ScriptRotL5(Bits(x))) }
  function JsRotL30(x: int): int { Signed(ScriptRotL30(Bits(x))) }
  function JsXor4(w: int, x: int, y: int, z: int): int { Signed(Bits(w) ^ Bits(x) ^ Bits(y) ^ Bits(z)) }

  function JsF(t: nat, b: int, c: int, d: int): int {
    if t < 20 then Signed(ScriptCh(Bits(b), Bits(c), Bits(d)))
    else if 40 <= t < 60 then Signed(ScriptMaj(Bits(b), Bits(c), Bits(d)))
    else Signed(Bits(b) ^ Bits(c) ^ Bits(d))
  }

  function JsK(t: nat): int {
    if t < 20 then 0x5a827999 else if t < 40 then 0x6ed9eba1 else if t < 60 then -0x70e44324 else -0x359d3e2a
  }

  ghost function Schedule1(m: seq<int>, t: nat): nat {
    if t < 16 then U32(At(m, t))
    else FipsRotL1(FipsXor4(Schedule1(m, t - 3), Schedule1(m, t - 8), Schedule1(m, t - 14), Schedule1(m, t - 16)))
  }

  function Round1(r: Regs1, t: nat, w: int): Regs1 {
    Regs1(U32(FipsRotL5(r.a) + FipsF(t, r.b, r.c, r.d) + r.e + FipsK(t) + w), r.a, FipsRotL30(r.b), r.c, r.d)
  }

  ghost function Rounds1(r: Regs1, m: seq<int>, t: nat): Regs1 {
    if t == 0 then r else Round1(Rounds1(r, m, t - 1), t - 1, Schedule1(m, t - 1))
  }

  function Reduce1(r: Regs1): Regs1 { Regs1(U32(r.a), U32(r.b), U32(r.c), U32(r.d), U32(r.e)) }

  /** The whole block function of section 6.1.2. */
  ghost function Block1(h: Regs1, m: seq<int>): Regs1 {
    var r := Rounds1(h, m, 80);
    Regs1(U32(h.a + r.a), U32(h.b + r.b), U32(h.c + r.c), U32(h.d + r.d), U32(h.e + r.e))
  }

  lemma RotateBits(x: bv32)
    ensures ScriptRotL1(x) == RotL1(x)
    ensures ScriptRotL5(x) == RotL5(x)
    ensures ScriptRotL30(x) == RotL30(x)
  {
  }

  lemma ChForms(x: bv32, y: bv32, z: bv32)
    ensures (x & y) | (!x & z) == (x & y) ^ (!x & z)
  {
  }

  lemma MajForms(x: bv32, y: bv32, z: bv32)
    ensures (x & y) | (x & z) | (y & z) == (x & y) ^ (x & z) ^ (y & z)
  {
  }

  lemma OrForms(x: bv32, y: bv32, z: bv32)
    ensures ScriptCh(x, y, z) == Ch(x, y, z) && ScriptMaj(x, y, z) == Maj(x, y, z)
  {
    ChForms(x, y, z);
    MajForms(x, y, z);
  }

  lemma RotatesAgree(x: int)
    ensures IsInt32(JsRotL1(x)) && U32(JsRotL1(x)) == FipsRotL1(U32(x))
    ensures IsInt32(JsRotL5(x)) && U32(JsRotL5(x)) == FipsRotL5(U32(x))
    ensures IsInt32(JsRotL30(x)) && U32(JsRotL30(x)) == FipsRotL30(U32(x))
  {
    hide Bits, Signed, Unsigned, U32, IsInt32, RotL1, RotL5, RotL30, ScriptRotL1, ScriptRotL5, ScriptRotL30;
    var b := Bits(x);
    BitsOfU32(x);
    RotateBits(b);
    SignedFacts(ScriptRotL1(b));
    SignedFacts(ScriptRotL5(b));
    SignedFacts(ScriptRotL30(b));
  }

  lemma Xor4Agree(w: int, x: int, y: int, z: int)
    ensures IsInt32(JsXor4(w, x, y, z)) && U32(JsXor4(w, x, y, z)) == FipsXor4(U32(w), U32(x), U32(y), U32(z))
  {
    hide Bits, Signed, Unsigned, U32, IsInt32;
    BitsOfU32(w);
    BitsOfU32(x);
    BitsOfU32(y);
    BitsOfU32(z);
    SignedFacts(Bits(w) ^ Bits(x) ^ Bits(y) ^ Bits(z));
  }

  lemma FAgrees(t: nat, b: int, c: int, d: int)
    ensures IsInt32(JsF(t, b, c, d)) && U32(JsF(t, b, c, d)) == FipsF(t, U32(b), U32(c), U32(d))
  {
    hide Bits, Signed, Unsigned, U32, IsInt32, Ch, Maj, ScriptCh, ScriptMaj;
    var x, y, z := Bits(b), Bits(c), Bits(d);
    BitsOfU32(b);
    BitsOfU32(c);
    BitsOfU32(d);
    OrForms(x, y, z);
    SignedFacts(Ch(x, y, z));
    SignedFacts(Maj(x, y, z));
    SignedFacts(Parity(x, y, z));
  }

  lemma KAgrees(t: nat)
    ensures IsInt32(JsK(t)) && U32(JsK(t)) == FipsK(t)
  {
  }

  ghost predicate Bounded1(r: Regs1) {
    Within(r.a, 6) && Within(r.b, 6) && Within(r.c, 2) && Within(r.d, 2) && Within(r.e, 2)
  }

  /** One SHA-1 round with its unreduced accumulator. */
  lemma RoundEntry1(round: int -> int, r: Regs1, t: nat, w: int)
    requires Rounding(round) && Bounded1(r) && IsInt32(w)
    ensures var acc := round(round(JsRotL5(r.a) + r.e) + w);
            var x := round(acc + round(JsF(t, r.b, r.c, r.d) + JsK(t)));
            var r' := Regs1(x, r.a, JsRotL30(r.b), r.c, r.d);
            && x == JsRotL5(r.a) + r.e + w + JsF(t, r.b, r.c, r.d) + JsK(t)
            && Bounded1(r') && Reduce1(r') == Round1(Reduce1(r), t, U32(w))
  {
    hide *;
    RotatesAgree(r.a);
    RotatesAgree(r.b);
    FAgrees(t, r.b, r.c, r.d);
    KAgrees(t);
    var f, k, a := JsF(t, r.b, r.c, r.d), JsK(t), JsRotL5(r.a);
    BoundedParts(r);
    ExactSum(round, a, r.e, w, f, k);
    ReducedSum(a, f, r.e, k, w);
    Int32Within(JsRotL30(r.b));
    RoundFields(r, t, w, a + r.e + w + f + k);
  }

  lemma BoundedParts(r: Regs1)
    requires Bounded1(r)
    ensures Within(r.e, 2)
    ensures forall x, b :: Within(x, 6) && Within(b, 2) ==> Bounded1(Regs1(x, r.a, b, r.c, r.d))
  {
  }

  /** The fields of a round, from the two that change. */
  lemma RoundFields(r: Regs1, t: nat, w: int, x: int)
    requires U32(x) == U32(FipsRotL5(U32(r.a)) + FipsF(t, U32(r.b), U32(r.c), U32(r.d)) + U32(r.e) + FipsK(t) + U32(w))
    requires U32(JsRotL30(r.b)) == FipsRotL30(U32(r.b))
    ensures Reduce1(Regs1(x, r.a, JsRotL30(r.b), r.c, r.d)) == Round1(Reduce1(r), t, U32(w))
  {
    hide U32, FipsRotL5, FipsF, FipsK, JsRotL30, FipsRotL30;
  }

  lemma Int32Within(x: int)
    requires IsInt32(x)
    ensures Within(x, 2)
  {
  }

  lemma ExactSum(round: int -> int, a: int, e: int, w: int, f: int, k: int)
    requires Rounding(round) && IsInt32(a) && Within(e, 2) && IsInt32(w) && IsInt32(f) && IsInt32(k)
    ensures var x := round(round(round(a + e) + w) + round(f + k)); x == a + e + w + f + k && Within(x, 6)
  {
  }

  lemma ReducedSum(a: int, f: int, e: int, k: int, w: int)
    ensures U32(a + e + w + f + k) == U32(U32(a) + U32(f) + U32(e) + U32(k) + U32(w))
  {
    hide U32;
    Sum4(a, f, e, k);
    SumAgrees(a + f + e + k, w);
    SumAgrees(U32(a) + U32(f) + U32(e) + U32(k), U32(w));
    Idem(w);
    assert a + e + w + f + k == a + f + e + k + w;
  }

  /** Entry i of the message schedule. */
  method FillEntry1(m: seq<int>, offset: nat, w: array<int>, i: nat)
    requires i < 80 <= w.Length && offset <= |m|
    requires forall l :: 0 <= l < i ==> U32(w[l]) == Schedule1(m[offset..], l) && IsInt32(w[l])
    modifies w
    ensures forall l :: 0 <= l < i ==> w[l] == old(w[l])
    ensures U32(w[i]) == Schedule1(m[offset..], i) && IsInt32(w[i])
  {
    hide U32, S32, JsRotL1, JsXor4, FipsRotL1, FipsXor4, IsInt32;
    if i < 16 {
      w[i] := S32(At(m, offset + i));
      assert At(m[offset..], i) == At(m, offset + i);
      S32Facts(At(m, offset + i));
    } else {
      var n := JsXor4(w[i - 3], w[i - 8], w[i - 14], w[i - 16]);
      Xor4Agree(w[i - 3], w[i - 8], w[i - 14], w[i - 16]);
      RotatesAgree(n);
      w[i] := JsRotL1(n);
    }
  }

  /** The 80 rounds on the shared scratch array. */
  method Loop1(round: int -> int, start: Regs1, m: seq<int>, offset: nat, w: array<int>) returns (r: Regs1)
    requires Rounding(round) && w.Length >= 80 && offset <= |m|
    requires Within(start.a, 2) && Within(start.b, 2) && Within(start.c, 2) && Within(start.d, 2) && Within(start.e, 2)
    modifies w
    ensures Bounded1(r) && Reduce1(r) == Rounds1(Reduce1(start), m[offset..], 80)
  {
    hide U32, S32, JsRotL5, JsRotL30, JsF, JsK, Round1, Reduce1, Schedule1, Within, Bounded1, IsInt32, Rounding;
    BoundedStart(start);
    ghost var block := m[offset..];
    var Regs1(a, b, c, d, e) := start;
    var i := 0;
    while i < 80
      invariant i <= 80 && Bounded1(Regs1(a, b, c, d, e))
      invariant forall l :: 0 <= l < i ==> U32(w[l]) == Schedule1(block, l) && IsInt32(w[l])
      invariant Reduce1(Regs1(a, b, c, d, e)) == Rounds1(Reduce1(start), block, i)
    {
      FillEntry1(m, offset, w, i);
      RoundEntry1(round, Regs1(a, b, c, d, e), i, w[i]);
      var t := round(round(JsRotL5(a) + e) + w[i]);
      t := round(t + round(JsF(i, b, c, d) + JsK(i)));
      e := d;
      d := c;
      c := JsRotL30(b);
      b := a;
      a := t;
      i := i + 1;
    }
    r := Regs1(a, b, c, d, e);
  }

  lemma BoundedStart(r: Regs1)
    requires Within(r.a, 2) && Within(r.b, 2) && Within(r.c, 2) && Within(r.d, 2) && Within(r.e, 2)
    ensures Bounded1(r)
  {
  }

  /** The SHA-1 block step on the hash words, in place: exact sums, and the standard's words modulo 2^32. */
  method ProcessBlock1(round: int -> int, hash: array<int>, m: seq<int>, offset: nat, w: array<int>)
    requires Rounding(round) && hash.Length == 5 && w.Length >= 80 && hash != w && offset <= |m|
    requires forall i :: 0 <= i < 5 ==> Within(hash[i], 2)
    modifies hash, w
    ensures forall i :: 0 <= i < 5 ==> IsInt32(hash[i])
    ensures var h0, h := old(hash[..]), hash[..];
            Reduce1(Regs1(h[0], h[1], h[2], h[3], h[4]))
            == Block1(Reduce1(Regs1(h0[0], h0[1], h0[2], h0[3], h0[4])), m[offset..])
  {
    hide U32, Rounds1;
    var r := Loop1(round, Regs1(hash[0], hash[1], hash[2], hash[3], hash[4]), m, offset, w);
    AddBack(round, hash, 0, r.a);
    AddBack(round, hash, 1, r.b);
    AddBack(round, hash, 2, r.c);
    AddBack(round, hash, 3, r.d);
    AddBack(round, hash, 4, r.e);
  }
}

/**
 * Rabin-Karp with a rolling hash, over the signed 8-bit `char` of the usual Linux targets and the truncating
 * remainder of C++.
 */
module RabinKarp {
  import opened Occurrences

  const BASE := 911382629
  const MOD := 1_000_000_007

  /** A text of signed chars. */
  ghost predicate Chars(s: seq<int>) {
    forall i :: 0 <= i < |s| ==> -128 <= s[i] < 128
  }

  /** A text of ASCII codes. */
  ghost predicate Ascii(s: seq<int>) {
    forall i :: 0 <= i < |s| ==> 0 <= s[i] < 128
  }

  /** A `long long` intermediate result: overflow is undefined in the source, so every use must rule it out. */
  function I64(a: int): (r: int)
    requires -0x8000_0000_0000_0000 <= a < 0x8000_0000_0000_0000
  {
    a
  }

  /** The C++ `a % MOD`: it truncates toward zero, so the result has the sign of `a`. */
  function Rem(a: int): (r: int)
    ensures -MOD < r < MOD && (a >= 0 ==> r >= 0) && (a <= 0 ==> r <= 0)
  {
    if a >= 0 then a % MOD else -((-a) % MOD)
  }

  ghost predicate Congruent(a: int, b: int) {
    (a - b) % MOD == 0
  }

  lemma RemCongruent(a: int)
    ensures Congruent(Rem(a), a)
  {
    var q := if a >= 0 then -(a / MOD) else (-a) / MOD;
    assert Rem(a) - a == q * MOD;
  }

  lemma CongruentTrans(a: int, b: int, c: int)
    requires Congruent(a, b) && Congruent(b, c)
    ensures Congruent(a, c)
  {
    var p, q := (a - b) / MOD, (b - c) / MOD;
    assert a - c == (p + q) * MOD;
  }

  lemma CongruentSymmetric(a: int, b: int)
    requires Congruent(a, b)
    ensures Congruent(b, a)
  {
    var q := (a - b) / MOD;
    assert b - a == (-q) * MOD;
  }

  lemma CongruentLinear(a: int, b: int, k: int, c: int)
    requires Congruent(a, b)
    ensures Congruent(a * k + c, b * k + c)
  {
    var q := (a - b) / MOD;
    assert (a * k + c) - (b * k + c) == (a - b) * k == (q * MOD) * k == (q * k) * MOD;
    MultipleOfMod(q * k);
  }

  lemma MultipleOfMod(q: int)
    ensures (q * MOD) % MOD == 0
  {
  }

  lemma CongruentMinus(a: int, b: int, c: int, d: int)
    requires Congruent(a, b) && Congruent(c, d)
    ensures Congruent(a - c + MOD, b - d)
  {
    var p, q := (a - b) / MOD, (c - d) / MOD;
    assert (a - c + MOD) - (b - d) == (p - q + 1) * MOD;
  }

  /** Two hashes of the same residue are equal exactly when they are on the same side of zero. */
  lemma SameResidue(a: int, b: int)
    requires Congruent(a, b) && -MOD < a < MOD && -MOD < b < MOD
    ensures a == b <==> (a < 0 <==> b < 0)
  {
    var q := (a - b) / MOD;
    assert a - b == q * MOD;
  }

  lemma ZeroResidue(a: int)
    requires Congruent(a, 0) && -MOD < a < MOD
    ensures a == 0
  {
    SameResidue(a, 0);
  }

  lemma SmallRem(d: int)
    requires -MOD < d < MOD
    ensures Rem(d) == d
  {
  }

  // ---------------------------------------------------------------- the polynomial and its hashes

  /** The polynomial the hashes stand for, as an unbounded integer. */
  ghost function Poly(w: seq<int>): int {
    if w == [] then 0 else Poly(w[..|w| - 1]) * BASE + w[|w| - 1]
  }

  ghost function Power(n: nat): int {
    if n == 0 then 1 else Power(n - 1) * BASE
  }

  lemma TimesBase(a: int, p: int, r: int)
    ensures (a * p + r) * BASE == a * (p * BASE) + r * BASE
  {
  }

  lemma {:induction false} PolyFirst(w: seq<int>)
    requires w != []
    ensures Poly(w) == w[0] * Power(|w| - 1) + Poly(w[1..])
  {
    var n := |w| - 1;
    if n > 0 {
      PolyFirst(w[..n]);
      assert w[..n][1..] == w[1..][..n - 1];
      TimesBase(w[0], Power(n - 1), Poly(w[1..][..n - 1]));
    }
  }

  lemma PolyLast(w: seq<int>, d: int)
    ensures Poly(w + [d]) == Poly(w) * BASE + d
  {
    assert (w + [d])[..|w|] == w;
  }

  /** The hash as the source computes it from scratch. */
  ghost function Hash(w: seq<int>): (h: int)
    ensures -MOD < h < MOD
  {
    if w == [] then 0 else Rem(Hash(w[..|w| - 1]) * BASE + w[|w| - 1])
  }

  lemma {:induction false} HashIsPoly(w: seq<int>)
    ensures Congruent(Hash(w), Poly(w))
    ensures Ascii(w) ==> Hash(w) >= 0
  {
    if w != [] {
      var init, c := w[..|w| - 1], w[|w| - 1];
      HashIsPoly(init);
      RemCongruent(Hash(init) * BASE + c);
      CongruentLinear(Hash(init), Poly(init), BASE, c);
      CongruentTrans(Hash(w), Hash(init) * BASE + c, Poly(w));
    }
  }

  ghost function BasePow(n: nat): (h: int)
    ensures 0 <= h < MOD
  {
    if n == 0 then 1 else Rem(BasePow(n - 1) * BASE)
  }

  lemma {:induction false} BasePowIsPower(n: nat)
    ensures Congruent(BasePow(n), Power(n))
  {
    if n > 0 {
      BasePowIsPower(n - 1);
      RemCongruent(BasePow(n - 1) * BASE);
      CongruentLinear(BasePow(n - 1), Power(n - 1), BASE, 0);
      CongruentTrans(BasePow(n), BasePow(n - 1) * BASE, Power(n));
    }
  }

  /** One slide of the window: drop the character `c` on the left, append `d` on the right. */
  ghost function Roll(h: int, c: int, d: int, m: nat): (r: int)
    requires m > 0
    ensures -MOD < r < MOD
  {
    Rem(Rem(h - Rem(c * BasePow(m - 1)) + MOD) * BASE + d)
  }

  /** The rolled hash of the window of length `m` at `i`, as the source carries it along. */
  ghost function Rolled(s: seq<int>, m: nat, i: nat): (h: int)
    requires 0 < m && i + m <= |s|
    ensures -MOD < h < MOD
  {
    if i == 0 then Hash(s[..m]) else Roll(Rolled(s, m, i - 1), s[i - 1], s[i + m - 1], m)
  }

  /** What is left after the left character is dropped. */
  lemma DroppedIsCongruent(h: int, c: int, m: nat, mid: int)
    requires m > 0 && Congruent(h, c * Power(m - 1) + mid)
    ensures Congruent(Rem(h - Rem(c * BasePow(m - 1)) + MOD), mid)
  {
    hide Congruent, Rem, Power, BasePow;
    var b, p := BasePow(m - 1), Power(m - 1);
    BasePowIsPower(m - 1);
    CongruentLinear(b, p, c, 0);
    assert b * c + 0 == c * b && p * c + 0 == c * p;
    RemCongruent(c * b);
    CongruentTrans(Rem(c * b), c * b, c * p);
    var x := h - Rem(c * b) + MOD;
    CongruentMinus(h, c * p + mid, Rem(c * b), c * p);
    RemCongruent(x);
    CongruentTrans(Rem(x), x, mid);
  }

  /** Sliding takes a representative of `c * Power(m - 1) + mid` to one of `mid * BASE + d`. */
  lemma RollCongruent(h: int, c: int, d: int, m: nat, mid: int)
    requires m > 0 && Congruent(h, c * Power(m - 1) + mid)
    ensures Congruent(Roll(h, c, d, m), mid * BASE + d)
  {
    hide Congruent, Rem, Power, BasePow;
    var x := h - Rem(c * BasePow(m - 1)) + MOD;
    DroppedIsCongruent(h, c, m, mid);
    CongruentLinear(Rem(x), mid, BASE, d);
    RemCongruent(Rem(x) * BASE + d);
    CongruentTrans(Roll(h, c, d, m), Rem(x) * BASE + d, mid * BASE + d);
  }

  lemma RollIsPoly(h: int, w: seq<int>, d: int)
    requires w != [] && Congruent(h, Poly(w))
    ensures Congruent(Roll(h, w[0], d, |w|), Poly(w[1..] + [d]))
  {
    hide Congruent, Poly, Roll, Power;
    PolyFirst(w);
    PolyLast(w[1..], d);
    RollCongruent(h, w[0], d, |w|, Poly(w[1..]));
  }

  /** At every position the rolled hash has the residue of the window's polynomial, computed from scratch. */
  lemma {:induction false} RolledIsPoly(s: seq<int>, m: nat, i: nat)
    requires 0 < m && i + m <= |s|
    ensures Congruent(Rolled(s, m, i), Poly(s[i..i + m]))
  {
    if i == 0 {
      HashIsPoly(s[..m]);
    } else {
      RolledIsPoly(s, m, i - 1);
      var w := s[i - 1..i - 1 + m];
      RollIsPoly(Rolled(s, m, i - 1), w, s[i + m - 1]);
      assert w[1..] + [s[i + m - 1]] == s[i..i + m];
    }
  }

  /** On ASCII texts no intermediate hash is negative, and the rolled hash is the window's hash exactly. */
  lemma {:induction false} RolledAscii(s: seq<int>, m: nat, i: nat)
    requires 0 < m && i + m <= |s| && Ascii(s)
    ensures 0 <= Rolled(s, m, i) == Hash(s[i..i + m])
  {
    HashIsPoly(s[i..i + m]);
    if i > 0 {
      RolledAscii(s, m, i - 1);
      RolledIsPoly(s, m, i);
      CongruentSymmetric(Hash(s[i..i + m]), Poly(s[i..i + m]));
      CongruentTrans(Rolled(s, m, i), Poly(s[i..i + m]), Hash(s[i..i + m]));
      SameResidue(Rolled(s, m, i), Hash(s[i..i + m]));
    }
  }

  /** Dropping a character cannot make the hash negative when the hash was not, or the character was not positive. */
  lemma RollPositive(h: int, c: int, d: int, m: nat, mid: int)
    requires m > 0 && -MOD < h < MOD && -128 <= d < 128 && (h >= 0 || c <= 0)
    requires Congruent(h, c * Power(m - 1) + mid)
    requires !Congruent(mid, 0) || d >= 0
    ensures Roll(h, c, d, m) >= 0
  {
    hide Power, BasePow;
    var x := h - Rem(c * BasePow(m - 1)) + MOD;
    NotPositiveTimes(c, BasePow(m - 1));
    assert x > 0;
    DroppedIsCongruent(h, c, m, mid);
    CongruentSymmetric(Rem(x), mid);
  }

  lemma NotPositiveTimes(c: int, b: int)
    requires b >= 0
    ensures c <= 0 ==> c * b <= 0
  {
  }

  /** The rest of the window has residue 0: only the new character is left. */
  lemma RollAfterZero(h: int, c: int, d: int, m: nat, mid: int)
    requires m > 0 && -128 <= d < 128 && Congruent(h, c * Power(m - 1) + mid) && Congruent(mid, 0)
    ensures Roll(h, c, d, m) == d
  {
    hide Power, BasePow, Rem, Congruent;
    var y := Rem(h - Rem(c * BasePow(m - 1)) + MOD);
    DroppedIsCongruent(h, c, m, mid);
    CongruentTrans(y, mid, 0);
    ZeroResidue(y);
    SmallRem(d);
  }

  /** The rolled hash of an ASCII window is not negative, whatever signed chars the text has around it. */
  lemma {:induction false} AsciiWindow(s: seq<int>, m: nat, i: nat)
    requires 0 < m && i + m <= |s| && Chars(s) && Ascii(s[i..i + m])
    ensures Rolled(s, m, i) >= 0
  {
    hide Rem, BasePow, Congruent, Poly, Power, Roll, Ascii, Hash;
    if i == 0 {
      HashIsPoly(s[..m]);
    } else {
      if s[i - 1] > 0 {
        AsciiBefore(s, m, i);
        AsciiWindow(s, m, i - 1);
      }
      WindowMove(s, m, i);
      var w := s[i - 1..i - 1 + m];
      RollPositive(Rolled(s, m, i - 1), s[i - 1], s[i + m - 1], m, Poly(w[1..]));
    }
  }

  lemma AsciiBefore(s: seq<int>, m: nat, i: nat)
    requires 0 < m && 0 < i && i + m <= |s| && Chars(s) && Ascii(s[i..i + m]) && s[i - 1] > 0
    ensures Ascii(s[i - 1..i - 1 + m])
  {
    var w := s[i - 1..i - 1 + m];
    forall k | 0 <= k < m ensures 0 <= w[k] < 128 {
      if k > 0 {
        assert w[k] == s[i..i + m][k - 1];
      }
    }
  }

  lemma WindowMove(s: seq<int>, m: nat, i: nat)
    requires 0 < m && 0 < i && i + m <= |s|
    ensures Congruent(Rolled(s, m, i - 1), s[i - 1] * Power(m - 1) + Poly(s[i - 1..i - 1 + m][1..]))
    ensures Ascii(s[i..i + m]) ==> s[i + m - 1] >= 0
  {
    hide Rolled, Poly, Power, Congruent;
    RolledIsPoly(s, m, i - 1);
    PolyFirst(s[i - 1..i - 1 + m]);
    assert s[i + m - 1] == s[i..i + m][m - 1];
  }

  // ---------------------------------------------------------------- the matcher

  lemma CharTimes(c: int, b: int)
    requires -128 <= c < 128 && 0 <= b < MOD
    ensures -128 * MOD <= c * b <= 128 * MOD
  {
  }

  /** The matcher stops at `i`: the hashes are equal, and so are the window and the pattern. */
  ghost predicate Hit(s: seq<int>, p: seq<int>, i: int) {
    p != [] && MatchAt(s, p, i) && Rolled(s, |p|, i) == Hash(p)
  }

  /** What the matcher returns: its first hit. */
  ghost predicate IsFirstHit(s: seq<int>, p: seq<int>, r: int) {
    if r == -1 then forall i :: 0 <= i ==> !Hit(s, p, i)
    else Hit(s, p, r) && forall i :: 0 <= i < r ==> !Hit(s, p, i)
  }

  /** The loops that hash the pattern and the first window: the first `n` characters of `w`. */
  method HashPrefix(w: seq<int>, n: nat) returns (h: int)
    requires Chars(w) && n <= |w|
    ensures h == Hash(w[..n])
  {
    hide Rem;
    h := 0;
    for i := 0 to n
      invariant h == Hash(w[..i])
    {
      assert w[..i + 1][..i] == w[..i];
      h := Rem(I64(I64(h * BASE) + w[i]));
    }
  }

  /** BASE to the power of `lenP - 1`. */
  method PowerLoop(lenP: nat) returns (basePow: int)
    requires lenP > 0
    ensures basePow == BasePow(lenP - 1)
  {
    hide Rem;
    basePow := 1;
    for i := 0 to lenP - 1
      invariant basePow == BasePow(i)
    {
      basePow := Rem(I64(basePow * BASE));
    }
  }

  /** The end of the main loop: the hash of the window at `i + 1` from the one at `i`. */
  method Slide(S: seq<int>, lenP: nat, i: nat, hash: int, basePow: int) returns (hashS: int)
    requires Chars(S) && 0 < lenP && i + lenP < |S|
    requires hash == Rolled(S, lenP, i) && basePow == BasePow(lenP - 1)
    ensures hashS == Rolled(S, lenP, i + 1)
  {
    hide Rem;
    CharTimes(S[i], basePow);
    hashS := Rem(I64(I64(hash - Rem(I64(S[i] * basePow))) + MOD));
    hashS := Rem(I64(I64(hashS * BASE) + S[i + lenP]));
  }

  method RkMatch(S: seq<int>, P: seq<int>) returns (r: int)
    requires Chars(S) && Chars(P)
    ensures IsFirstHit(S, P, r)
    ensures Ascii(P) ==> r == FirstMatch(S, P)
  {
    hide Hash, Rolled, BasePow, FirstMatch;
    var lenS, lenP := |S|, |P|;
    if lenP == 0 || lenP > lenS {
      return -1;
    }
    var hashP := HashPrefix(P, lenP);
    assert P[..lenP] == P;
    var hashS := HashPrefix(S, lenP);
    RolledFirst(S, lenP);
    var basePow := PowerLoop(lenP);
    for i := 0 to lenS - lenP + 1
      invariant i <= lenS - lenP ==> hashS == Rolled(S, lenP, i)
      invariant forall k :: 0 <= k < i ==> !Hit(S, P, k)
    {
      if hashS == hashP {
        if S[i..i + lenP] == P {
          AsciiFirstHit(S, P, i);
          return i;
        }
      }
      if i < lenS - lenP {
        hashS := Slide(S, lenP, i, hashS, basePow);
      }
    }
    AsciiFirstHit(S, P, -1);
    return -1;
  }

  lemma RolledFirst(s: seq<int>, m: nat)
    requires 0 < m <= |s|
    ensures Rolled(s, m, 0) == Hash(s[..m])
  {
  }

  /** An ASCII pattern is a hit wherever it matches, whatever the text around it and whatever collisions there are. */
  lemma AsciiFirstHit(s: seq<int>, p: seq<int>, r: int)
    requires Chars(s) && IsFirstHit(s, p, r) && p != []
    ensures Ascii(p) ==> r == FirstMatch(s, p)
  {
    hide Rolled, Hash, FirstMatch;
    if Ascii(p) {
      forall i | MatchAt(s, p, i) ensures Hit(s, p, i) {
        AsciiWindow(s, |p|, i);
        HashIsPoly(p);
        HashesAtMatch(s, p, i);
      }
      FirstMatchUnique(s, p, r);
    }
  }

  /** At a match the two hashes are congruent; they are equal exactly when they are on the same side of zero. */
  lemma HashesAtMatch(s: seq<int>, p: seq<int>, i: nat)
    requires p != [] && MatchAt(s, p, i)
    ensures Rolled(s, |p|, i) == Hash(p) <==> (Rolled(s, |p|, i) < 0 <==> Hash(p) < 0)
  {
    hide Congruent, Rem, Poly, Hash, Rolled;
    RolledIsPoly(s, |p|, i);
    HashIsPoly(p);
    CongruentSymmetric(Hash(p), Poly(p));
    CongruentTrans(Rolled(s, |p|, i), Poly(p), Hash(p));
    SameResidue(Rolled(s, |p|, i), Hash(p));
  }

  lemma FirstHitIsFirstMatch(s: seq<int>, p: seq<int>, r: int)
    requires IsFirstHit(s, p, r) && p != []
    ensures var f := FirstMatch(s, p); r == f <==> (f == -1 || Hit(s, p, f))
  {
    hide Hash, Rolled;
    var f := FirstMatch(s, p);
    assert IsFirstMatch(s, p, 0, f);
    assert r != -1 ==> MatchAt(s, p, r);
  }

  /**
   * On arbitrary signed chars the first match is found exactly when the rolled hash at that match and the hash of
   * the pattern are on the same side of zero.
   */
  lemma AgreesExactlyWhenSignsAgree(s: seq<int>, p: seq<int>, r: int)
    requires Chars(s) && Chars(p) && IsFirstHit(s, p, r) && p != []
    ensures var f := FirstMatch(s, p);
            r == f <==> (f == -1 || (Rolled(s, |p|, f) < 0 <==> Hash(p) < 0))
  {
    hide Hash, Rolled, IsFirstHit;
    FirstHitIsFirstMatch(s, p, r);
    if FirstMatch(s, p) != -1 {
      HashesAtMatch(s, p, FirstMatch(s, p));
    }
  }

  lemma PrefixOfMatch(s: seq<int>, p: seq<int>, f: int)
    requires p != [] && MatchAt(s, p, f)
    ensures s[f..f + |p| - 1] == p[..|p| - 1]
    ensures f == 0 ==> s[..|p|] == p
  {
    assert s[f..f + |p| - 1] == s[f..f + |p|][..|p| - 1];
  }

  /** Beyond index 0 the hash is not negative, unless the hash slid from is and the dropped char is positive. */
  lemma SlideNonNegative(s: seq<int>, m: nat, i: nat)
    requires 0 < m && 0 < i && i + m <= |s| && Chars(s)
    requires Rolled(s, m, i - 1) >= 0 || s[i - 1] <= 0
    requires !Congruent(Poly(s[i..i + m - 1]), 0)
    ensures Rolled(s, m, i) >= 0
  {
    hide Congruent, Poly, Hash, Power, BasePow, Rem;
    var w := s[i - 1..i - 1 + m];
    assert w[1..] == s[i..i + m - 1];
    WindowMove(s, m, i);
    RollPositive(Rolled(s, m, i - 1), s[i - 1], s[i + m - 1], m, Poly(w[1..]));
  }

  /**
   * Beyond index 0, unless the hash slid from is negative and the dropped char positive, and unless the prefix of the
   * pattern has the residue 0: a first match is found exactly when the hash of the pattern is not negative.
   */
  lemma NegativePatternIsMissed(s: seq<int>, p: seq<int>, r: int)
    requires Chars(s) && Chars(p) && IsFirstHit(s, p, r) && p != [] && FirstMatch(s, p) > 0
    requires var f := FirstMatch(s, p); Rolled(s, |p|, f - 1) >= 0 || s[f - 1] <= 0
    requires !Congruent(Poly(p[..|p| - 1]), 0)
    ensures r == FirstMatch(s, p) <==> Hash(p) >= 0
  {
    hide Poly, Hash, Congruent, Rolled, IsFirstHit;
    var f, m := FirstMatch(s, p), |p|;
    PrefixOfMatch(s, p, f);
    SlideNonNegative(s, m, f);
    AgreesExactlyWhenSignsAgree(s, p, r);
  }

  // ---------------------------------------------------------------- which patterns are safe in every text

  /** Whatever the text, the matcher returns the first match of `p`. */
  ghost predicate Safe(p: seq<int>) {
    forall s, r :: Chars(s) && IsFirstHit(s, p, r) ==> r == FirstMatch(s, p)
  }

  /** Some positive chars in front of a part of the pattern, together shorter than the pattern, hash to residue 0. */
  ghost predicate Collides(p: seq<int>) {
    exists u: seq<int>, j: nat :: Positive(u) && u != [] && |u| + j < |p| && Congruent(Poly(u + p[..j]), 0)
  }

  ghost predicate Positive(u: seq<int>) {
    forall i :: 0 <= i < |u| ==> 0 < u[i] < 128
  }

  lemma AsciiPatternIsSafe(p: seq<int>)
    requires Ascii(p) && p != []
    ensures Safe(p)
  {
    forall s, r | Chars(s) && IsFirstHit(s, p, r) ensures r == FirstMatch(s, p) {
      AsciiFirstHit(s, p, r);
    }
  }

  /** A pattern all but whose last char has residue 0 hashes to that char, scratch or rolled. */
  lemma ZeroPrefixIsFound(s: seq<int>, p: seq<int>, r: int)
    requires Chars(s) && Chars(p) && IsFirstHit(s, p, r) && p != []
    requires Congruent(Poly(p[..|p| - 1]), 0)
    ensures r == FirstMatch(s, p)
  {
    hide IsFirstHit, Hash, Rolled, Poly, Congruent;
    var f, m := FirstMatch(s, p), |p|;
    AgreesExactlyWhenSignsAgree(s, p, r);
    if f > 0 {
      PrefixOfMatch(s, p, f);
      RolledAfterZero(s, m, f);
      HashAfterZero(p);
    } else if f == 0 {
      RolledFirst(s, m);
      assert s[..m] == p;
    }
  }

  lemma HashAfterZero(p: seq<int>)
    requires Chars(p) && p != [] && Congruent(Poly(p[..|p| - 1]), 0)
    ensures Hash(p) == p[|p| - 1]
  {
    hide Rem, Poly, Congruent;
    var w := p[..|p| - 1];
    HashIsPoly(w);
    CongruentTrans(Hash(w), Poly(w), 0);
    ZeroResidue(Hash(w));
    SmallRem(p[|p| - 1]);
  }

  lemma RolledAfterZero(s: seq<int>, m: nat, i: nat)
    requires 0 < m && 0 < i && i + m <= |s| && Chars(s)
    requires Congruent(Poly(s[i..i + m - 1]), 0)
    ensures Rolled(s, m, i) == s[i + m - 1]
  {
    hide Congruent, Poly, Hash, Power, BasePow;
    var w := s[i - 1..i - 1 + m];
    assert w[1..] == s[i..i + m - 1];
    WindowMove(s, m, i);
    RollAfterZero(Rolled(s, m, i - 1), s[i - 1], s[i + m - 1], m, Poly(w[1..]));
  }

  /** With a negative hash and a prefix not of residue 0, a pattern is lost behind a zero char. */
  lemma NegativePatternIsUnsafe(p: seq<int>, r: int)
    requires Chars(p) && p != [] && Hash(p) < 0 && !Congruent(Poly(p[..|p| - 1]), 0)
    requires IsFirstHit([0] + p, p, r)
    ensures FirstMatch([0] + p, p) == 1 && r != 1
  {
    hide Hash, Rolled, Poly, Congruent, IsFirstHit, FirstMatch;
    var s := [0] + p;
    assert s[1..1 + |p|] == p;
    if MatchAt(s, p, 0) {
      ShiftedIsZero(p);
      HashIsPoly(p);
    }
    FirstMatchUnique(s, p, 1);
    NegativePatternIsMissed(s, p, r);
  }

  lemma ShiftedIsZero(p: seq<int>)
    requires MatchAt([0] + p, p, 0)
    ensures Ascii(p)
  {
    var s := [0] + p;
    assert s[..|p|] == p;
    for k := 0 to |p|
      invariant forall i :: 0 <= i < k ==> p[i] == 0
    {
      assert p[k] == s[..|p|][k] == s[k];
    }
  }

  /** Without a collision, windows that run from positive chars into a match never have a negative hash. */
  lemma {:induction false} WindowIntoMatch(s: seq<int>, p: seq<int>, f: nat, i: nat)
    requires Chars(s) && p != [] && MatchAt(s, p, f) && !Collides(p)
    requires i < f <= i + |p| && Positive(s[i..f])
    ensures Rolled(s, |p|, i) >= 0
  {
    hide Congruent, Poly, Hash, Rolled, Collides;
    var m, u := |p|, s[i..f];
    if |u| == m {
      AsciiWindow(s, m, i);
    } else {
      var j := m - |u|;
      WindowParts(s, p, f, i);
      if i == 0 {
        RolledFirst(s, m);
        HashNonNegative(u, p, j);
      } else {
        NoCollision(u, p, j - 1);
        if s[i - 1] > 0 {
          assert Positive(s[i - 1..f]);
          WindowIntoMatch(s, p, f, i - 1);
        }
        SlideNonNegative(s, m, i);
      }
    }
  }

  lemma WindowParts(s: seq<int>, p: seq<int>, f: nat, i: nat)
    requires MatchAt(s, p, f) && i < f < i + |p|
    ensures s[i..i + |p|] == s[i..f] + p[..|p| - (f - i)]
    ensures s[i..i + |p| - 1] == s[i..f] + p[..|p| - (f - i) - 1]
  {
    var j := |p| - (f - i);
    assert p[..j] == s[f..f + |p|][..j] == s[f..f + j];
    assert p[..j - 1] == s[f..f + j - 1];
  }

  lemma NoCollision(u: seq<int>, p: seq<int>, j: nat)
    requires Positive(u) && u != [] && |u| + j < |p| && !Collides(p)
    ensures !Congruent(Poly(u + p[..j]), 0)
  {
  }

  lemma {:induction false} HashNonNegative(u: seq<int>, p: seq<int>, j: nat)
    requires Positive(u) && u != [] && |u| + j <= |p| && Chars(p) && !Collides(p)
    ensures Hash(u + p[..j]) >= 0
  {
    hide Congruent, Poly, Hash, Collides;
    HashIsPoly(u + p[..j]);
    if j > 0 {
      var w := u + p[..j - 1];
      HashNonNegative(u, p, j - 1);
      NoCollision(u, p, j - 1);
      HashIsPoly(w);
      assert u + p[..j] == w + [p[j - 1]];
      HashAfterPositive(w, p[j - 1]);
    } else {
      assert Ascii(u + p[..0]);
    }
  }

  lemma HashAfterPositive(w: seq<int>, d: int)
    requires Hash(w) >= 0 && !Congruent(Poly(w), 0) && -128 <= d < 128
    ensures Hash(w + [d]) >= 0
  {
    HashIsPoly(w);
    CongruentSymmetric(Hash(w), Poly(w));
    assert (w + [d])[..|w|] == w;
  }

  /**
   * The texts in which a pattern without collisions is missed: the first match lies beyond index 0, the hash of the
   * pattern is negative, and all but the last char of the pattern does not have residue 0.
   */
  lemma MissedExactlyBeyondZero(s: seq<int>, p: seq<int>, r: int)
    requires Chars(s) && Chars(p) && p != [] && !Collides(p) && IsFirstHit(s, p, r)
    ensures r == FirstMatch(s, p) <==>
            FirstMatch(s, p) <= 0 || Hash(p) >= 0 || Congruent(Poly(p[..|p| - 1]), 0)
  {
    hide Congruent, Poly, Hash, Rolled, Collides, IsFirstHit;
    var f := FirstMatch(s, p);
    if Congruent(Poly(p[..|p| - 1]), 0) {
      ZeroPrefixIsFound(s, p, r);
    } else if f > 0 {
      if s[f - 1] > 0 {
        assert Positive(s[f - 1..f]);
        WindowIntoMatch(s, p, f, f - 1);
      }
      NegativePatternIsMissed(s, p, r);
    } else {
      AgreesExactlyWhenSignsAgree(s, p, r);
      if f == 0 {
        RolledFirst(s, |p|);
        assert s[..|p|] == p;
      }
    }
  }

  /** The hit a search from `i` on stops at. */
  ghost function FirstHitFrom(s: seq<int>, p: seq<int>, i: nat): (r: int)
    requires i <= |s| + 1 && forall k :: 0 <= k < i ==> !Hit(s, p, k)
    ensures IsFirstHit(s, p, r)
    decreases |s| + 1 - i
  {
    if i > |s| then -1 else if Hit(s, p, i) then i else FirstHitFrom(s, p, i + 1)
  }

  /** A pattern all but whose last char has residue 0 is safe; any other with a negative hash is not. */
  lemma SafeOnZeroPrefix(p: seq<int>)
    requires Chars(p) && p != [] && (Hash(p) < 0 || Congruent(Poly(p[..|p| - 1]), 0))
    ensures Safe(p) <==> Congruent(Poly(p[..|p| - 1]), 0)
  {
    hide Congruent, Poly, Hash, Rolled, IsFirstHit, FirstMatch;
    if Congruent(Poly(p[..|p| - 1]), 0) {
      forall s, r | Chars(s) && IsFirstHit(s, p, r) ensures r == FirstMatch(s, p) {
        ZeroPrefixIsFound(s, p, r);
      }
    } else {
      var r := FirstHitFrom([0] + p, p, 0);
      NegativePatternIsUnsafe(p, r);
    }
  }

  /** Which patterns without collisions are found in every text, by two residues of the pattern alone. */
  lemma SafeExactly(p: seq<int>)
    requires Chars(p) && p != [] && !Collides(p)
    ensures Safe(p) <==> Hash(p) >= 0 || Congruent(Poly(p[..|p| - 1]), 0)
  {
    hide Congruent, Poly, Hash, Rolled, Collides, IsFirstHit, FirstMatch;
    if Hash(p) < 0 || Congruent(Poly(p[..|p| - 1]), 0) {
      SafeOnZeroPrefix(p);
    } else {
      forall s, r | Chars(s) && IsFirstHit(s, p, r) ensures r == FirstMatch(s, p) {
        MissedExactlyBeyondZero(s, p, r);
      }
    }
  }

  /** Patterns of up to four chars have no collision. */
  lemma ShortPatternsDoNotCollide(p: seq<int>)
    requires Chars(p) && |p| <= 4
    ensures !Collides(p)
  {
    hide Congruent, Poly;
    forall u: seq<int>, j: nat | Positive(u) && u != [] && |u| + j < |p| ensures !Congruent(Poly(u + p[..j]), 0) {
      var w := u + p[..j];
      assert Chars(w) && w[0] > 0;
      FewChars(w);
    }
  }

  lemma FewChars(w: seq<int>)
    requires Chars(w) && 1 <= |w| <= 3 && w[0] > 0
    ensures !Congruent(Poly(w), 0)
  {
    var c, d, e := w[0], if |w| > 1 then w[1] else 0, if |w| > 2 then w[2] else 0;
    PolyOfFew(w);
    OneOrTwoChars(c, d, Poly(w) / MOD);
    ThreeChars(c, d, e, Poly(w) / MOD);
  }

  lemma PolyOfFew(w: seq<int>)
    requires 1 <= |w| <= 3
    ensures |w| == 1 ==> Poly(w) == w[0]
    ensures |w| == 2 ==> Poly(w) == w[0] * BASE + w[1]
    ensures |w| == 3 ==> Poly(w) == w[0] * (BASE * BASE) + w[1] * BASE + w[2]
  {
    var n := |w| - 1;
    if n > 0 {
      PolyOfFew(w[..n]);
    }
  }

  lemma OneOrTwoChars(c: int, d: int, q: int)
    requires 0 < c < 128 && -128 <= d < 128
    ensures c != q * MOD && c * BASE + d != q * MOD
  {
  }

  /**
   * Three multiples of the equation have coefficients so small modulo MOD that they hold without the modulus; and
   * together they leave only zeros.
   */
  lemma ThreeChars(c: int, d: int, e: int, q: int)
    requires 0 < c < 128 && -128 <= d < 128 && -128 <= e < 128
    ensures c * (BASE * BASE) + d * BASE + e != q * MOD
  {
    if c * (BASE * BASE) + d * BASE + e == q * MOD {
      SmallMultiple(-759555 * c - 367411 * d + 227777 * e, 227777 * q - 189195742384516 * c - 207592 * d);
      SmallMultiple(-296147 * c + 213536 * d - 940741 * e, -940741 * q + 781396681344262 * c + 857375 * d);
      SmallMultiple(97652 * c - 1198230 * d - 125393 * e, -125393 * q + 104153719316795 * c + 114281 * d);
    }
  }

  lemma SmallMultiple(a: int, q: int)
    requires a == q * MOD && -MOD < a < MOD
    ensures a == 0
  {
  }

  // ---------------------------------------------------------------- the exact condition, collisions or not

  /** Fewer positive chars than the pattern is long, in front of it, alone or behind a zero, make its hash negative. */
  ghost predicate Spoiled(p: seq<int>) {
    exists u: seq<int>, z: seq<int> ::
      Positive(u) && u != [] && |u| < |p| && (z == [] || z == [0]) && Rolled(z + u + p, |p|, |z| + |u|) < 0
  }

  /** The next `n` chars are the same in both texts. */
  ghost predicate Agree(s: seq<int>, i: nat, s': seq<int>, i': nat, n: nat) {
    i + n <= |s| && i' + n <= |s'| && s[i..i + n] == s'[i'..i' + n]
  }

  lemma AgreeAt(s: seq<int>, i: nat, s': seq<int>, i': nat, n: nat, j: nat)
    requires Agree(s, i, s', i', n) && j < n
    ensures s[i + j] == s'[i' + j]
  {
    assert s[i + j] == s[i..i + n][j] && s'[i' + j] == s'[i'..i' + n][j];
  }

  lemma AgreeShorter(s: seq<int>, i: nat, s': seq<int>, i': nat, n: nat, j: nat)
    requires Agree(s, i, s', i', n) && j <= n
    ensures Agree(s, i, s', i', j)
  {
    assert s[i..i + j] == s[i..i + n][..j] && s'[i'..i' + j] == s'[i'..i' + n][..j];
  }

  /** Equal windows with equal hashes stay so along equal texts. */
  lemma {:induction false} SameRun(s: seq<int>, s': seq<int>, m: nat, i: nat, i': nat, k: nat)
    requires 0 < m && Agree(s, i, s', i', m + k) && Rolled(s, m, i) == Rolled(s', m, i')
    ensures Rolled(s, m, i + k) == Rolled(s', m, i' + k)
  {
    hide Hash, Roll, Rolled, Agree;
    if k > 0 {
      AgreeInside(s, i, s', i', m + k);
      AgreeShorter(s, i, s', i', m + k, m + k - 1);
      SameRun(s, s', m, i, i', k - 1);
      AgreeAt(s, i, s', i', m + k, k - 1);
      AgreeAt(s, i, s', i', m + k, m + k - 1);
      RolledNext(s, m, i + k);
      RolledNext(s', m, i' + k);
    }
  }

  lemma RolledNext(s: seq<int>, m: nat, i: nat)
    requires 0 < m && 0 < i && i + m <= |s|
    ensures Rolled(s, m, i) == Roll(Rolled(s, m, i - 1), s[i - 1], s[i + m - 1], m)
  {
  }

  lemma AgreeInside(s: seq<int>, i: nat, s': seq<int>, i': nat, n: nat)
    requires Agree(s, i, s', i', n)
    ensures i + n <= |s| && i' + n <= |s'|
  {
  }

  /** The hash forgets what lies before a window all but whose last char has residue 0. */
  lemma Restart(s: seq<int>, s': seq<int>, m: nat, i: nat, k: nat)
    requires Chars(s) && Chars(s') && 0 < m && 0 < i && Agree(s, i, s', 1, m + k)
    requires Congruent(Poly(s[i..i + m - 1]), 0)
    ensures Rolled(s', m, 1 + k) == Rolled(s, m, i + k)
  {
    hide Congruent, Poly, Rolled;
    AgreeShorter(s, i, s', 1, m + k, m - 1);
    AgreeAt(s, i, s', 1, m + k, m - 1);
    RolledAfterZero(s, m, i);
    RolledAfterZero(s', m, 1);
    SameRun(s, s', m, i, 1, k);
  }

  /** Where the negative hashes before a match begin: at the start of the text, or behind a residue 0. */
  lemma {:induction false} NegativeRun(s: seq<int>, p: seq<int>, f: nat, i: nat) returns (start: nat)
    requires Chars(s) && p != [] && MatchAt(s, p, f) && i <= f < i + |p| && Positive(s[i..f])
    requires forall k :: i <= k <= f ==> Rolled(s, |p|, k) < 0
    ensures start <= f < start + |p| && Positive(s[start..f])
    ensures forall k :: start <= k <= f ==> Rolled(s, |p|, k) < 0
    ensures start == 0 || Congruent(Poly(s[start..start + |p| - 1]), 0)
    decreases i
  {
    hide Congruent, Poly, Rolled;
    var m := |p|;
    if i == 0 {
      start := 0;
    } else if Rolled(s, m, i - 1) >= 0 || s[i - 1] <= 0 {
      start := i;
      if !Congruent(Poly(s[i..i + m - 1]), 0) {
        SlideNonNegative(s, m, i);
      }
    } else {
      assert Positive(s[i - 1..f]);
      if f == i - 1 + m {
        AsciiWindow(s, m, i - 1);
      }
      start := NegativeRun(s, p, f, i - 1);
    }
  }

  /** A match with a negative hash, though all but its last char does not have residue 0, shows the pattern spoiled. */
  lemma NegativeMatchSpoils(s: seq<int>, p: seq<int>, f: nat)
    requires Chars(s) && p != [] && MatchAt(s, p, f) && Rolled(s, |p|, f) < 0
    requires !Congruent(Poly(p[..|p| - 1]), 0) && Hash(p) >= 0
    ensures Spoiled(p)
  {
    hide Congruent, Poly, Hash, Rolled, Spoiled, Chars;
    var start := NegativeRun(s, p, f, f);
    hide MatchAt;
    NotAtOnce(s, p, f, start);
    RunSpoils(s, p, f, start, s[start..f]);
  }

  lemma RunSpoils(s: seq<int>, p: seq<int>, f: nat, start: nat, u: seq<int>)
    requires Chars(s) && p != [] && MatchAt(s, p, f) && Rolled(s, |p|, f) < 0
    requires start < f < start + |p| && u == s[start..f] && Positive(u)
    requires start == 0 || Congruent(Poly(s[start..start + |p| - 1]), 0)
    ensures Spoiled(p)
  {
    hide Congruent, Poly, Hash, Rolled, Spoiled, Agree, Positive;
    RunThenMatch(s, p, f, start, u);
    hide MatchAt, Chars;
    assert f == start + |u|;
    if start == 0 {
      SpoilsAtStart(s, p, u, [] + u + p);
    } else {
      SpoilsBehind(s, p, start, u, [0] + u + p);
    }
  }

  lemma SpoilsAtStart(s: seq<int>, p: seq<int>, u: seq<int>, t: seq<int>)
    requires t == [] + u + p && 0 < |u| < |p| && Positive(u)
    requires Agree(s, 0, t, 0, |p| + |u|) && Rolled(s, |p|, |u|) < 0
    ensures Spoiled(p)
  {
    hide Rolled, Spoiled;
    HeadIsSame(s, t, |p|, |u|);
    ShowSpoiled(p, u, []);
  }

  lemma SpoilsBehind(s: seq<int>, p: seq<int>, start: nat, u: seq<int>, t: seq<int>)
    requires Chars(s) && Chars(t) && t == [0] + u + p && 0 < |u| < |p| && Positive(u)
    requires 0 < start && Agree(s, start, t, 1, |p| + |u|) && Rolled(s, |p|, start + |u|) < 0
    requires Congruent(Poly(s[start..start + |p| - 1]), 0)
    ensures Spoiled(p)
  {
    hide Congruent, Poly, Rolled, Spoiled, Chars, Positive;
    Restart(s, t, |p|, start, |u|);
    ShowSpoiled(p, u, [0]);
  }

  lemma RunThenMatch(s: seq<int>, p: seq<int>, f: nat, start: nat, u: seq<int>)
    requires Chars(s) && MatchAt(s, p, f) && start <= f && u == s[start..f]
    ensures Agree(s, start, [] + u + p, 0, |p| + |u|) && Agree(s, start, [0] + u + p, 1, |p| + |u|)
    ensures Chars([0] + u + p)
  {
    assert s[start..f + |p|] == u + p;
    assert [] + u + p == u + p && ([0] + u + p)[1..] == u + p;
  }

  /** A match cannot be where the negative hashes begin. */
  lemma NotAtOnce(s: seq<int>, p: seq<int>, f: nat, start: nat)
    requires p != [] && MatchAt(s, p, f) && Rolled(s, |p|, f) < 0 <= Hash(p)
    requires !Congruent(Poly(p[..|p| - 1]), 0) && start <= f
    requires start == 0 || Congruent(Poly(s[start..start + |p| - 1]), 0)
    ensures start < f
  {
    hide Congruent, Poly, Hash, Rolled;
    PrefixOfMatch(s, p, f);
    hide MatchAt;
    if f == 0 {
      RolledFirst(s, |p|);
    }
  }

  lemma HeadIsSame(s: seq<int>, s': seq<int>, m: nat, k: nat)
    requires 0 < m && Agree(s, 0, s', 0, m + k)
    ensures Rolled(s, m, k) == Rolled(s', m, k)
  {
    hide Hash, Rolled;
    AgreeShorter(s, 0, s', 0, m + k, m);
    RolledFirst(s, m);
    RolledFirst(s', m);
    SameRun(s, s', m, 0, 0, k);
  }

  lemma ShowSpoiled(p: seq<int>, u: seq<int>, z: seq<int>)
    requires Positive(u) && u != [] && |u| < |p| && (z == [] || z == [0])
    requires Rolled(z + u + p, |p|, |z| + |u|) < 0
    ensures Spoiled(p)
  {
  }

  /** A spoiled pattern with a hash that is not negative is lost in some text. */
  lemma SpoiledIsUnsafe(p: seq<int>)
    requires Chars(p) && p != [] && Hash(p) >= 0 && Spoiled(p)
    ensures !Safe(p)
  {
    var u: seq<int>, z: seq<int> :|
      Positive(u) && u != [] && |u| < |p| && (z == [] || z == [0]) && Rolled(z + u + p, |p|, |z| + |u|) < 0;
    BehindPrefix(z, u, p);
    NegativeMatchIsUnsafe(z + u + p, p, |z| + |u|);
  }

  lemma NegativeMatchIsUnsafe(s: seq<int>, p: seq<int>, e: nat)
    requires Chars(s) && Chars(p) && p != [] && Hash(p) >= 0 && MatchAt(s, p, e) && Rolled(s, |p|, e) < 0
    ensures !Safe(p)
  {
    hide Congruent, Poly, Hash, Rolled, Safe, Chars;
    var start := NegativeRun(s, p, e, e);
    if start == 0 {
      LostInRun(s, p, 0, e);
    } else {
      var c := if p[0] == 0 then -1 else 0;
      OtherInFront(s, p, e, start, c);
      LostBehindOther(s, p, e, start, [c] + s[start..e + |p|]);
    }
  }

  lemma BehindPrefix(z: seq<int>, u: seq<int>, p: seq<int>)
    requires Chars(p) && Positive(u) && (z == [] || z == [0])
    ensures Chars(z + u + p) && MatchAt(z + u + p, p, |z| + |u|)
  {
    var s, e := z + u + p, |z| + |u|;
    assert s[e..e + |p|] == p;
  }

  /** With a char in front of the run that the pattern does not start with, there is no match before the run. */
  lemma LostBehindOther(s: seq<int>, p: seq<int>, e: nat, start: nat, t: seq<int>)
    requires Chars(s) && Chars(p) && Chars(t) && p != [] && Hash(p) >= 0
    requires 0 < start <= e && Agree(s, start, t, 1, |p| + e - start)
    requires !MatchAt(t, p, 0) && MatchAt(t, p, 1 + e - start)
    requires forall k :: start <= k <= e ==> Rolled(s, |p|, k) < 0
    requires Congruent(Poly(s[start..start + |p| - 1]), 0)
    ensures !Safe(p)
  {
    hide Congruent, Poly, Hash, Rolled, Safe, MatchAt, Chars;
    forall k | 1 <= k <= 1 + e - start ensures Rolled(t, |p|, k) < 0 {
      AgreeShorter(s, start, t, 1, |p| + e - start, |p| + k - 1);
      Restart(s, t, |p|, start, k - 1);
      assert Rolled(s, |p|, start + (k - 1)) < 0;
    }
    LostInRun(t, p, 1, 1 + e - start);
  }

  lemma OtherInFront(s: seq<int>, p: seq<int>, e: nat, start: nat, c: int)
    requires Chars(s) && p != [] && MatchAt(s, p, e) && 0 < start <= e && -128 <= c < 128 && c != p[0]
    ensures var t := [c] + s[start..e + |p|];
            && Chars(t) && !MatchAt(t, p, 0) && MatchAt(t, p, 1 + e - start)
            && Agree(s, start, t, 1, |p| + e - start)
  {
    var w, n := s[start..e + |p|], e - start;
    var t := [c] + w;
    assert t[1..1 + |w|] == w;
    assert t[1 + n..1 + n + |p|] == w[n..] == s[e..e + |p|];
    assert t[0..|p|][0] != p[0];
  }

  lemma LostInRun(s: seq<int>, p: seq<int>, i: nat, e: nat)
    requires Chars(s) && Chars(p) && p != [] && Hash(p) >= 0 && MatchAt(s, p, e) && i <= e
    requires forall k :: 0 <= k < i ==> !MatchAt(s, p, k)
    requires forall k :: i <= k <= e ==> Rolled(s, |p|, k) < 0
    ensures !Safe(p)
  {
    hide Congruent, Poly, Hash, Rolled, IsFirstHit;
    var f := FirstMatch(s, p);
    assert i <= f <= e;
    var r := FirstHitFrom(s, p, 0);
    AgreesExactlyWhenSignsAgree(s, p, r);
  }

  /**
   * Which patterns are found in every text, exactly and without any assumption: texts of at most twice the pattern's
   * length decide it for all texts.
   */
  lemma SafeIffNotSpoiled(p: seq<int>)
    requires Chars(p) && p != []
    ensures Safe(p) <==> Congruent(Poly(p[..|p| - 1]), 0) || (Hash(p) >= 0 && !Spoiled(p))
  {
    hide Congruent, Poly, Hash, Rolled, Spoiled, Collides, IsFirstHit, FirstMatch;
    if Hash(p) < 0 || Congruent(Poly(p[..|p| - 1]), 0) {
      SafeOnZeroPrefix(p);
    } else if Spoiled(p) {
      SpoiledIsUnsafe(p);
    } else {
      forall s, r | Chars(s) && IsFirstHit(s, p, r) ensures r == FirstMatch(s, p) {
        var f := FirstMatch(s, p);
        AgreesExactlyWhenSignsAgree(s, p, r);
        if f != -1 && Rolled(s, |p|, f) < 0 {
          NegativeMatchSpoils(s, p, f);
        }
      }
    }
  }

  /** A remainder from its quotient. */
  lemma RemIs(a: int, q: int, h: int)
    requires a == q * MOD + h && -MOD < h < MOD && (a >= 0 ==> h >= 0) && (a <= 0 ==> h <= 0)
    ensures Rem(a) == h
  {
    RemCongruent(a);
    var k := (Rem(a) - a) / MOD;
    assert Rem(a) - h == (k + q) * MOD;
  }

  lemma HashIs(w: seq<int>, init: seq<int>, c: int, q: int, h: int)
    requires w == init + [c] && Hash(init) * BASE + c == q * MOD + h && -MOD < h < MOD
    requires (Hash(init) * BASE + c >= 0 ==> h >= 0) && (Hash(init) * BASE + c <= 0 ==> h <= 0)
    ensures Hash(w) == h
  {
    hide Rem;
    assert w[..|w| - 1] == init;
    RemIs(Hash(init) * BASE + c, q, h);
  }

  lemma BasePowIs(n: nat, q: int, h: int)
    requires n > 0 && BasePow(n - 1) * BASE == q * MOD + h && 0 <= h < MOD
    ensures BasePow(n) == h
  {
    hide Rem;
    RemIs(BasePow(n - 1) * BASE, q, h);
  }

  /** A pattern whose hash is not negative. */
  const SPOILED: seq<int> := [114, 88, 35, -46, -80, 26]

  lemma SpoiledHash()
    ensures Hash(SPOILED) == 640988336 && BasePow(5) == 532504218
  {
    hide Hash, BasePow;
    assert Hash([]) == 0 && BasePow(0) == 1 by { HashOfNothing(); }
    HashIs([114], [], 114, 0, 114);
    HashIs([114, 88], [114], 88, 103, 897619073);
    HashIs([114, 88, 35], [114, 88], 35, 818074424, 864761984);
    HashIs([114, 88, 35, -46], [114, 88, 35], -46, 788129044, 920272582);
    HashIs([114, 88, 35, -46, -80], [114, 88, 35, -46], -80, 838720439, 308734925);
    HashIs(SPOILED, [114, 88, 35, -46, -80], 26, 281375645, 640988336);
    BasePowIs(1, 0, 911382629);
    BasePowIs(2, 830618290, 628623611);
    BasePowIs(3, 572916635, 234236874);
    BasePowIs(4, 213479416, 540505834);
    BasePowIs(5, 492607624, 532504218);
  }

  lemma HashOfNothing()
    ensures Hash([]) == 0 && BasePow(0) == 1
  {
  }

  lemma HashOfCollision()
    ensures Hash([39, 114, 88, 35]) == 0
  {
    hide Hash;
    HashOfNothing();
    HashIs([39], [], 39, 0, 39);
    HashIs([39, 114], [39], 114, 35, 543922400);
    HashIs([39, 114, 88], [39, 114], 88, 495721423, 413939727);
    HashIs([39, 114, 88, 35], [39, 114, 88], 35, 377257474, 0);
  }

  /** Four is the most: patterns of five chars can collide. */
  lemma FiveCharsCanCollide()
    ensures Collides(SPOILED[..5])
  {
    hide Hash, Poly, Congruent;
    var u, p := [39], SPOILED[..5];
    HashOfCollision();
    assert u + p[..3] == [39, 114, 88, 35];
    HashIsPoly(u + p[..3]);
    CongruentSymmetric(Hash(u + p[..3]), Poly(u + p[..3]));
    assert Positive(u) && |u| + 3 < |p|;
  }

  /** Behind 39 the first three chars hash to 0, the next one makes the hash negative, and so it is at the match. */
  lemma SpoiledRolled()
    ensures Rolled([39] + SPOILED, 6, 1) == -359011671
  {
    hide Hash, BasePow, Rolled, Rem;
    var s := [39] + SPOILED;
    SpoiledHash();
    HashOfCollision();
    HashIs([39, 114, 88, 35, -46], [39, 114, 88, 35], -46, 0, -46);
    HashIs(s[..6], [39, 114, 88, 35, -46], -80, -41, -923600727);
    RolledFirst(s, 6);
    RolledNext(s, 6, 1);
    RemIs(39 * BasePow(5), 20, 767664362);
    RemIs(-691265082, 0, -691265082);
    RemIs(-691265082 * BASE + 26, -630006983, -359011671);
  }

  /** So a pattern whose hash is not negative can be spoiled, and lost behind a single positive char. */
  lemma SpoiledPatternIsMissed(r: int)
    requires IsFirstHit([39] + SPOILED, SPOILED, r)
    ensures Hash(SPOILED) >= 0 && Spoiled(SPOILED)
    ensures FirstMatch([39] + SPOILED, SPOILED) == 1 && r != 1
  {
    hide Hash, Rolled, Spoiled, IsFirstHit;
    var s := [39] + SPOILED;
    SpoiledHash();
    SpoiledRolled();
    assert [] + [39] + SPOILED == s;
    ShowSpoiled(SPOILED, [39], []);
    assert s[1..7] == SPOILED && s[0..6][0] == 39;
    assert MatchAt(s, SPOILED, 1) && !MatchAt(s, SPOILED, 0);
    FirstMatchUnique(s, SPOILED, 1);
    AgreesExactlyWhenSignsAgree(s, SPOILED, r);
  }

  /** A pattern that starts with a non-ASCII char (negative) and occurs at index 1 is missed. */
  lemma NonAsciiMatchMissed()
    ensures FirstMatch([1, -1, 1], [-1, 1]) == 1
    ensures IsFirstHit([1, -1, 1], [-1, 1], -1)
  {
    var s, p := [1, -1, 1], [-1, 1];
    assert s[1..3] == p && s[0..2][0] == 1;
    assert MatchAt(s, p, 1) && !MatchAt(s, p, 0);
    FirstMatchUnique(s, p, 1);
    assert p[..1] == [-1] && [-1][..0] == [];
    assert Hash([-1]) == Rem(0 * BASE + -1) == -1;
    assert Hash(p) == Rem(-1 * BASE + 1) == -911382628;
    assert s[..2] == [1, -1] && [1, -1][..1] == [1] && [1][..0] == [];
    assert Hash([1]) == Rem(0 * BASE + 1) == 1;
    assert Rolled(s, 2, 0) == Hash([1, -1]) == Rem(1 * BASE + -1) == 911382628;
    assert BasePow(1) == Rem(BasePow(0) * BASE) == BASE;
    assert Rolled(s, 2, 1) >= 0;
  }
}

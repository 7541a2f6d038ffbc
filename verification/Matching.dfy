/** What a substring search promises: the least index at which the pattern occurs. */
module Occurrences {

  ghost predicate MatchAt<T>(s: seq<T>, p: seq<T>, i: int) {
    0 <= i <= |s| - |p| && s[i..i + |p|] == p
  }

  /** `r` is the least index from `from` on at which `p` occurs in `s`, or -1 when there is none. */
  ghost predicate IsFirstMatch<T>(s: seq<T>, p: seq<T>, from: nat, r: int) {
    if r == -1 then forall i :: from <= i ==> !MatchAt(s, p, i)
    else from <= r && MatchAt(s, p, r) && forall i :: from <= i < r ==> !MatchAt(s, p, i)
  }

  ghost function FirstMatchFrom<T>(s: seq<T>, p: seq<T>, from: nat): (r: int)
    ensures IsFirstMatch(s, p, from, r)
    decreases |s| - from
  {
    if |s| - |p| < from then -1
    else if MatchAt(s, p, from) then from
    else FirstMatchFrom(s, p, from + 1)
  }

  /** The specification all three matchers share: the empty pattern is never found. */
  ghost function FirstMatch<T>(s: seq<T>, p: seq<T>): (r: int)
    ensures p != [] ==> IsFirstMatch(s, p, 0, r)
    ensures p == [] ==> r == -1
  {
    if p == [] then -1 else FirstMatchFrom(s, p, 0)
  }

  /** The specification has a single answer. */
  lemma FirstMatchUnique<T>(s: seq<T>, p: seq<T>, r: int)
    requires p != [] && IsFirstMatch(s, p, 0, r)
    ensures r == FirstMatch(s, p)
  {
  }
}

/** The reference matcher: one text pointer that backtracks on a mismatch. */
module BruteForce {
  import opened Occurrences

  method BfMatch<T(==)>(S: seq<T>, P: seq<T>) returns (r: int)
    ensures r == FirstMatch(S, P)
  {
    var lenS, lenP := |S|, |P|;
    if lenP == 0 || lenP > lenS {
      return -1;
    }
    var i, j := 0, 0;
    while i < lenS && j < lenP
      invariant 0 <= j <= lenP && j <= i <= lenS
      invariant S[i - j..i] == P[..j]
      invariant forall k :: 0 <= k < i - j ==> !MatchAt(S, P, k)
      decreases lenS - (i - j), lenP - j
    {
      if S[i] == P[j] {
        assert S[i - j..i + 1] == S[i - j..i] + [S[i]];
        assert P[..j + 1] == P[..j] + [P[j]];
        i, j := i + 1, j + 1;
      } else {
        assert !MatchAt(S, P, i - j) by {
          assert i - j <= lenS - lenP ==> S[i - j..i - j + lenP][j] == S[i];
        }
        i := i - j + 1;
        j := 0;
      }
    }
    r := if j == lenP then i - j else -1;
    FirstMatchUnique(S, P, r);
  }
}

/** Knuth-Morris-Pratt: the failure function, and the search that never moves back in the text. */
module Kmp {
  import opened Occurrences

  /** The first `k` characters of `p[..n]` are also its last `k`, and they are not the whole of it. */
  ghost predicate Border<T>(p: seq<T>, n: nat, k: int) {
    0 <= k < n <= |p| && p[..k] == p[n - k..n]
  }

  ghost function LongestBorderUpTo<T>(p: seq<T>, n: nat, k: nat): (r: nat)
    requires k < n <= |p|
    ensures Border(p, n, r) && r <= k
    ensures forall b :: r < b <= k ==> !Border(p, n, b)
  {
    if Border(p, n, k) then k else LongestBorderUpTo(p, n, k - 1)
  }

  /** The longest proper prefix of `p[..n]` that is also its suffix. */
  ghost function LongestBorder<T>(p: seq<T>, n: nat): (r: nat)
    requires 0 < n <= |p|
    ensures Border(p, n, r) && forall b :: Border(p, n, b) ==> b <= r
  {
    LongestBorderUpTo(p, n, n - 1)
  }

  /** The first `n` entries of the table are the longest proper borders of `p[..1]`, `p[..2]`, and so on. */
  ghost predicate FailureTable<T>(p: seq<T>, next: seq<int>, n: nat) {
    n <= |next| == |p| && forall i :: 0 <= i < n ==> next[i] == LongestBorder(p, i + 1)
  }

  lemma TableEntry<T>(p: seq<T>, next: seq<int>, n: nat, j: nat)
    requires FailureTable(p, next, n) && 0 < j <= n
    ensures n <= |next| && next[j - 1] == LongestBorder(p, j)
  {
  }

  /** The first `k` characters of `p` end just before position `i` of `s`. */
  ghost predicate Overlap<T>(s: seq<T>, p: seq<T>, i: nat, k: int) {
    0 <= k <= |p| && k <= i <= |s| && p[..k] == s[i - k..i]
  }

  /** Shorter overlaps are exactly the borders of a longer one. */
  lemma OverlapBorder<T>(s: seq<T>, p: seq<T>, i: nat, j: nat, k: nat)
    requires Overlap(s, p, i, j) && k < j
    ensures Overlap(s, p, i, k) <==> Border(p, j, k)
  {
    assert s[i - k..i] == s[i - j..i][j - k..];
    assert p[j - k..j] == p[..j][j - k..];
  }

  lemma OverlapExtends<T>(s: seq<T>, p: seq<T>, i: nat, k: nat)
    requires i < |s| && k < |p| && k <= i
    ensures Overlap(s, p, i + 1, k + 1) <==> Overlap(s, p, i, k) && s[i] == p[k]
  {
    assert p[..k + 1] == p[..k] + [p[k]];
    assert s[i - k..i + 1] == s[i - k..i] + [s[i]];
  }

  lemma OverlapIsBorder<T>(p: seq<T>, n: nat, k: nat)
    requires k < n <= |p|
    ensures Overlap(p, p, n, k) <==> Border(p, n, k)
  {
  }

  /** `j` is the longest overlap before position `i` that may still be extended by the character at `i`. */
  ghost predicate Candidate<T>(s: seq<T>, p: seq<T>, i: nat, j: nat, limit: nat) {
    && Overlap(s, p, i, j) && j < limit
    && (forall k :: j < k < limit && Overlap(s, p, i, k) ==> i < |s| && k < |p| && s[i] != p[k])
  }

  /** Falling back to the longest border of the overlap loses no candidate. */
  lemma FallBack<T>(s: seq<T>, p: seq<T>, i: nat, j: nat, limit: nat)
    requires Candidate(s, p, i, j, limit) && j > 0 && i < |s| && limit <= |p| && s[i] != p[j]
    ensures LongestBorder(p, j) < j && Candidate(s, p, i, LongestBorder(p, j), limit)
  {
    var b := LongestBorder(p, j);
    OverlapBorder(s, p, i, j, b);
    forall k | b < k < limit && Overlap(s, p, i, k) ensures s[i] != p[k] {
      if k < j {
        OverlapBorder(s, p, i, j, k);
      }
    }
  }

  /** The longest overlap of all before position `i`, among those shorter than `limit`. */
  ghost predicate Longest<T>(s: seq<T>, p: seq<T>, i: nat, j: nat, limit: nat) {
    Overlap(s, p, i, j) && forall k :: j < k < limit ==> !Overlap(s, p, i, k)
  }

  /** Once no fallback applies, one comparison gives the longest overlap before position `i + 1`. */
  lemma Advance<T>(s: seq<T>, p: seq<T>, i: nat, j: nat, limit: nat)
    requires Candidate(s, p, i, j, limit) && i < |s| && limit <= |p|
    requires j == 0 || s[i] == p[j]
    ensures Longest(s, p, i + 1, if s[i] == p[j] then j + 1 else 0, limit + 1)
  {
    var best := if s[i] == p[j] then j + 1 else 0;
    var n := i + 1;
    forall k | best < k <= limit && Overlap(s, p, n, k) ensures false {
      OverlapExtends(s, p, i, k - 1);
    }
    OverlapExtends(s, p, i, j);
  }

  lemma NothingRead<T>(s: seq<T>, p: seq<T>)
    ensures Longest(s, p, 0, 0, |p|)
  {
  }

  lemma LongestIsCandidate<T>(s: seq<T>, p: seq<T>, i: nat, j: nat, limit: nat)
    requires Longest(s, p, i, j, limit) && j < limit
    ensures Candidate(s, p, i, j, limit)
  {
  }

  /** The pattern does not occur in the first `i` characters. */
  ghost predicate NoneBefore<T>(s: seq<T>, p: seq<T>, i: nat) {
    forall k :: 0 <= k <= i - |p| ==> !MatchAt(s, p, k)
  }

  /** The pattern occurs ending before `i` exactly when the longest overlap is all of it. */
  lemma FullOverlapIsMatch<T>(s: seq<T>, p: seq<T>, i: nat, j: nat)
    requires Longest(s, p, i, j, |p| + 1) && j <= |p|
    ensures MatchAt(s, p, i - |p|) <==> j == |p|
    ensures j < |p| ==> Longest(s, p, i, j, |p|)
  {
    assert MatchAt(s, p, i - |p|) <==> Overlap(s, p, i, |p|);
  }

  /** After a character: the pattern was found, or it has still not occurred. */
  lemma ReadOne<T>(s: seq<T>, p: seq<T>, i: nat, j: nat)
    requires p != [] && i < |s| && NoneBefore(s, p, i) && Longest(s, p, i + 1, j, |p| + 1) && j <= |p| && j <= i + 1
    ensures j == |p| ==> FirstMatch(s, p) == i + 1 - |p|
    ensures j < |p| ==> Longest(s, p, i + 1, j, |p|) && NoneBefore(s, p, i + 1)
  {
    hide Longest, MatchAt;
    FullOverlapIsMatch(s, p, i + 1, j);
    if j == |p| {
      FirstMatchUnique(s, p, i + 1 - |p|);
    }
  }

  lemma FoundNone<T>(s: seq<T>, p: seq<T>)
    requires p == [] || NoneBefore(s, p, |s|)
    ensures FirstMatch(s, p) == -1
  {
    if p != [] {
      FirstMatchUnique(s, p, -1);
    }
  }

  /** `fallbacks` counts the executions of `j = next[j - 1]`. */
  method BuildNext<T(==)>(P: seq<T>) returns (next: array<int>, ghost fallbacks: nat)
    ensures next.Length == |P| && FailureTable(P, next[..], |P|)
    ensures fallbacks <= |P|
  {
    hide Longest, Candidate, LongestBorder, Overlap;
    var lenP := |P|;
    next := new int[lenP](_ => 0);
    var j := 0;
    fallbacks := 0;
    var i := 1;
    while i < lenP
      invariant 0 <= j < i && (if lenP == 0 then i == 1 else i <= lenP && j == LongestBorder(P, i))
      invariant FailureTable(P, next[..], if lenP == 0 then 0 else i)
      invariant fallbacks + j < i
    {
      BorderIsLongest(P, i, j);
      while j > 0 && P[i] != P[j]
        invariant 0 <= j < i && Candidate(P, P, i, j, i)
        invariant FailureTable(P, next[..], i)
        invariant fallbacks + j < i
        decreases j
      {
        FallBack(P, P, i, j, i);
        TableEntry(P, next[..], i, j);
        j := next[j - 1];
        fallbacks := fallbacks + 1;
      }
      Advance(P, P, i, j, i);
      if P[i] == P[j] {
        j := j + 1;
        next[i] := j;
      } else {
        next[i] := 0;
      }
      LongestIsBorder(P, i + 1, j);
      i := i + 1;
    }
  }

  lemma BorderIsLongest<T>(p: seq<T>, n: nat, j: nat)
    requires 0 < n < |p| && j == LongestBorder(p, n)
    ensures Candidate(p, p, n, j, n)
  {
    forall k | 0 <= k < n ensures Overlap(p, p, n, k) <==> Border(p, n, k) {
      OverlapIsBorder(p, n, k);
    }
  }

  lemma LongestIsBorder<T>(p: seq<T>, n: nat, j: nat)
    requires 0 < n <= |p| && j < n && Longest(p, p, n, j, n)
    ensures j == LongestBorder(p, n)
  {
    forall k | 0 <= k < n ensures Overlap(p, p, n, k) <==> Border(p, n, k) {
      OverlapIsBorder(p, n, k);
    }
  }

  method KmpMatch<T(==)>(S: seq<T>, P: seq<T>) returns (r: int, ghost fallbacks: nat)
    ensures r == FirstMatch(S, P)
    // No more fallback steps than text characters read.
    ensures fallbacks <= if r == -1 then |S| else r + |P|
  {
    var lenS, lenP := |S|, |P|;
    fallbacks := 0;
    if lenP == 0 || lenP > lenS {
      FoundNone(S, P);
      return -1, 0;
    }
    var next, _ := BuildNext(P);
    hide Longest, Candidate, LongestBorder, Overlap, NoneBefore, FirstMatch, FailureTable;
    var j := 0;
    NothingRead(S, P);
    for i := 0 to lenS
      invariant 0 <= j < lenP
      invariant Longest(S, P, i, j, lenP)
      invariant NoneBefore(S, P, i)
      invariant FailureTable(P, next[..], lenP)
      invariant fallbacks + j <= i
    {
      LongestIsCandidate(S, P, i, j, lenP);
      while j > 0 && S[i] != P[j]
        invariant 0 <= j < lenP && Candidate(S, P, i, j, lenP)
        invariant FailureTable(P, next[..], lenP)
        invariant fallbacks + j <= i
        decreases j
      {
        FallBack(S, P, i, j, lenP);
        TableEntry(P, next[..], lenP, j);
        j := next[j - 1];
        fallbacks := fallbacks + 1;
      }
      Advance(S, P, i, j, lenP);
      if S[i] == P[j] {
        j := j + 1;
      }
      ReadOne(S, P, i, j);
      if j == lenP {
        return i - lenP + 1, fallbacks;
      }
    }
    FoundNone(S, P);
    return -1, fallbacks;
  }
}

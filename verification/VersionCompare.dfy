/**
 The version-aware string comparator strverscmp.  Strings are sequences of non-NUL bytes; reading
 at index |s| yields the terminator, and reading further is not allowed.
 */
module VersionCompare {

  type Byte = b: int | 0 < b < 256 witness 1
  type CString = seq<Byte>

  const ZERO := 48  // '0'
  const ONE := 49   // '1'
  const NINE := 57  // '9'

  function At(s: CString, i: nat): int
    requires i <= |s|
  {
    if i < |s| then s[i] else 0
  }

  predicate IsDigit(c: int) {
    ZERO <= c <= NINE
  }

  /** Index of the first non-digit at or after k. */
  function RunEnd(s: CString, k: nat): (r: nat)
    requires k <= |s|
    ensures k <= r <= |s|
    decreases |s| - k
  {
    if IsDigit(At(s, k)) then RunEnd(s, k + 1) else k
  }

  /** Index where the digit run that ends just before i begins (i itself when there is none). */
  function RunStart(s: CString, i: nat): (r: nat)
    requires i <= |s|
    ensures r <= i
  {
    if i > 0 && IsDigit(s[i - 1]) then RunStart(s, i - 1) else i
  }

  /** First index at or after i where the strings differ; the common length when they do not. */
  function DiffFrom(a: CString, b: CString, i: nat): (r: nat)
    requires i <= |a| && i <= |b|
    ensures i <= r <= |a| && r <= |b|
    decreases |a| - i
  {
    if At(a, i) != At(b, i) || i == |a| then i else DiffFrom(a, b, i + 1)
  }

  function FirstDiff(a: CString, b: CString): (r: nat)
    ensures r <= |a| && r <= |b|
  {
    DiffFrom(a, b, 0)
  }

  // ---------- the order, stated by ranking what may follow a common prefix ----------

  datatype Rank = Rank(group: int, width: nat, byte: int)

  predicate RankLess(x: Rank, y: Rank) {
    x.group < y.group
    || (x.group == y.group && (x.width < y.width || (x.width == y.width && x.byte < y.byte)))
  }

  predicate ZerosOnly(s: CString, lo: nat, hi: nat)
    requires lo <= hi <= |s|
  {
    forall m :: lo <= m < hi ==> s[m] == ZERO
  }

  predicate DigitsOnly(s: CString, lo: nat, hi: nat)
    requires lo <= hi <= |s|
  {
    forall m :: lo <= m < hi ==> IsDigit(s[m])
  }

  predicate Agree(a: CString, b: CString, i: nat) {
    i <= |a| && i <= |b| && forall m :: 0 <= m < i ==> a[m] == b[m]
  }

  /**
   The rank of string s among all strings that share its first i bytes.
   Outside a digit run, '0' ranks first and a whole number ranks by digit count, then by digit.
   Behind leading zeros only, any digit ranks before any non-digit.
   In a run that has a leading zero and a later non-zero digit, plain byte order.
   In a run without leading zero, the longer run ranks later.
   */
  function RankAt(s: CString, i: nat): Rank
    requires i <= |s|
  {
    var j := RunStart(s, i);
    var c := At(s, i);
    if j == i then
      if c == ZERO then Rank(-1, 0, c)
      else if IsDigit(c) then Rank(ONE, RunEnd(s, i), c)
      else Rank(c, 0, c)
    else if s[j] == ZERO then
      if ZerosOnly(s, j, i) then Rank(if IsDigit(c) then 0 else 1, 0, c) else Rank(0, 0, c)
    else
      Rank(0, RunEnd(s, j), c)
  }

  ghost predicate Before(a: CString, b: CString) {
    var d := FirstDiff(a, b);
    a != b && RankLess(RankAt(a, d), RankAt(b, d))
  }

  // ---------- facts about runs and common prefixes ----------

  lemma {:induction false} RunStartFacts(s: CString, i: nat)
    requires i <= |s|
    ensures var r := RunStart(s, i); DigitsOnly(s, r, i) && (r == 0 || !IsDigit(s[r - 1]))
  {
    if i > 0 && IsDigit(s[i - 1]) { RunStartFacts(s, i - 1); }
  }

  lemma {:induction false} RunStartIs(s: CString, i: nat, j: nat)
    requires j <= i <= |s| && (j == 0 || !IsDigit(s[j - 1])) && DigitsOnly(s, j, i)
    ensures RunStart(s, i) == j
  {
    if i > j { RunStartIs(s, i - 1, j); }
  }

  lemma {:induction false} RunEndFacts(s: CString, k: nat)
    requires k <= |s|
    ensures var r := RunEnd(s, k); DigitsOnly(s, k, r) && !IsDigit(At(s, r))
    decreases |s| - k
  {
    if IsDigit(At(s, k)) { RunEndFacts(s, k + 1); }
  }

  lemma {:induction false} RunEndIs(s: CString, k: nat, e: nat)
    requires k <= e <= |s| && !IsDigit(At(s, e)) && DigitsOnly(s, k, e)
    ensures RunEnd(s, k) == e
    decreases e - k
  {
    if k < e { RunEndIs(s, k + 1, e); }
  }

  lemma {:induction false} DiffFromFacts(a: CString, b: CString, i: nat)
    requires Agree(a, b, i)
    ensures var d := DiffFrom(a, b, i); Agree(a, b, d) && (if a == b then d == |a| else At(a, d) != At(b, d))
    decreases |a| - i
  {
    if At(a, i) == At(b, i) && i < |a| { DiffFromFacts(a, b, i + 1); }
  }

  /** The prefix up to FirstDiff is shared, and the strings are equal only if it is everything. */
  lemma FirstDiffFacts(a: CString, b: CString)
    ensures var d := FirstDiff(a, b); Agree(a, b, d) && (if a == b then d == |a| else At(a, d) != At(b, d))
  {
    DiffFromFacts(a, b, 0);
  }

  lemma FirstDiffIs(a: CString, b: CString, i: nat)
    requires Agree(a, b, i) && At(a, i) != At(b, i)
    ensures FirstDiff(a, b) == i == FirstDiff(b, a)
  {
    FirstDiffFacts(a, b);
    FirstDiffFacts(b, a);
  }

  lemma SharedPrefix(a: CString, b: CString, i: nat)
    requires Agree(a, b, i)
    ensures i <= FirstDiff(a, b)
  {
    FirstDiffFacts(a, b);
  }

  lemma {:induction false} RunStartOfPrefix(a: CString, b: CString, i: nat)
    requires Agree(a, b, i)
    ensures RunStart(a, i) == RunStart(b, i)
  {
    if i > 0 { RunStartOfPrefix(a, b, i - 1); }
  }

  // ---------- Before is a strict total order ----------

  /** Where two strings first differ, exactly one of them has the smaller rank. */
  lemma RanksSeparate(a: CString, b: CString, d: nat)
    requires Agree(a, b, d) && At(a, d) != At(b, d)
    ensures RankLess(RankAt(a, d), RankAt(b, d)) != RankLess(RankAt(b, d), RankAt(a, d))
  {
    RunStartOfPrefix(a, b, d);
  }

  /** Exactly one of: equal, a first, b first. */
  lemma Trichotomy(a: CString, b: CString)
    ensures a == b ==> !Before(a, b) && !Before(b, a)
    ensures a != b ==> Before(a, b) != Before(b, a)
  {
    if a != b {
      FirstDiffFacts(a, b);
      FirstDiffIs(a, b, FirstDiff(a, b));
      RanksSeparate(a, b, FirstDiff(a, b));
    }
  }

  /** With both numbers starting at j, the shorter number makes its string the earlier one. */
  lemma ShorterRunFirst(a: CString, b: CString, j: nat)
    requires Agree(a, b, j) && RunStart(a, j) == j
    requires IsDigit(At(a, j)) && At(a, j) != ZERO && At(a, j) == At(b, j)
    requires RunEnd(a, j) < RunEnd(b, j)
    ensures Before(a, b)
  {
    var d, e := FirstDiff(a, b), RunEnd(a, j);
    SharedPrefix(a, b, j + 1);
    FirstDiffFacts(a, b);
    RunEndFacts(a, j);
    RunEndFacts(b, j);
    assert d <= e;
    RunStartFacts(a, j);
    RunStartIs(a, d, j);
    RunStartOfPrefix(a, b, d);
  }

  /** A digit run inside a shared prefix has ended in both strings or goes on in both. */
  lemma UnequalRuns(a: CString, b: CString, j: nat, i: nat)
    requires j <= i && Agree(a, b, i + 1) && DigitsOnly(a, j, i)
    requires RunEnd(a, j) != RunEnd(b, j)
    ensures IsDigit(a[i])
  {
    if !IsDigit(a[i]) {
      RunEndIs(a, j, i);
      RunEndIs(b, j, i);
      assert false;
    }
  }

  /** A smaller rank at any shared prefix, not only at the longest one, already decides the order. */
  lemma SmallerRankFirst(a: CString, b: CString, i: nat)
    requires Agree(a, b, i)
    requires RankLess(RankAt(a, i), RankAt(b, i))
    ensures Before(a, b)
  {
    RunStartOfPrefix(a, b, i);
    assert At(a, i) == At(b, i) && i == |a| ==> a == b;
    if At(a, i) != At(b, i) {
      FirstDiffIs(a, b, i);
    } else {
      var j := RunStart(a, i);
      assert RunEnd(a, j) < RunEnd(b, j);
      RunStartFacts(a, i);
      UnequalRuns(a, b, j, i);
      RunStartIs(a, j, j);
      ShorterRunFirst(a, b, j);
    }
  }

  /** At a shared prefix the earlier string never has the larger rank. */
  lemma BeforeRanks(a: CString, b: CString, i: nat)
    requires Before(a, b) && Agree(a, b, i)
    ensures !RankLess(RankAt(b, i), RankAt(a, i))
  {
    if RankLess(RankAt(b, i), RankAt(a, i)) {
      SmallerRankFirst(b, a, i);
      Trichotomy(a, b);
    }
  }

  lemma Transitive(a: CString, b: CString, c: CString)
    requires Before(a, b) && Before(b, c)
    ensures Before(a, c)
  {
    var dab, dbc := FirstDiff(a, b), FirstDiff(b, c);
    var i := if dab < dbc then dab else dbc;
    FirstDiffFacts(a, b);
    FirstDiffFacts(b, c);
    BeforeRanks(a, b, i);
    BeforeRanks(b, c, i);
    SmallerRankFirst(a, c, i);
  }

  // ---------- what the order means for version numbers ----------

  /** The text before a number: it does not end inside another one. */
  predicate EndsOutside(p: CString) {
    p == [] || !IsDigit(p[|p| - 1])
  }

  ghost predicate Numeral(u: CString) {
    u != [] && u[0] != ZERO && DigitsOnly(u, 0, |u|)
  }

  ghost function Value(u: CString): int {
    if u == [] then 0 else 10 * Value(u[..|u| - 1]) + (u[|u| - 1] - ZERO)
  }

  ghost function Pow10(n: nat): int {
    if n == 0 then 1 else 10 * Pow10(n - 1)
  }

  lemma {:induction false} ValueBounds(u: CString)
    requires DigitsOnly(u, 0, |u|)
    ensures 0 <= Value(u) < Pow10(|u|)
    ensures Numeral(u) ==> Pow10(|u| - 1) <= Value(u)
  {
    if u != [] {
      ValueBounds(u[..|u| - 1]);
    }
  }

  lemma {:induction false} Pow10Monotone(m: nat, n: nat)
    requires m <= n
    ensures 0 < Pow10(m) <= Pow10(n)
    decreases n
  {
    if 0 < n && m == n { Pow10Monotone(m - 1, n - 1); }
    if m < n { Pow10Monotone(m, n - 1); }
  }

  /** Among digit strings of one length, the first differing digit decides the value. */
  lemma {:induction false} FirstDigitDecides(u: CString, v: CString, d: nat)
    requires |u| == |v| && d < |u| && Agree(u, v, d) && u[d] < v[d]
    requires DigitsOnly(u, 0, |u|) && DigitsOnly(v, 0, |v|)
    ensures Value(u) < Value(v)
  {
    var n := |u| - 1;
    if d < n {
      FirstDigitDecides(u[..n], v[..n], d);
    } else {
      assert u[..n] == v[..n];
    }
  }

  /** A smaller number is shorter, or of equal length with a smaller first differing digit. */
  lemma SmallerValue(u: CString, v: CString)
    requires Numeral(u) && Numeral(v) && Value(u) < Value(v)
    ensures |u| <= |v|
    ensures |u| == |v| ==> var d := FirstDiff(u, v); d < |u| && u[d] < v[d]
  {
    ValueBounds(u);
    ValueBounds(v);
    if |u| > |v| { Pow10Monotone(|v|, |u| - 1); }
    FirstDiffFacts(u, v);
    FirstDiffFacts(v, u);
    if |u| == |v| {
      var d := FirstDiff(u, v);
      if u[d] > v[d] { FirstDigitDecides(v, u, d); }
    }
  }

  lemma Middle(p: CString, v: CString, s: CString, m: nat)
    requires m < |v|
    ensures (p + v + s)[|p| + m] == v[m]
  {
  }

  /** A digit string in the middle of a text, behind something that is no digit. */
  lemma DigitsInside(p: CString, v: CString, s: CString, d: nat)
    requires EndsOutside(p) && DigitsOnly(v, 0, |v|) && d <= |v|
    ensures var a := p + v + s; DigitsOnly(a, |p|, |p| + |v|) && RunStart(a, |p| + d) == |p|
  {
    var a := p + v + s;
    forall m | |p| <= m < |p| + |v| ensures IsDigit(a[m]) { Middle(p, v, s, m - |p|); }
    assert p != [] ==> a[|p| - 1] == p[|p| - 1];
    RunStartIs(a, |p| + d, |p|);
  }

  /** Where the number u starts and ends inside p + u + s. */
  lemma NumberInside(p: CString, u: CString, s: CString, d: nat)
    requires EndsOutside(p)
    requires Numeral(u) && (s == [] || !IsDigit(s[0])) && d <= |u|
    ensures var a := p + u + s;
      RunStart(a, |p| + d) == |p| && RunEnd(a, |p|) == |p| + |u| && (d < |u| ==> At(a, |p| + d) == u[d])
  {
    var a := p + u + s;
    DigitsInside(p, u, s, d);
    assert At(a, |p| + |u|) == At(s, 0);
    RunEndIs(a, |p|, |p| + |u|);
    if d < |u| { Middle(p, u, s, d); }
  }

  /** The rank at digit d of a number: its end, then the digit. */
  lemma NumberRank(p: CString, u: CString, s: CString, d: nat)
    requires EndsOutside(p)
    requires Numeral(u) && (s == [] || !IsDigit(s[0])) && d < |u|
    ensures RankAt(p + u + s, |p| + d) == Rank(if d == 0 then ONE else 0, |p| + |u|, u[d])
  {
    NumberInside(p, u, s, d);
    NumberInside(p, u, s, 0);
  }

  /**
   Numbers without leading zeros that follow the same text are ordered by numeric value,
   whatever comes after them: 999 before 1000.
   */
  lemma NumericOrder(p: CString, u: CString, v: CString, s: CString, t: CString)
    requires EndsOutside(p)
    requires Numeral(u) && Numeral(v)
    requires (s == [] || !IsDigit(s[0])) && (t == [] || !IsDigit(t[0]))
    requires Value(u) < Value(v)
    ensures Before(p + u + s, p + v + t)
  {
    SmallerValue(u, v);
    FirstDiffFacts(u, v);
    var d := if |u| < |v| then 0 else FirstDiff(u, v);
    NumberRank(p, u, s, d);
    NumberRank(p, v, t, d);
    AgreeInside(p, u, v, s, t, d);
    SmallerRankFirst(p + u + s, p + v + t, |p| + d);
  }

  lemma AgreeInside(p: CString, u: CString, v: CString, s: CString, t: CString, d: nat)
    requires Agree(u, v, d)
    ensures Agree(p + u + s, p + v + t, |p| + d)
  {
  }

  predicate Zeros(z: CString) {
    z != [] && ZerosOnly(z, 0, |z|)
  }

  lemma Places(p: CString, z: CString, u: CString, s: CString)
    ensures var a := p + z + u + s;
      && (forall m | 0 <= m < |p| :: a[m] == p[m])
      && (forall m | |p| <= m < |p| + |z| :: a[m] == z[m - |p|])
      && (forall m | |p| + |z| <= m < |p| + |z| + |u| :: a[m] == u[m - |p| - |z|])
  {
  }

  /** Where a digit string with leading zeros z starts inside p + z + u + s. */
  lemma ZerosInside(p: CString, z: CString, u: CString, s: CString, d: nat)
    requires EndsOutside(p) && Zeros(z) && DigitsOnly(u, 0, |u|) && d <= |u|
    ensures var a := p + z + u + s;
      && RunStart(a, |p| + |z| + d) == |p| && a[|p|] == ZERO && ZerosOnly(a, |p|, |p| + |z|)
      && (d < |u| ==> At(a, |p| + |z| + d) == u[d])
  {
    hide RunStart;
    var a, i := p + z + u + s, |p| + |z|;
    Places(p, z, u, s);
    assert ZerosOnly(a, |p|, i);
    assert DigitsOnly(a, |p|, i + d);
    assert |p| > 0 ==> a[|p| - 1] == p[|p| - 1];
    RunStartIs(a, i + d, |p|);
  }

  /** Behind leading zeros only, a digit ranks before anything else. */
  lemma RankAfterZeros(p: CString, z: CString, s: CString)
    requires EndsOutside(p) && Zeros(z)
    ensures RankAt(p + z + s, |p| + |z|) == Rank(if s != [] && IsDigit(s[0]) then 0 else 1, 0, At(s, 0))
  {
    ZerosInside(p, z, [], s, 0);
    assert p + z + [] + s == p + z + s;
  }

  /** After the same leading zeros, going on with digits comes before not going on: 002 before 00, 01 before 0. */
  lemma MoreDigitsFirst(p: CString, z: CString, u: CString, s: CString, t: CString)
    requires EndsOutside(p) && Zeros(z) && u != [] && DigitsOnly(u, 0, |u|)
    requires t == [] || !IsDigit(t[0])
    ensures Before(p + z + u + s, p + z + t)
  {
    RankAfterZeros(p, z, u + s);
    RankAfterZeros(p, z, t);
    assert p + z + (u + s) == p + z + u + s;
    SmallerRankFirst(p + z + u + s, p + z + t, |p| + |z|);
  }

  /** Numbers behind the same leading zeros are ordered by their first differing digit, whatever their lengths. */
  lemma FirstDigitAfterZeros(p: CString, z: CString, u: CString, v: CString, s: CString, t: CString, d: nat)
    requires EndsOutside(p) && Zeros(z) && DigitsOnly(u, 0, |u|) && DigitsOnly(v, 0, |v|)
    requires d < |u| && d < |v| && Agree(u, v, d) && u[d] < v[d]
    ensures Before(p + z + u + s, p + z + v + t)
  {
    ZerosInside(p, z, u, s, d);
    ZerosInside(p, z, v, t, d);
    AgreeInside(p + z, u, v, s, t, d);
    SmallerRankFirst(p + z + u + s, p + z + v + t, |p| + |z| + d);
  }

  lemma StartInside(p: CString, s: CString)
    requires EndsOutside(p)
    ensures RunStart(p + s, |p|) == |p| && At(p + s, |p|) == At(s, 0)
  {
    if p != [] { assert (p + s)[|p| - 1] == p[|p| - 1]; }
  }

  /** Outside numbers, a '0' comes before everything else, even before the end of the string. */
  lemma ZeroFirst(p: CString, s: CString, t: CString)
    requires EndsOutside(p) && s != [] && s[0] == ZERO && At(t, 0) != ZERO
    ensures Before(p + s, p + t)
  {
    StartInside(p, s);
    StartInside(p, t);
    SmallerRankFirst(p + s, p + t, |p|);
  }

  /** Outside numbers, other bytes are in byte order, the end of the string first. */
  lemma ByteOrder(p: CString, s: CString, t: CString)
    requires EndsOutside(p) && At(s, 0) < At(t, 0)
    requires At(s, 0) != ZERO && At(t, 0) != ZERO && !(IsDigit(At(s, 0)) && IsDigit(At(t, 0)))
    ensures Before(p + s, p + t)
  {
    StartInside(p, s);
    StartInside(p, t);
    SmallerRankFirst(p + s, p + t, |p|);
  }

  // ---------- the comparator itself ----------

  /** Index of the first difference (lines 1090-1097); none when the strings are equal. */
  method FindDifference(a: CString, b: CString) returns (equal: bool, i: nat)
    ensures equal <==> a == b
    ensures !equal ==> i == FirstDiff(a, b)
  {
    i := 0;
    while At(a, i) == At(b, i)
      invariant Agree(a, b, i)
      decreases |a| - i
    {
      if At(a, i) == 0 { return true, i; }
      i := i + 1;
    }
    FirstDiffIs(a, b, i);
    equal := false;
  }

  /** Number of digits from j on, as an end index (lines 1128-1133). */
  method CountDigits(s: CString, j: nat) returns (k: nat)
    requires j <= |s|
    ensures k == RunEnd(s, j)
  {
    k := j;
    while IsDigit(At(s, k))
      invariant j <= k <= |s| && RunEnd(s, k) == RunEnd(s, j)
      decreases |s| - k
    {
      k := k + 1;
    }
  }

  method Strverscmp(a: CString, b: CString) returns (r: int)
    ensures r == 0 <==> a == b
    ensures r < 0 <==> Before(a, b)
    ensures r > 0 <==> Before(b, a)
  {
    Trichotomy(a, b);
    var equal, i := FindDifference(a, b);
    if equal { return 0; }
    FirstDiffFacts(a, b);
    FirstDiffIs(a, b, i);
    RanksSeparate(a, b, i);

    var j := i;
    while j > 0 && IsDigit(At(a, j - 1))
      invariant j <= i && DigitsOnly(a, j, i)
    {
      j := j - 1;
    }
    RunStartIs(a, i, j);
    RunStartOfPrefix(a, b, i);

    if At(a, j) == ZERO || At(b, j) == ZERO {
      ghost var start := j;
      while At(a, j) == ZERO && At(a, j) == At(b, j)
        invariant start <= j <= i && ZerosOnly(a, start, j)
        decreases i - j
      {
        j := j + 1;
      }
      if IsDigit(At(a, j)) {
        if !IsDigit(At(b, j)) { return -1; }
      } else if IsDigit(At(b, j)) {
        return 1;
      }
    } else if IsDigit(At(a, j)) && IsDigit(At(b, j)) {
      var k1 := CountDigits(a, j);
      var k2 := CountDigits(b, j);
      if k1 < k2 {
        return -1;
      } else if k1 > k2 {
        return 1;
      }
    }
    r := At(a, i) - At(b, i);
  }
}

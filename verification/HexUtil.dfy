/**
 Hexadecimal printing and parsing of byte arrays with an arbitrary delimiter, and the exact set of
 delimiters for which parsing undoes printing.
 */
module HexUtil {
  import opened Results
  import opened JavaStrings

  /** A Java byte. */
  newtype JByte = b: int | -128 <= b < 128

  datatype HexError = IllegalArgument | NumberFormat

  // ---------- library functions the code relies on ----------

  function HexChar(n: int): char
    requires 0 <= n < 16
  {
    "0123456789abcdef"[n]
  }

  /** Character.digit(c, 16), for ASCII. */
  function DigitValue(c: char): Option<int> {
    if '0' <= c <= '9' then Some(c as int - '0' as int)
    else if 'a' <= c <= 'f' then Some(c as int - 'a' as int + 10)
    else if 'A' <= c <= 'F' then Some(c as int - 'A' as int + 10)
    else None
  }

  /** Integer.toHexString on a non-negative number. */
  function ToHexString(n: nat): string {
    if n < 16 then [HexChar(n)] else ToHexString(n / 16) + [HexChar(n % 16)]
  }

  /** String.replace(d, ""): occurrences are removed left to right, without rescanning. */
  function Remove(s: string, d: string): string
    requires d != ""
  {
    if |s| < |d| then s
    else if s[..|d|] == d then Remove(s[|d|..], d)
    else [s[0]] + Remove(s[1..], d)
  }

  // ---------- what is printed, what is parsed ----------

  function Unsigned(b: JByte): int {
    b as int % 256
  }

  /** The narrowing cast (byte). */
  function Signed(n: int): JByte
    requires 0 <= n < 256
  {
    (if n < 128 then n else n - 256) as JByte
  }

  function Hex2(b: JByte): string {
    [HexChar(Unsigned(b) / 16), HexChar(Unsigned(b) % 16)]
  }

  function Printed(bs: seq<JByte>, d: string): string {
    if bs == [] then ""
    else if |bs| == 1 then Hex2(bs[0])
    else Hex2(bs[0]) + d + Printed(bs[1..], d)
  }

  /** The byte that two digits stand for. */
  function Pair(high: char, low: char): Option<JByte> {
    match (DigitValue(high), DigitValue(low))
    case (Some(h), Some(l)) => Some(Signed(16 * h + l))
    case _ => None
  }

  /** Pairs of digits from the left; an odd last character is ignored. */
  function Parsed(s: string): Result<seq<JByte>, HexError> {
    if |s| < 2 then Ok([])
    else match (Pair(s[0], s[1]), Parsed(s[2..]))
      case (Some(b), Ok(rest)) => Ok([b] + rest)
      case _ => Err(NumberFormat)
  }

  ghost function After(done: seq<JByte>, r: Result<seq<JByte>, HexError>): Result<seq<JByte>, HexError> {
    match r case Ok(rest) => Ok(done + rest) case Err(e) => Err(e)
  }

  function ParsedWith(s: string, d: string): Result<seq<JByte>, HexError> {
    Parsed(if d == "" then s else Remove(s, d))
  }

  /** A character that encode can emit. */
  predicate HexOut(c: char) {
    '0' <= c <= '9' || 'a' <= c <= 'f'
  }

  /** The delimiters that parsing can always tell from the digits around them. */
  ghost predicate Separates(d: string) {
    || d == ""
    || (exists p :: 0 <= p < |d| && !HexOut(d[p]))
    || (exists i :: 2 <= i < |d| && d[i] != d[i - 2])
  }

  // ---------- the code ----------

  method Encode(src: Option<seq<JByte>>, delimiter: Option<string>) returns (r: Result<string, HexError>)
    ensures r.Err? <==> src.None? || src == Some([]) || delimiter.None?
    ensures r.Ok? ==> r.value == Printed(src.value, delimiter.value)
  {
    if src.None? || src.value == [] || delimiter.None? { return Err(IllegalArgument); }
    var bytes, d := src.value, delimiter.value;
    var shouldAppend := d != "";
    var sb := "";
    assert bytes[0..] == bytes;
    for i := 0 to |bytes|
      invariant PrintedSoFar(sb, bytes, i, d)
    {
      var strHex := ToHexString(Unsigned(bytes[i]));
      TwoDigits(bytes[i]);
      PrintedStep(sb, bytes, i, d);
      sb := sb + (if |strHex| == 1 then "0" + strHex else strHex);
      if shouldAppend {
        sb := sb + d;
      }
    }
    if shouldAppend {
      sb := sb[..|sb| - |d|];
    }
    PrintedEnds(bytes, d);
    return Ok(Trim(sb));
  }

  method Decode(src: string) returns (r: Result<seq<JByte>, HexError>)
    ensures r == Parsed(src)
  {
    var byteLen := |src| / 2;
    var ret := new JByte[byteLen];
    AfterNothing(Parsed(src));
    assert src[2 * 0..] == src && ret[..0] == [];
    for i := 0 to byteLen
      invariant Parsed(src) == After(ret[..i], Parsed(src[2 * i..]))
    {
      ParseStep(ret[..i], src, 2 * i);
      var b := Pair(src[2 * i], src[2 * i + 1]);
      if b.None? { return Err(NumberFormat); }
      ghost var done := ret[..i];
      ret[i] := b.value;
      assert ret[..i + 1] == done + [b.value];
    }
    assert |src[2 * byteLen..]| < 2 && ret[..byteLen] + [] == ret[..];
    return Ok(ret[..]);
  }

  method DecodeDelimited(src: Option<string>, delimiter: Option<string>) returns (r: Result<seq<JByte>, HexError>)
    ensures src.None? || |src.value| < 2 ==> r == Err(IllegalArgument)
    ensures src.Some? && |src.value| >= 2 ==>
      r == ParsedWith(src.value, if delimiter.Some? then delimiter.value else "")
  {
    if src.None? || |src.value| < 2 { return Err(IllegalArgument); }
    var text := src.value;
    if delimiter.Some? && delimiter.value != "" {
      text := Remove(text, delimiter.value);
    }
    r := Decode(text);
  }

  // ---------- printing ----------

  lemma TwoDigits(b: JByte)
    ensures var h := ToHexString(Unsigned(b)); Hex2(b) == if |h| == 1 then "0" + h else h
  {
    var n := Unsigned(b);
    if n >= 16 { assert ToHexString(n / 16) == [HexChar(n / 16)]; }
  }

  lemma AfterNothing(r: Result<seq<JByte>, HexError>)
    ensures After([], r) == r
  {
    if r.Ok? { assert [] + r.value == r.value; }
  }

  lemma ParseStep(done: seq<JByte>, s: string, i: nat)
    requires i + 2 <= |s|
    ensures match Pair(s[i], s[i + 1])
      case Some(b) => After(done, Parsed(s[i..])) == After(done + [b], Parsed(s[i + 2..]))
      case None => Parsed(s[i..]) == Err(NumberFormat)
  {
    assert s[i..][2..] == s[i + 2..];
    match (Pair(s[i], s[i + 1]), Parsed(s[i + 2..]))
    case (Some(b), Ok(rest)) => assert done + ([b] + rest) == done + [b] + rest;
    case _ =>
  }

  lemma Regroup(a: string, b: string, c: string, d: string)
    ensures a + (b + c + d) == a + b + c + d
  {
  }

  /** What the builder holds after i bytes: everything but the rest, and one delimiter too many at the end. */
  ghost predicate PrintedSoFar(sb: string, bs: seq<JByte>, i: nat, d: string) {
    i <= |bs| && if i < |bs| then Printed(bs, d) == sb + Printed(bs[i..], d) else sb == Printed(bs, d) + d
  }

  lemma PrintedStep(sb: string, bs: seq<JByte>, i: nat, d: string)
    requires i < |bs| && PrintedSoFar(sb, bs, i, d)
    ensures PrintedSoFar(sb + Hex2(bs[i]) + d, bs, i + 1, d)
    ensures d == "" ==> sb + Hex2(bs[i]) + d == sb + Hex2(bs[i])
  {
    var rest := bs[i..];
    assert rest[1..] == bs[i + 1..] && rest[0] == bs[i];
    if |rest| > 1 {
      Regroup(sb, Hex2(bs[i]), d, Printed(rest[1..], d));
    }
  }

  lemma HexCharFacts(n: int)
    requires 0 <= n < 16
    ensures HexOut(HexChar(n)) && DigitValue(HexChar(n)) == Some(n)
  {
  }

  lemma {:induction false} PrintedEnds(bs: seq<JByte>, d: string)
    requires bs != []
    ensures var s := Printed(bs, d); |s| >= 2 && HexOut(s[0]) && HexOut(s[|s| - 1]) && Trim(s) == s
  {
    HexCharFacts(Unsigned(bs[0]) / 16);
    HexCharFacts(Unsigned(bs[0]) % 16);
    if |bs| > 1 { PrintedEnds(bs[1..], d); }
  }

  // ---------- what the digits mean ----------

  /** The sixteen digits that are printed have rising values from 0 to 15. */
  lemma DigitsRise(x: char, y: char)
    requires HexOut(x) && HexOut(y)
    ensures DigitValue(x).Some? && DigitValue(y).Some? && 0 <= DigitValue(x).value < 16
    ensures x < y ==> DigitValue(x).value < DigitValue(y).value
  {
  }

  function Upper(c: char): char {
    if 'a' <= c <= 'z' then (c as int - 'a' as int + 'A' as int) as char else c
  }

  function UpperCase(s: string): string {
    seq(|s|, k requires 0 <= k < |s| => Upper(s[k]))
  }

  /** Parsing does not distinguish upper and lower case. */
  lemma {:induction false} CaseDoesNotMatter(s: string)
    ensures Parsed(UpperCase(s)) == Parsed(s)
    decreases |s|
  {
    if |s| >= 2 {
      CaseDoesNotMatter(s[2..]);
      assert UpperCase(s)[2..] == UpperCase(s[2..]);
      DigitCase(s[0]);
      DigitCase(s[1]);
    }
  }

  lemma DigitCase(c: char)
    ensures DigitValue(Upper(c)) == DigitValue(c)
  {
  }

  /** The first digit printed is the higher one: of two bytes, the smaller one has the earlier text. */
  lemma PrintedOrder(b: JByte, c: JByte)
    requires Unsigned(b) < Unsigned(c)
    ensures var x, y := Hex2(b), Hex2(c); x[0] < y[0] || (x[0] == y[0] && x[1] < y[1])
  {
    var b1, b0, c1, c0 := Unsigned(b) / 16, Unsigned(b) % 16, Unsigned(c) / 16, Unsigned(c) % 16;
    assert b1 < c1 || (b1 == c1 && b0 < c0);
    CharsRise(b1, c1);
    CharsRise(b0, c0);
  }

  lemma CharsRise(m: int, n: int)
    requires 0 <= m < 16 && 0 <= n < 16
    ensures m < n ==> HexChar(m) < HexChar(n)
  {
    HexCharFacts(m);
    HexCharFacts(n);
    DigitsRise(HexChar(n), HexChar(m));
  }

  // ---------- separating delimiters: parsing undoes printing ----------

  lemma ReadByte(b: JByte)
    ensures Pair(Hex2(b)[0], Hex2(b)[1]) == Some(b)
  {
    HexCharFacts(Unsigned(b) / 16);
    HexCharFacts(Unsigned(b) % 16);
  }

  lemma {:induction false} ParsePlain(bs: seq<JByte>)
    ensures Parsed(Printed(bs, "")) == Ok(bs)
  {
    if bs != [] {
      ParsePlain(bs[1..]);
      ReadByte(bs[0]);
      var s := Printed(bs, "");
      assert s == Hex2(bs[0]) + Printed(bs[1..], "");
      assert s[2..] == Printed(bs[1..], "");
      assert bs == [bs[0]] + bs[1..];
    }
  }

  /** If the delimiter occurs too early, it has only digits and repeats with period two. */
  lemma EarlyMatch(h: string, d: string, rest: string, o: nat)
    requires |h| == 2 && HexOut(h[0]) && HexOut(h[1]) && d != "" && o < 2
    requires (h + d + rest)[o..][..|d|] == d
    ensures !Separates(d)
  {
    var s := h + d + rest;
    forall m | 0 <= m < |d| ensures s[2 + m] == d[m] && s[o + m] == d[m] {
      assert s[o..][..|d|][m] == d[m];
    }
    forall p | 0 <= p < |d| ensures HexOut(d[p]) { FirstNonHex(h, d, s, o, p); }
    forall i | 2 <= i < |d| ensures d[i] == d[i - 2] { PeriodicMatch(d, s, o, i); }
  }

  lemma PeriodicMatch(d: string, s: string, o: nat, i: nat)
    requires o < 2 && 2 <= i < |d| && |s| >= |d| + 2
    requires forall m :: 0 <= m < |d| ==> s[2 + m] == d[m]
    requires forall m :: 0 <= m < |d| ==> s[o + m] == d[m]
    ensures d[i] == d[i - 2]
  {
    assert s[2 + (i - 2)] == d[i - 2] && s[2 + (i - 1 - 1 + o)] == d[i - 2 + o];
    assert s[o + i] == d[i] && s[o + (i - 1)] == d[i - 1];
  }

  lemma {:induction false} FirstNonHex(h: string, d: string, s: string, o: nat, p: nat)
    requires |h| == 2 && HexOut(h[0]) && HexOut(h[1]) && o < 2 && p < |d| && |s| >= |d| + 2
    requires s[0] == h[0] && s[1] == h[1]
    requires forall m :: 0 <= m < |d| ==> s[2 + m] == d[m]
    requires forall m :: 0 <= m < |d| ==> s[o + m] == d[m]
    ensures HexOut(d[p])
  {
    assert s[o + p] == d[p];
    if o + p >= 2 {
      assert s[2 + (o + p - 2)] == d[o + p - 2];
      FirstNonHex(h, d, s, o, o + p - 2);
    }
  }

  lemma RemoveTail(h: string, d: string)
    requires |h| == 2 && HexOut(h[0]) && HexOut(h[1]) && d != "" && Separates(d)
    ensures Remove(h, d) == h
  {
    if |d| <= 2 {
      var p :| 0 <= p < |d| && !HexOut(d[p]);
      assert h[..|d|] != d by { assert h[..|d|][p] == h[p]; }
      assert h[1..][..1] == [h[1]];
      assert Remove(h[1..], d) == h[1..] by { assert Remove(h[1..][1..], d) == ""; }
    }
  }

  lemma RemoveMatch(d: string, rest: string)
    requires d != ""
    ensures Remove(d + rest, d) == Remove(rest, d)
  {
    assert (d + rest)[..|d|] == d && (d + rest)[|d|..] == rest;
  }

  lemma RemoveSkip(x: char, t: string, d: string)
    requires d != "" && |t| + 1 >= |d| && ([x] + t)[..|d|] != d
    ensures Remove([x] + t, d) == [x] + Remove(t, d)
  {
    assert ([x] + t)[1..] == t;
  }

  lemma TwoSkips(a: char, b: char, u: string, d: string)
    requires d != "" && |u| >= |d| && ([a] + ([b] + u))[..|d|] != d && ([b] + u)[..|d|] != d
    ensures Remove([a] + ([b] + u), d) == [a] + ([b] + Remove(u, d))
  {
    RemoveSkip(b, u, d);
    RemoveSkip(a, [b] + u, d);
  }

  lemma Letters(h: string, u: string)
    requires |h| == 2
    ensures h + u == [h[0]] + ([h[1]] + u)
    ensures (h + u)[0..] == h + u && (h + u)[1..] == [h[1]] + u
  {
  }

  lemma RemoveOne(h: string, d: string, rest: string)
    requires |h| == 2 && HexOut(h[0]) && HexOut(h[1]) && d != "" && Separates(d)
    ensures Remove(h + d + rest, d) == h + Remove(rest, d)
  {
    var a, b, u := h[0], h[1], d + rest;
    assert h + d + rest == h + u;
    Letters(h, u);
    if ([a] + ([b] + u))[..|d|] == d { EarlyMatch(h, d, rest, 0); }
    if ([b] + u)[..|d|] == d { EarlyMatch(h, d, rest, 1); }
    TwoSkips(a, b, u, d);
    RemoveMatch(d, rest);
    Letters(h, Remove(rest, d));
  }

  lemma {:induction false} RemoveUndoes(bs: seq<JByte>, d: string)
    requires d != "" && Separates(d)
    ensures Remove(Printed(bs, d), d) == Printed(bs, "")
  {
    if bs != [] {
      var h := Hex2(bs[0]);
      HexCharFacts(Unsigned(bs[0]) / 16);
      HexCharFacts(Unsigned(bs[0]) % 16);
      if |bs| == 1 {
        RemoveTail(h, d);
      } else {
        RemoveOne(h, d, Printed(bs[1..], d));
        RemoveUndoes(bs[1..], d);
      }
    }
  }

  // ---------- other delimiters: some input is parsed wrongly ----------

  ghost function Alternate(x: char, y: char, n: nat): string {
    seq(n, k requires 0 <= k < n => if k % 2 == 0 then x else y)
  }

  lemma DigitOfValue(x: char)
    requires HexOut(x)
    ensures DigitValue(x).Some? && 0 <= DigitValue(x).value < 16 && HexChar(DigitValue(x).value) == x
  {
  }

  lemma SplitByte(h: int, l: int)
    requires 0 <= h < 16 && 0 <= l < 16
    ensures Unsigned(Signed(16 * h + l)) == 16 * h + l
    ensures (16 * h + l) / 16 == h && (16 * h + l) % 16 == l
  {
  }

  lemma PrintDigits(h: int, l: int, x: char, y: char)
    requires 0 <= h < 16 && 0 <= l < 16 && x == HexChar(h) && y == HexChar(l)
    ensures Hex2(Signed(16 * h + l)) == [x, y]
  {
    SplitByte(h, l);
  }

  lemma PairOf(x: char, y: char)
    requires HexOut(x) && HexOut(y)
    ensures Pair(x, y).Some?
  {
    DigitOfValue(x);
    DigitOfValue(y);
  }

  ghost function ByteFrom(x: char, y: char): JByte
    requires HexOut(x) && HexOut(y)
  {
    PairOf(x, y);
    Pair(x, y).value
  }

  lemma PrintByteFrom(x: char, y: char)
    requires HexOut(x) && HexOut(y)
    ensures Hex2(ByteFrom(x, y)) == [x, y]
  {
    DigitOfValue(x);
    DigitOfValue(y);
    PrintDigits(DigitValue(x).value, DigitValue(y).value, x, y);
  }

  lemma AlternateConcat(x: char, y: char, n: nat, m: nat)
    requires n % 2 == 0 || x == y
    ensures Alternate(x, y, n) + Alternate(x, y, m) == Alternate(x, y, n + m)
  {
  }

  /** Printed length of m bytes with a delimiter of n characters. */
  ghost function PrintedLength(m: nat, n: nat): nat
    requires m > 0
  {
    if m == 1 then 2 else 2 + n + PrintedLength(m - 1, n)
  }

  lemma {:induction false} PrintedLengthIs(m: nat, n: nat)
    requires m > 0
    ensures PrintedLength(m, n) == 2 * m + (m - 1) * n
  {
    if m > 1 {
      PrintedLengthIs(m - 1, n);
      assert (m - 1) * n == (m - 2) * n + n;
    }
  }

  lemma {:induction false} PrintAlternating(b: JByte, m: nat, x: char, y: char, n: nat)
    requires Hex2(b) == [x, y] && m > 0 && (n % 2 == 0 || x == y)
    ensures Printed(seq(m, _ => b), Alternate(x, y, n)) == Alternate(x, y, PrintedLength(m, n))
  {
    var d, bs := Alternate(x, y, n), seq(m, _ => b);
    assert Alternate(x, y, 2) == [x, y];
    if m == 1 {
      assert Printed(bs, d) == Hex2(b);
    } else {
      PrintAlternating(b, m - 1, x, y, n);
      assert bs[1..] == seq(m - 1, _ => b);
      assert Printed(bs, d) == Hex2(b) + d + Printed(bs[1..], d);
      AlternateConcat(x, y, 2, n);
      AlternateConcat(x, y, 2 + n, PrintedLength(m - 1, n));
    }
  }

  lemma {:induction false} RemoveAlternating(x: char, y: char, n: nat, k: nat)
    requires n > 0 && (n % 2 == 0 || x == y)
    ensures 0 <= n * k && Remove(Alternate(x, y, n * k), Alternate(x, y, n)) == ""
  {
    if k > 0 {
      RemoveAlternating(x, y, n, k - 1);
      var less := n * (k - 1);
      assert n * k == n + less;
      AlternateConcat(x, y, n, less);
      RemoveMatch(Alternate(x, y, n), Alternate(x, y, less));
    }
  }

  lemma NotInside(t: string, d: string)
    requires |t| == 4 && |d| >= 3 && t[0] != d[0] && t[2] != d[1]
    ensures Remove(t, d) == t
  {
    if |d| <= 4 { assert t[..|d|][0] == t[0]; }
    if |d| == 3 { assert t[1..][..3][1] == t[2]; }
    assert Remove(t[1..], d) == t[1..];
  }

  /** A delimiter of odd length over two different digits turns xyxy into yxxy. */
  lemma OddAlternating(x: char, y: char, n: nat)
    requires HexOut(x) && HexOut(y) && x != y && n % 2 == 1 && n >= 3
    ensures var b := ByteFrom(x, y); ParsedWith(Printed([b, b], Alternate(x, y, n)), Alternate(x, y, n)) != Ok([b, b])
  {
    var b, d := ByteFrom(x, y), Alternate(x, y, n);
    PrintByteFrom(x, y);
    var s := Printed([b, b], d);
    assert [b, b][1..] == [b];
    assert Printed([b], d) == [x, y];
    assert s == [x, y] + d + [x, y];
    assert s[..n] == d;
    var t := s[n..];
    assert t == [y, x, x, y];
    assert d[..3] == [x, y, x];
    NotInside(t, d);
    assert Parsed(t[2..]).Ok?;
    assert Parsed(t).value[0] == ByteFrom(y, x);
    PrintByteFrom(y, x);
    assert ByteFrom(y, x) != b by { assert Hex2(b)[0] == x && Hex2(ByteFrom(y, x))[0] == y; }
  }

  lemma NonSeparatorFails(d: string) returns (bs: seq<JByte>)
    requires !Separates(d)
    ensures bs != [] && ParsedWith(Printed(bs, d), d) != Ok(bs)
  {
    var n := |d|;
    var x := d[0];
    var y := if n > 1 then d[1] else x;
    forall k | 0 <= k < n ensures d[k] == if k % 2 == 0 then x else y { PeriodTwo(d, k); }
    assert d == Alternate(x, y, n);
    var b := ByteFrom(x, y);
    PrintByteFrom(x, y);
    if n % 2 == 0 || x == y {
      bs := seq(n, _ => b);
      PrintAlternating(b, n, x, y, n);
      PrintedLengthIs(n, n);
      assert 2 * n + (n - 1) * n == n * (n + 1);
      RemoveAlternating(x, y, n, n + 1);
    } else {
      bs := [b, b];
      OddAlternating(x, y, n);
    }
  }

  lemma {:induction false} PeriodTwo(d: string, k: nat)
    requires k < |d| && forall i :: 2 <= i < |d| ==> d[i] == d[i - 2]
    ensures d[k] == d[k % 2]
  {
    if k >= 2 { PeriodTwo(d, k - 2); }
  }

  /**
   decode(encode(b, d), d) == b for every non-empty b, exactly for the separating delimiters:
   the empty one, those with a character outside 0-9a-f, and those where some character differs
   from the one two places before it.
   */
  lemma RoundTripExactly(d: string)
    ensures (forall bs: seq<JByte> :: bs != [] ==> ParsedWith(Printed(bs, d), d) == Ok(bs)) <==> Separates(d)
  {
    if Separates(d) {
      forall bs: seq<JByte> | bs != [] ensures ParsedWith(Printed(bs, d), d) == Ok(bs) {
        ParsePlain(bs);
        if d != "" { RemoveUndoes(bs, d); }
      }
    } else {
      var bs := NonSeparatorFails(d);
    }
  }

  lemma PrintCons(b: JByte, rest: seq<JByte>)
    ensures Printed([b] + rest, "") == Hex2(b) + Printed(rest, "")
  {
    assert ([b] + rest)[1..] == rest;
    if rest == [] { assert Hex2(b) + "" == Hex2(b); }
  }

  /** The other direction: printing undoes parsing on lower-case digit strings of even length. */
  lemma {:induction false} PrintUndoesParse(s: string)
    requires |s| % 2 == 0 && forall i :: 0 <= i < |s| ==> HexOut(s[i])
    ensures Parsed(s).Ok? && Printed(Parsed(s).value, "") == s
  {
    if s != "" {
      var tail := s[2..];
      assert forall i :: 0 <= i < |tail| ==> tail[i] == s[i + 2];
      PrintUndoesParse(tail);
      PrintByteFrom(s[0], s[1]);
      PairOf(s[0], s[1]);
      PrintCons(ByteFrom(s[0], s[1]), Parsed(tail).value);
      assert s == [s[0], s[1]] + tail;
    }
  }
}

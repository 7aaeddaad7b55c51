/**
 * `calculateTotalDurationString` of JUnitFormatter.kt on integer
 * milliseconds: the duration in seconds as `NumberFormat.getNumberInstance(Locale.US)`
 * writes it, that is with ',' grouping every three integer digits, '.' as the
 * decimal point and at most three fraction digits, trailing zeros dropped.
 */
module DurationFormat {
  import opened Wrappers
  import opened Text
  import opened Decimal

  /** `n` as exactly three digits, with leading zeros. */
  function Pad3(n: nat): (s: string)
    requires n < 1000
    ensures |s| == 3 && AllDigits(s)
  {
    [DigitChar(n / 100), DigitChar(n / 10 % 10), DigitChar(n % 10)]
  }

  /** Three digits denote hundreds, tens and units. */
  lemma ParseThree(s: string)
    requires |s| == 3 && AllDigits(s)
    ensures ParseNat(s) == DigitValue(s[0]) * 100 + DigitValue(s[1]) * 10 + DigitValue(s[2])
  {
    assert s[..2][..1] == s[..1] && s[..1][..0] == [] && s[..2] == s[..|s| - 1];
    assert ParseNat(s[..1]) == DigitValue(s[0]);
    assert ParseNat(s[..2]) == ParseNat(s[..1]) * 10 + DigitValue(s[1]);
    assert ParseNat(s) == ParseNat(s[..2]) * 10 + DigitValue(s[2]);
  }

  lemma ThreeDigits(n: nat)
    requires n < 1000
    ensures n == n / 100 * 100 + n / 10 % 10 * 10 + n % 10
  {
    assert n / 10 == n / 100 * 10 + n / 10 % 10;
  }

  lemma Pad3Denotes(n: nat)
    requires n < 1000
    ensures ParseNat(Pad3(n)) == n
  {
    var s := Pad3(n);
    var a, b, c := n / 100, n / 10 % 10, n % 10;
    ParseThree(s);
    DigitValueOfChar(a);
    DigitValueOfChar(b);
    DigitValueOfChar(c);
    assert s[0] == DigitChar(a) && s[1] == DigitChar(b) && s[2] == DigitChar(c);
    ThreeDigits(n);
  }

  /** The integer part with a ',' before every group of three digits. */
  function Grouped(n: nat): string
    decreases n
  {
    if n < 1000 then NatToString(n) else Grouped(n / 1000) + "," + Pad3(n % 1000)
  }

  function TrimZeros(s: string): string
    decreases |s|
  {
    if s != [] && s[|s| - 1] == '0' then TrimZeros(s[..|s| - 1]) else s
  }

  /** The fraction digits of `f` milliseconds: up to three, trailing zeros dropped. */
  function FractionDigits(f: nat): string
    requires f < 1000
  {
    if f == 0 then "" else TrimZeros(Pad3(f))
  }

  /** The decimal point and the fraction digits, or nothing when there are none. */
  function Dotted(d: string): string {
    if d == [] then "" else "." + d
  }

  /** The `time` attribute text for a duration of `ms` milliseconds. */
  function FormatSeconds(ms: int): string {
    var m := if ms < 0 then -ms else ms;
    (if ms < 0 then "-" else "") + Grouped(m / 1000) + Dotted(FractionDigits(m % 1000))
  }

  // ---------------------------------------------------------------------------
  // Reading a time back, to show that the text determines the duration
  // ---------------------------------------------------------------------------

  function Ungroup(s: string): string {
    if s == [] then [] else (if s[0] == ',' then "" else [s[0]]) + Ungroup(s[1..])
  }

  function IndexOfDot(s: string): (k: nat)
    ensures k <= |s|
    ensures forall i :: 0 <= i < k ==> s[i] != '.'
    ensures k < |s| ==> s[k] == '.'
  {
    if s == [] then 0 else if s[0] == '.' then 0 else 1 + IndexOfDot(s[1..])
  }

  /** The milliseconds a `time` text denotes, if it is one. */
  function ParseSeconds(s: string): Option<int> {
    if |s| > 0 && s[0] == '-' then
      match ParseUnsigned(s[1..])
      case Some(m) => Some(0 - m as int)
      case None => None
    else match ParseUnsigned(s)
      case Some(m) => Some(m)
      case None => None
  }

  /** An unsigned time: the integer part up to the first '.', the fraction after it. */
  function ParseUnsigned(body: string): Option<nat> {
    var k := IndexOfDot(body);
    ParseParts(body[..k], if k < |body| then body[k + 1..] else "")
  }

  /** Digits with optional commas, and at most three fraction digits, as milliseconds. */
  function ParseParts(intPart: string, frac: string): Option<nat> {
    var whole := Ungroup(intPart);
    if AllDigits(whole) && AllDigits(frac) && |frac| <= 3 then
      Some(ParseNat(whole) * 1000 + ParseNat(frac + Repeat('0', 3 - |frac|)))
    else None
  }

  lemma {:induction false} UngroupAppend(a: string, b: string)
    ensures Ungroup(a + b) == Ungroup(a) + Ungroup(b)
    decreases |a|
  {
    if a != [] {
      assert (a + b)[0] == a[0] && (a + b)[1..] == a[1..] + b;
      UngroupAppend(a[1..], b);
    } else {
      assert a + b == b;
    }
  }

  lemma {:induction false} UngroupDigits(s: string)
    requires AllDigits(s)
    ensures Ungroup(s) == s
    decreases |s|
  {
    if s != [] {
      UngroupDigits(s[1..]);
    }
  }

  /** The grouped integer part is digits and commas, starting with a digit. */
  lemma {:induction false} GroupedChars(n: nat)
    ensures forall i :: 0 <= i < |Grouped(n)| ==> IsDigit(Grouped(n)[i]) || Grouped(n)[i] == ','
    ensures |Grouped(n)| > 0 && IsDigit(Grouped(n)[0])
    decreases n
  {
    if n >= 1000 {
      var hi, lo := Grouped(n / 1000), Pad3(n % 1000);
      GroupedChars(n / 1000);
      assert Grouped(n) == hi + "," + lo;
    }
  }

  /** Without its commas, the grouped integer part denotes `n`. */
  lemma {:induction false} GroupedDenotes(n: nat)
    ensures AllDigits(Ungroup(Grouped(n))) && ParseNat(Ungroup(Grouped(n))) == n
    decreases n
  {
    if n < 1000 {
      UngroupDigits(NatToString(n));
      ParseNatToString(n);
    } else {
      var hi, lo := Grouped(n / 1000), Pad3(n % 1000);
      GroupedDenotes(n / 1000);
      UngroupAppend(hi + ",", lo);
      UngroupAppend(hi, ",");
      UngroupDigits(lo);
      Pad3Denotes(n % 1000);
      assert Ungroup(",") == "";
      assert Ungroup(Grouped(n)) == Ungroup(hi) + lo;
      ParseNatAppend3(Ungroup(hi), lo);
    }
  }

  lemma {:induction false} TrimZerosRestores(s: string)
    ensures |TrimZeros(s)| <= |s|
    ensures TrimZeros(s) + Repeat('0', |s| - |TrimZeros(s)|) == s
    decreases |s|
  {
    if s != [] && s[|s| - 1] == '0' {
      var t := s[..|s| - 1];
      TrimZerosRestores(t);
      assert Repeat('0', |s| - |TrimZeros(t)|) == Repeat('0', |t| - |TrimZeros(t)|) + "0";
      assert s == t + "0";
    } else {
      assert Repeat('0', 0) == "";
    }
  }

  /** The fraction digits, padded back to three, denote `f` milliseconds. */
  lemma FractionDenotes(f: nat)
    requires f < 1000
    ensures var d := FractionDigits(f);
      && |d| <= 3 && AllDigits(d)
      && ParseNat(d + Repeat('0', 3 - |d|)) == f
  {
    if f == 0 {
      assert "" + Repeat('0', 3) == Pad3(0);
      Pad3Denotes(0);
    } else {
      var p := Pad3(f);
      Pad3Denotes(f);
      TrimZerosRestores(p);
      assert forall i :: 0 <= i < |TrimZeros(p)| ==> TrimZeros(p)[i] == p[i];
    }
  }

  lemma ParseUnsignedSplit(body: string, g: string, frac: string)
    requires IndexOfDot(body) == |g| && body[..|g|] == g
    requires (if |g| < |body| then body[|g| + 1..] else "") == frac
    ensures ParseUnsigned(body) == ParseParts(g, frac)
  {
  }

  /** A text of digits and commas followed by a dotted fraction is read at its '.'. */
  lemma SplitAtDot(g: string, d: string)
    requires forall i :: 0 <= i < |g| ==> IsDigit(g[i]) || g[i] == ','
    ensures ParseUnsigned(g + Dotted(d)) == ParseParts(g, d)
  {
    var body := g + Dotted(d);
    assert forall i :: 0 <= i < |g| ==> body[i] == g[i];
    if d != [] {
      assert body[|g|] == '.';
      assert body[|g| + 1..] == d;
    }
    IndexOfDotPrefix(body, |g|);
    assert body[..|g|] == g;
    ParseUnsignedSplit(body, g, d);
  }

  lemma ParsePartsValue(g: string, d: string, whole: nat, part: nat, m: nat)
    requires AllDigits(Ungroup(g)) && ParseNat(Ungroup(g)) == whole
    requires |d| <= 3 && AllDigits(d) && ParseNat(d + Repeat('0', 3 - |d|)) == part
    requires m == whole * 1000 + part
    ensures ParseParts(g, d) == Some(m)
  {
  }

  /** Digits and commas denoting `whole`, then fraction digits denoting `part`, read back. */
  lemma ParseUnsignedParts(g: string, d: string, whole: nat, part: nat, m: nat)
    requires forall i :: 0 <= i < |g| ==> IsDigit(g[i]) || g[i] == ','
    requires AllDigits(Ungroup(g)) && ParseNat(Ungroup(g)) == whole
    requires |d| <= 3 && AllDigits(d) && ParseNat(d + Repeat('0', 3 - |d|)) == part
    requires m == whole * 1000 + part
    ensures ParseUnsigned(g + Dotted(d)) == Some(m)
  {
    SplitAtDot(g, d);
    ParsePartsValue(g, d, whole, part, m);
  }

  /** The grouped whole seconds `w` and the fraction digits of `p` milliseconds denote `m`. */
  lemma UnsignedTextDenotes(w: nat, p: nat, m: nat)
    requires p < 1000 && m == w * 1000 + p
    ensures ParseUnsigned(Grouped(w) + Dotted(FractionDigits(p))) == Some(m)
  {
    GroupedChars(w);
    GroupedDenotes(w);
    FractionDenotes(p);
    ParseUnsignedParts(Grouped(w), FractionDigits(p), w, p, m);
  }

  /** The text after the sign denotes `m`. */
  lemma ParseUnsignedBody(m: nat)
    ensures ParseUnsigned(Grouped(m / 1000) + Dotted(FractionDigits(m % 1000))) == Some(m)
  {
    UnsignedTextDenotes(m / 1000, m % 1000, m);
  }

  /** The text after the sign is the unsigned text of `m`, which does not start with '-'. */
  lemma FormatSecondsSplit(ms: int, m: nat)
    requires m == if ms < 0 then -ms else ms
    ensures var body := Grouped(m / 1000) + Dotted(FractionDigits(m % 1000));
      && FormatSeconds(ms) == (if ms < 0 then "-" else "") + body
      && body != [] && body[0] != '-'
  {
    var g := Grouped(m / 1000);
    GroupedChars(m / 1000);
    assert (g + Dotted(FractionDigits(m % 1000)))[0] == g[0];
  }

  /** A sign in front of an unsigned text of `m` negates what it denotes. */
  lemma ParseSigned(ms: int, m: nat, body: string)
    requires m == (if ms < 0 then -ms else ms)
    requires ParseUnsigned(body) == Some(m)
    requires body != [] && body[0] != '-'
    ensures ParseSeconds((if ms < 0 then "-" else "") + body) == Some(ms)
  {
    if ms < 0 {
      assert ("-" + body)[1..] == body;
    } else {
      assert "" + body == body;
    }
  }

  /** The formatted time determines the duration: reading it back gives `ms`. */
  lemma FormatSecondsRoundTrip(ms: int)
    ensures ParseSeconds(FormatSeconds(ms)) == Some(ms)
  {
    var m := if ms < 0 then -ms else ms;
    FormatSecondsSplit(ms, m);
    ParseUnsignedBody(m);
    ParseSigned(ms, m, Grouped(m / 1000) + Dotted(FractionDigits(m % 1000)));
  }

  lemma {:induction false} IndexOfDotPrefix(s: string, k: nat)
    requires k <= |s|
    requires forall i :: 0 <= i < k ==> s[i] != '.'
    requires k < |s| ==> s[k] == '.'
    ensures IndexOfDot(s) == k
    decreases k
  {
    if k > 0 {
      assert s[0] != '.';
      IndexOfDotPrefix(s[1..], k - 1);
    }
  }

  /** Whole seconds have no decimal point. */
  lemma FormatWholeSeconds()
    ensures FormatSeconds(0) == "0"
    ensures FormatSeconds(3000) == "3"
  {
  }

  /** Trailing zeros of the fraction are dropped. */
  lemma FormatSecondsFraction()
    ensures FormatSeconds(1500) == "1.5"
  {
    assert Pad3(500) == "500" && TrimZeros("500") == "5";
    assert FormatSeconds(1500) == Grouped(1) + Dotted(FractionDigits(500));
  }

  /** A negative duration keeps its sign. */
  lemma FormatSecondsNegative()
    ensures FormatSeconds(-250) == "-0.25"
  {
    assert Pad3(250) == "250" && TrimZeros("250") == "25";
    assert FormatSeconds(-250) == "-" + Grouped(0) + Dotted(FractionDigits(250));
  }

  /** Thousands of seconds are grouped with ','. */
  lemma FormatSecondsGrouping()
    ensures FormatSeconds(1234567) == "1,234.567"
  {
    assert Grouped(1234) == "1,234";
  }
}

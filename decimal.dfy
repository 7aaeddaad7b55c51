/**
 * Decimal text of non-negative integers, as Kotlin's string templates and
 * `String.valueOf` write an `Int`, and the matching reader.
 */
module Decimal {

  predicate IsDigit(c: char) {
    '0' <= c <= '9'
  }

  predicate AllDigits(s: string) {
    forall i :: 0 <= i < |s| ==> IsDigit(s[i])
  }

  function DigitChar(d: nat): (c: char)
    requires d < 10
    ensures IsDigit(c)
  {
    ('0' as int + d) as char
  }

  function DigitValue(c: char): (d: nat)
    requires IsDigit(c)
    ensures d < 10
  {
    (c as int - '0' as int) as nat
  }

  lemma DigitValueOfChar(d: nat)
    requires d < 10
    ensures DigitValue(DigitChar(d)) == d
  {
  }

  /** Shortest decimal text of `n`: no sign, no leading zeros, "0" for zero. */
  function NatToString(n: nat): (s: string)
    ensures |s| > 0 && AllDigits(s)
    ensures |s| > 1 ==> s[0] != '0'
    decreases n
  {
    if n < 10 then [DigitChar(n)] else NatToString(n / 10) + [DigitChar(n % 10)]
  }

  /** The number a string of digits denotes; the empty string denotes 0. */
  function ParseNat(s: string): nat
    requires AllDigits(s)
    decreases |s|
  {
    if s == [] then 0 else ParseNat(s[..|s| - 1]) * 10 + DigitValue(s[|s| - 1])
  }

  /** Reading back the decimal text of `n` gives `n`. */
  lemma {:induction false} ParseNatToString(n: nat)
    ensures ParseNat(NatToString(n)) == n
    decreases n
  {
    var s := NatToString(n);
    if n < 10 {
      DigitValueOfChar(n);
    } else {
      ParseNatToString(n / 10);
      assert s[..|s| - 1] == NatToString(n / 10);
      DigitValueOfChar(n % 10);
    }
  }

  /** Distinct numbers have distinct decimal texts. */
  lemma NatToStringInjective(a: nat, b: nat)
    ensures NatToString(a) == NatToString(b) ==> a == b
  {
    ParseNatToString(a);
    ParseNatToString(b);
  }

  /** Value of a digit string followed by three more digits. */
  lemma ParseNatAppend3(a: string, b: string)
    requires AllDigits(a) && AllDigits(b) && |b| == 3
    ensures ParseNat(a + b) == ParseNat(a) * 1000 + ParseNat(b)
  {
    var x, d0, d1, d2 := ParseNat(a), DigitValue(b[0]), DigitValue(b[1]), DigitValue(b[2]);
    var a1, a2 := a + b[..1], a + b[..2];
    assert a1[..|a1| - 1] == a && a1[|a1| - 1] == b[0];
    assert a2[..|a2| - 1] == a1 && a2[|a2| - 1] == b[1];
    assert (a + b)[..|a + b| - 1] == a2 && (a + b)[|a + b| - 1] == b[2];
    assert ParseNat(a1) == x * 10 + d0;
    assert ParseNat(a2) == (x * 10 + d0) * 10 + d1;
    assert ParseNat(a + b) == ((x * 10 + d0) * 10 + d1) * 10 + d2;
    assert b[..2][..1] == b[..1] && b[..1][..0] == [] && b[..2] == b[..|b| - 1];
    assert ParseNat(b[..1]) == d0;
    assert ParseNat(b[..2]) == d0 * 10 + d1;
    assert ParseNat(b) == (d0 * 10 + d1) * 10 + d2;
  }
}

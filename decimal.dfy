/** Decimal rendering of integers, as Java's `Long.toString` produces it. */
module Decimal {

  function DigitChar(d: nat): (c: char)
    requires d < 10
    ensures '0' <= c <= '9'
  {
    (48 + d) as char
  }

  function DigitValue(c: char): (d: nat)
    requires '0' <= c <= '9'
    ensures d < 10
  {
    c as int - 48
  }

  predicate IsDigits(s: string) {
    forall i :: 0 <= i < |s| ==> '0' <= s[i] <= '9'
  }

  /** The decimal numeral of `n`, most significant digit first. */
  function NatToString(n: nat): string
    decreases n
  {
    if n < 10 then [DigitChar(n)] else NatToString(n / 10) + [DigitChar(n % 10)]
  }

  /** The numeral is non-empty, all digits, and has no leading zero unless `n` is 0. */
  lemma {:induction false} NatToStringIsNumeral(n: nat)
    ensures var s := NatToString(n);
      |s| >= 1 && IsDigits(s) && (s[0] == '0' <==> n == 0)
    decreases n
  {
    if n >= 10 {
      NatToStringIsNumeral(n / 10);
    }
  }

  /** The value of a decimal numeral, read most significant digit first. */
  function ParseDecimal(s: string): nat
    requires IsDigits(s)
  {
    if s == [] then 0 else ParseDecimal(s[..|s| - 1]) * 10 + DigitValue(s[|s| - 1])
  }

  /** Reading a rendered numeral back gives the number it was rendered from. */
  lemma {:induction false} ParseNatToString(n: nat)
    ensures IsDigits(NatToString(n)) && ParseDecimal(NatToString(n)) == n
    decreases n
  {
    var s := NatToString(n);
    NatToStringIsNumeral(n);
    if n >= 10 {
      NatToStringIsNumeral(n / 10);
      ParseNatToString(n / 10);
      assert s[..|s| - 1] == NatToString(n / 10);
    }
  }

  /** Java's `Long.toString`: a minus sign for negative values, then the magnitude's numeral. */
  function LongToString(x: int): string
  {
    if x < 0 then "-" + NatToString(-x) else NatToString(x)
  }

  /** A rendered `long` starts with '-' exactly when it is negative, and reads back as its value. */
  lemma {:induction false} LongToStringRoundTrip(x: int)
    ensures var s := LongToString(x);
      && |s| >= 1
      && (s[0] == '-' <==> x < 0)
      && (x < 0 ==> IsDigits(s[1..]) && ParseDecimal(s[1..]) == -x)
      && (x >= 0 ==> IsDigits(s) && ParseDecimal(s) == x)
  {
    if x < 0 {
      NegativeNumeral(-x);
    } else {
      NatToStringIsNumeral(x);
      ParseNatToString(x);
    }
  }

  lemma {:induction false} NegativeNumeral(n: nat)
    requires n > 0
    ensures var s := "-" + NatToString(n);
      && s[0] == '-' && IsDigits(s[1..]) && ParseDecimal(s[1..]) == n
  {
    var d := NatToString(n);
    ParseNatToString(n);
    assert ("-" + d)[1..] == d;
  }
}

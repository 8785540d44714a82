/**
 * Decimal text of an integer, as Python's `str(int)` writes it ("-5", "0", "120"), and the
 * "% Change" cell: that text followed by '%'. The reading direction is the partner that
 * shows the text keeps the number.
 */
module Decimal {
  import opened Common

  predicate IsDigit(c: char)
  {
    '0' <= c <= '9'
  }

  function DigitChar(d: nat): (c: char)
    requires d < 10
    ensures IsDigit(c) && c as int - '0' as int == d
  {
    ('0' as int + d) as char
  }

  /** The digits of n, most significant first, without leading zeros. */
  function NatText(n: nat): (s: string)
    ensures |s| >= 1 && forall i :: 0 <= i < |s| ==> IsDigit(s[i])
    ensures |s| > 1 ==> s[0] != '0'
  {
    if n < 10 then [DigitChar(n)] else NatText(n / 10) + [DigitChar(n % 10)]
  }

  /** Python's str(n) for an int. */
  function IntText(n: int): string
  {
    if n < 0 then "-" + NatText(-n) else NatText(n)
  }

  /** The "% Change" cell: the integer's text followed by a percent sign. */
  function PercentText(n: int): string
  {
    IntText(n) + "%"
  }

  /** The value of a string of decimal digits. */
  function DigitsValue(s: string): nat
    requires forall i :: 0 <= i < |s| ==> IsDigit(s[i])
  {
    if s == [] then 0
    else
      assert IsDigit(s[|s| - 1]);
      10 * DigitsValue(s[..|s| - 1]) + (s[|s| - 1] as int - '0' as int)
  }

  /** Reads a decimal integer with an optional leading minus sign. */
  function ParseInt(s: string): Option<int>
  {
    if |s| > 0 && s[0] == '-' then
      var t := s[1..];
      if |t| > 0 && forall i :: 0 <= i < |t| ==> IsDigit(t[i]) then Some(0 - DigitsValue(t) as int) else None
    else if |s| > 0 && forall i :: 0 <= i < |s| ==> IsDigit(s[i]) then Some(DigitsValue(s))
    else None
  }

  /** Reads a "% Change" cell back to its integer. */
  function ParsePercent(s: string): Option<int>
  {
    if |s| > 0 && s[|s| - 1] == '%' then ParseInt(s[..|s| - 1]) else None
  }

  lemma {:induction false} NatTextValue(n: nat)
    ensures DigitsValue(NatText(n)) == n
  {
    if n >= 10 {
      var s := NatText(n);
      var prefix := NatText(n / 10);
      assert s[..|s| - 1] == prefix;
      NatTextValue(n / 10);
    }
  }

  /** The text of an integer reads back as that integer. */
  lemma IntTextRoundTrip(n: int)
    ensures ParseInt(IntText(n)) == Some(n)
  {
    if n < 0 {
      assert IntText(n)[1..] == NatText(-n);
      NatTextValue(-n);
    } else {
      NatTextValue(n);
    }
  }

  /** A "% Change" cell ends in '%' and reads back as the integer it was made from. */
  lemma PercentTextRoundTrip(n: int)
    ensures |PercentText(n)| >= 2 && PercentText(n)[|PercentText(n)| - 1] == '%'
    ensures ParsePercent(PercentText(n)) == Some(n)
  {
    var s := PercentText(n);
    assert s[..|s| - 1] == IntText(n);
    IntTextRoundTrip(n);
  }
}

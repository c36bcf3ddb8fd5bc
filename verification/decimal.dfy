/**
  Decimal rendering of a 64-bit signed integer as `long.ToString` does it
  under the invariant culture: ASCII digits without grouping or leading
  zeros, preceded by `-` when the value is negative. `Parse` is the partner
  definition that reads such a rendering back.
 */
module Decimal {
  import opened Wrappers

  /** The range of a C# `long`. */
  type Int64 = x: int | -0x8000_0000_0000_0000 <= x < 0x8000_0000_0000_0000

  predicate IsDigit(c: char)
  {
    '0' <= c <= '9'
  }

  function DigitChar(d: nat): (c: char)
    requires d < 10
    ensures IsDigit(c)
  {
    ('0' as int + d) as char
  }

  function DigitValue(c: char): (d: nat)
    requires IsDigit(c)
    ensures d < 10 && DigitChar(d) == c
  {
    c as int - '0' as int
  }

  /** The digits of a natural number, most significant first. */
  function Digits(n: nat): (s: string)
    ensures |s| >= 1
    ensures forall k | 0 <= k < |s| :: IsDigit(s[k])
    ensures s[0] == '0' ==> n == 0 && s == "0"
    decreases n
  {
    if n < 10 then [DigitChar(n)] else Digits(n / 10) + [DigitChar(n % 10)]
  }

  /** Invariant-culture rendering: optional `-`, then the digits of the magnitude. */
  function Format(n: Int64): (s: string)
    ensures |s| >= 1
    ensures s[0] == '-' <==> n < 0
    ensures forall k | (if n < 0 then 1 else 0) <= k < |s| :: IsDigit(s[k])
    ensures |s| > (if n < 0 then 1 else 0)
    ensures s[if n < 0 then 1 else 0] == '0' ==> s == "0"
  {
    if n < 0 then "-" + Digits(-(n as int)) else Digits(n)
  }

  /** The value of a string of digits. */
  function DigitsValue(s: string): nat
    requires forall k | 0 <= k < |s| :: IsDigit(s[k])
    decreases |s|
  {
    if |s| == 0 then 0 else DigitsValue(s[..|s| - 1]) * 10 + DigitValue(s[|s| - 1])
  }

  predicate AllDigits(s: string)
  {
    forall k | 0 <= k < |s| :: IsDigit(s[k])
  }

  /** Reads back a decimal rendering: an optional `-` followed by at least one digit. */
  function Parse(s: string): Option<int>
  {
    if |s| > 0 && s[0] == '-' then
      if |s| > 1 && AllDigits(s[1..]) then Some(0 - DigitsValue(s[1..])) else None
    else if |s| > 0 && AllDigits(s) then Some(DigitsValue(s))
    else None
  }

  lemma {:induction false} DigitsValueOfDigits(n: nat)
    ensures DigitsValue(Digits(n)) == n
    decreases n
  {
    if n >= 10 {
      var s := Digits(n);
      DigitsValueOfDigits(n / 10);
      assert s[..|s| - 1] == Digits(n / 10);
    }
  }

  /** Parsing a rendering gives back the rendered value. */
  lemma FormatParse(n: Int64)
    ensures Parse(Format(n)) == Some(n as int)
  {
    if n < 0 {
      assert Format(n)[1..] == Digits(-(n as int));
      DigitsValueOfDigits(-(n as int));
    } else {
      DigitsValueOfDigits(n);
    }
  }

  /** Different values have different renderings. */
  lemma FormatInjective(m: Int64, n: Int64)
    requires Format(m) == Format(n)
    ensures m == n
  {
    FormatParse(m);
    FormatParse(n);
  }
}

/**
 * Integer-to-text conversion as done by a template literal `${n}` on an
 * integer-valued number, with a parser that inverts it.
 */
module Decimal {
  import opened Wrappers
  import opened Chars

  function DigitChar(d: int): (c: char)
    requires 0 <= d < 10
    ensures IsDigit(c)
  {
    ('0' as int + d) as char
  }

  function DigitValue(c: char): (d: int)
    requires IsDigit(c)
    ensures 0 <= d < 10
  {
    c as int - '0' as int
  }

  /** Decimal digits of `n`, most significant first. */
  function NatDigits(n: nat): string
    decreases n
  {
    if n < 10 then [DigitChar(n)] else NatDigits(n / 10) + [DigitChar(n % 10)]
  }

  /** `${n}`: a `-` for a negative number, then the digits of its magnitude. */
  function DecimalString(n: int): string {
    if n < 0 then "-" + NatDigits(-n) else NatDigits(n)
  }

  predicate AllDigits(s: string) { forall k :: 0 <= k < |s| ==> IsDigit(s[k]) }

  /** The number a digit string denotes. */
  function DigitsValue(s: string): nat
    requires AllDigits(s)
    decreases |s|
  {
    if s == [] then 0 else DigitsValue(s[..|s| - 1]) * 10 + DigitValue(s[|s| - 1])
  }

  /** Reads back an optional `-` followed by one or more digits. */
  function ParseDecimal(s: string): Option<int> {
    if s != [] && s[0] == '-' then
      (if |s| > 1 && AllDigits(s[1..]) then Some(0 - DigitsValue(s[1..]) as int) else None)
    else if s != [] && AllDigits(s) then Some(DigitsValue(s))
    else None
  }

  /** The digits are canonical: non-empty, all decimal digits, no leading zero, denoting `n`. */
  lemma {:induction false} NatDigitsFacts(n: nat)
    ensures |NatDigits(n)| >= 1
    ensures AllDigits(NatDigits(n))
    ensures DigitsValue(NatDigits(n)) == n
    ensures NatDigits(n)[0] == '0' ==> n == 0
    decreases n
  {
    if n >= 10 {
      NatDigitsFacts(n / 10);
      var s := NatDigits(n);
      assert s[..|s| - 1] == NatDigits(n / 10);
    }
  }

  /** Parsing the rendered number gives the number back. */
  lemma DecimalRoundTrip(n: int)
    ensures ParseDecimal(DecimalString(n)) == Some(n)
  {
    if n < 0 {
      NatDigitsFacts(-n);
      assert DecimalString(n)[1..] == NatDigits(-n);
    } else {
      NatDigitsFacts(n);
    }
  }

  /** The rendering starts with a digit or `-`, and distinct numbers render differently. */
  lemma DecimalStringFacts(n: int, m: int)
    ensures |DecimalString(n)| >= 1
    ensures IsDigit(DecimalString(n)[0]) || DecimalString(n)[0] == '-'
    ensures DecimalString(n) == DecimalString(m) ==> n == m
  {
    NatDigitsFacts(if n < 0 then -n else n);
    DecimalRoundTrip(n);
    DecimalRoundTrip(m);
  }
}

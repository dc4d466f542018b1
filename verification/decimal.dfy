/** Decimal digits: the integer suffix of a column name (`int(x[5:])`) and the
    rendering of integers inside the prompt's f-strings (`str(n)`). */
module Decimal {
  import opened Chars
  import opened Wrappers

  predicate AllDigits(s: string) {
    forall k :: 0 <= k < |s| ==> IsDigit(s[k])
  }

  function DigitValue(c: char): (d: nat)
    requires IsDigit(c)
    ensures d < 10
  {
    c as int - '0' as int
  }

  function DigitChar(d: nat): (c: char)
    requires d < 10
    ensures IsDigit(c) && DigitValue(c) == d
  {
    ('0' as int + d) as char
  }

  /** The value of a run of ASCII digits, most significant first; leading zeros are allowed. */
  function ParseDigits(s: string): (n: nat)
    requires AllDigits(s)
    decreases |s|
  {
    if |s| == 0 then 0
    else ParseDigits(s[..|s| - 1]) * 10 + DigitValue(s[|s| - 1])
  }

  /** `str(n)` for a natural number: the canonical decimal numeral, which
      reads back as `n`. */
  function NatToString(n: nat): (s: string)
    ensures |s| > 0 && AllDigits(s)
    ensures ParseDigits(s) == n
    ensures s[0] == '0' ==> s == "0"
    decreases n
  {
    if n < 10 then [DigitChar(n)]
    else
      var front := NatToString(n / 10);
      var s := front + [DigitChar(n % 10)];
      assert s[..|s| - 1] == front;
      s
  }

  /** `str(n)` for any integer: a minus sign before the magnitude when
      negative. */
  function IntToString(n: int): (s: string)
    ensures ParseInt(s) == Some(n)
  {
    if n < 0 then
      var mag := NatToString(-n);
      assert ("-" + mag)[1..] == mag;
      "-" + mag
    else NatToString(n)
  }

  /** The rendering is canonical: a minus sign exactly for a negative
      number, and no leading zero in the digits ("0" itself excepted). */
  lemma IntToStringCanonical(n: int)
    ensures var s := IntToString(n);
            && |s| > 0 && (s[0] == '-' <==> n < 0)
            && var d := if n < 0 then s[1..] else s;
               |d| > 0 && AllDigits(d) && (d[0] == '0' ==> d == "0")
  {
  }

  /** Reads an optionally signed run of digits; anything else is `None`. */
  function ParseInt(s: string): Option<int> {
    if |s| > 1 && s[0] == '-' && AllDigits(s[1..]) then Some(0 - ParseDigits(s[1..]) as int)
    else if |s| > 0 && AllDigits(s) then Some(ParseDigits(s))
    else None
  }

  /** Distinct integers are rendered as distinct strings, so the numbers in
      the prompt identify the values they came from. */
  lemma IntToStringInjective(a: int, b: int)
    requires IntToString(a) == IntToString(b)
    ensures a == b
  {
    assert ParseInt(IntToString(a)) == Some(a);
  }
}

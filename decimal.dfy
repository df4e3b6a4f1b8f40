/**
 * PHP's conversion of an integer to a string, as the `.` operator performs it
 * when it joins the webhook timestamp to the token: an optional minus sign
 * followed by the decimal digits of the magnitude, with no leading zeros.
 * `ParseInt` reads such a string back; the round trip shows that the string
 * form of a timestamp determines the timestamp.
 */
module Decimal {
  import opened Wrappers

  predicate IsDigit(c: char) {
    '0' <= c <= '9'
  }

  predicate IsDigits(s: string) {
    forall i :: 0 <= i < |s| ==> IsDigit(s[i])
  }

  /** A non-empty digit string with no leading zero (so "0" is the only one starting with '0'). */
  predicate IsCanonicalNat(s: string) {
    |s| > 0 && IsDigits(s) && (s[0] == '0' ==> |s| == 1)
  }

  /** The shape of every string PHP produces from an integer: no "-0", no "+", no leading zeros. */
  predicate IsCanonicalInt(s: string) {
    IsCanonicalNat(s) || (|s| > 1 && s[0] == '-' && IsCanonicalNat(s[1..]) && s[1] != '0')
  }

  function DigitChar(d: nat): (c: char)
    requires d < 10
    ensures IsDigit(c)
  {
    ('0' as int + d) as char
  }

  function DigitValue(c: char): nat
    requires IsDigit(c)
  {
    c as int - '0' as int
  }

  /** The decimal digits of `n`, most significant first. */
  function NatToDigits(n: nat): (s: string)
    ensures |s| > 0 && IsDigits(s)
    ensures s[0] == '0' <==> n == 0
    ensures n == 0 ==> s == "0"
    decreases n
  {
    if n < 10 then [DigitChar(n)] else NatToDigits(n / 10) + [DigitChar(n % 10)]
  }

  /** The string PHP makes of the integer `i`. */
  function IntToString(i: int): (s: string)
    ensures IsCanonicalInt(s)
    ensures s[0] == '-' <==> i < 0
  {
    if i < 0 then "-" + NatToDigits(-i) else NatToDigits(i)
  }

  /** The value of a digit string, most significant digit first. */
  function DigitsToNat(s: string): nat
    requires IsDigits(s)
  {
    if |s| == 0 then 0 else 10 * DigitsToNat(s[..|s| - 1]) + DigitValue(s[|s| - 1])
  }

  /** Reads an optionally signed decimal integer; anything else is `None`. */
  function ParseInt(s: string): Option<int> {
    if |s| > 1 && s[0] == '-' && IsDigits(s[1..]) then Some(-(DigitsToNat(s[1..]) as int))
    else if |s| > 0 && IsDigits(s) then Some(DigitsToNat(s))
    else None
  }

  lemma {:induction false} DigitsRoundTrip(n: nat)
    ensures DigitsToNat(NatToDigits(n)) == n
    decreases n
  {
    if n >= 10 {
      var s := NatToDigits(n / 10) + [DigitChar(n % 10)];
      assert s[..|s| - 1] == NatToDigits(n / 10);
      DigitsRoundTrip(n / 10);
    }
  }

  /** Reading back the string form of an integer gives that integer. */
  lemma IntRoundTrip(i: int)
    ensures ParseInt(IntToString(i)) == Some(i)
  {
    if i < 0 {
      var s := IntToString(i);
      assert s[1..] == NatToDigits(-i);
      DigitsRoundTrip(-i);
    } else {
      DigitsRoundTrip(i);
    }
  }

  /** Different integers have different string forms. */
  lemma IntToStringInjective(i: int, j: int)
    ensures IntToString(i) == IntToString(j) ==> i == j
  {
    IntRoundTrip(i);
    IntRoundTrip(j);
  }

  /** Appending at least one digit to a digit string multiplies its value by ten or more. */
  lemma {:induction false} AppendDigitsGrows(s: string, r: string)
    requires IsDigits(s + r)
    ensures IsDigits(s) && IsDigits(r)
    ensures DigitsToNat(s + r) >= DigitsToNat(s)
    ensures |r| > 0 ==> DigitsToNat(s + r) >= 10 * DigitsToNat(s)
    decreases |r|
  {
    assert forall i :: 0 <= i < |s| ==> (s + r)[i] == s[i];
    assert forall i :: 0 <= i < |r| ==> (s + r)[|s| + i] == r[i];
    if |r| == 0 {
      assert s + r == s;
    } else {
      var r' := r[..|r| - 1];
      assert (s + r)[..|s + r| - 1] == s + r';
      AppendDigitsGrows(s, r');
    }
  }
}

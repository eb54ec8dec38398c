/**
  Decimal rendering of an integer, as JavaScript's template literal
  `${n}` produces it for an integral number below 10^21 in magnitude: an
  optional '-' and the digits without leading zeros.
 */
module Decimal {

  predicate IsDigit(c: char) {
    '0' <= c <= '9'
  }

  function DigitChar(d: int): (c: char)
    requires 0 <= d < 10
    ensures IsDigit(c)
  {
    "0123456789"[d]
  }

  function DigitValue(c: char): (d: int)
    requires IsDigit(c)
    ensures 0 <= d < 10
  {
    c as int - '0' as int
  }

  lemma DigitRoundTrip(d: int)
    requires 0 <= d < 10
    ensures DigitValue(DigitChar(d)) == d
  {
  }

  /** The value of a string of digits read in base ten. */
  function ValueOf(s: string): (v: nat)
    requires forall k :: 0 <= k < |s| ==> IsDigit(s[k])
  {
    if |s| == 0 then 0 else 10 * ValueOf(s[..|s| - 1]) + DigitValue(s[|s| - 1])
  }

  /** The digits of n, most significant first. */
  function NatToString(n: nat): (s: string)
    ensures |s| > 0
    ensures forall k :: 0 <= k < |s| ==> IsDigit(s[k])
    ensures |s| > 1 ==> s[0] != '0'
    decreases n
  {
    if n < 10 then [DigitChar(n)] else NatToString(n / 10) + [DigitChar(n % 10)]
  }

  function IntToString(n: int): (s: string)
    ensures |s| > 0
  {
    if n < 0 then "-" + NatToString(-n) else NatToString(n)
  }

  /** Reading the digits back gives the number: the rendering loses nothing. */
  lemma {:induction false} NatToStringRoundTrip(n: nat)
    ensures ValueOf(NatToString(n)) == n
    decreases n
  {
    var s := NatToString(n);
    if n < 10 {
      DigitRoundTrip(n);
    } else {
      NatToStringRoundTrip(n / 10);
      DigitRoundTrip(n % 10);
      assert s[..|s| - 1] == NatToString(n / 10);
    }
  }

  /** Reads back a rendering: an optional '-' followed by digits. */
  function ParseInt(s: string): (r: int)
    requires |s| > 0
    requires forall k :: 0 < k < |s| ==> IsDigit(s[k])
    requires s[0] == '-' || IsDigit(s[0])
  {
    if s[0] == '-' then -(ValueOf(s[1..]) as int) else ValueOf(s)
  }

  /** Parsing the rendering gives the number back, so different numbers render differently. */
  lemma IntToStringRoundTrip(n: int)
    ensures var s := IntToString(n);
            (forall k :: 0 < k < |s| ==> IsDigit(s[k])) && (s[0] == '-' || IsDigit(s[0])) &&
            ParseInt(s) == n
  {
    if n < 0 {
      var digits := NatToString(-n);
      var s := "-" + digits;
      assert s[1..] == digits;
      assert forall k :: 0 < k < |s| ==> s[k] == digits[k - 1];
      NatToStringRoundTrip(-n);
      assert s == IntToString(n);
      assert ParseInt(s) == -(ValueOf(digits) as int);
    } else {
      var s := NatToString(n);
      assert IsDigit(s[0]) && s[0] != '-';
      NatToStringRoundTrip(n);
      assert s == IntToString(n);
      assert ParseInt(s) == ValueOf(s);
    }
  }
}

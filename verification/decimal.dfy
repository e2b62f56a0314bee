/** Decimal text of integers, as `Display` writes `BigInt` and `i64` values:
    an optional '-' and the digits of the absolute value, without leading
    zeros. `ParseInt` and `SplitDigits` read that text back. */
module Decimal {
  import opened Wrappers

  predicate IsDigit(c: char)
  {
    '0' <= c <= '9'
  }

  predicate AllDigits(s: string)
  {
    forall i :: 0 <= i < |s| ==> IsDigit(s[i])
  }

  function DigitChar(d: nat): (c: char)
    requires d < 10
    ensures IsDigit(c)
  {
    ('0' as int + d) as char
  }

  function DigitValue(c: char): (d: nat)
    requires IsDigit(c)
    ensures d < 10
  {
    c as int - '0' as int
  }

  /** The digits of n, most significant first. */
  function NatToDecimal(n: nat): (s: string)
    ensures |s| >= 1 && AllDigits(s)
    decreases n
  {
    if n < 10 then [DigitChar(n)] else NatToDecimal(n / 10) + [DigitChar(n % 10)]
  }

  /** The number a digit string denotes. */
  function DigitsValue(s: string): nat
    requires AllDigits(s)
  {
    if |s| == 0 then 0 else 10 * DigitsValue(s[..|s| - 1]) + DigitValue(s[|s| - 1])
  }

  /** Reading the digits back gives the number. */
  lemma {:induction false} NatRoundTrip(n: nat)
    ensures DigitsValue(NatToDecimal(n)) == n
    decreases n
  {
    var s := NatToDecimal(n);
    if n >= 10 {
      NatRoundTrip(n / 10);
      assert s[..|s| - 1] == NatToDecimal(n / 10);
    }
  }

  /** The text has no leading zero: it starts with '0' only for zero itself. */
  lemma {:induction false} NoLeadingZero(n: nat)
    ensures NatToDecimal(n)[0] == '0' <==> n == 0
    decreases n
  {
    if n >= 10 {
      NoLeadingZero(n / 10);
      assert NatToDecimal(n)[0] == NatToDecimal(n / 10)[0];
    }
  }

  /** `Display` of a signed integer. */
  function IntToDecimal(x: int): (s: string)
  {
    if x < 0 then "-" + NatToDecimal(-x) else NatToDecimal(x)
  }

  /** Reads an optional '-' followed by at least one digit. */
  function ParseInt(s: string): (r: Option<int>)
  {
    if |s| > 1 && s[0] == '-' && AllDigits(s[1..]) then Some(-(DigitsValue(s[1..]) as int))
    else if |s| > 0 && AllDigits(s) then Some(DigitsValue(s))
    else None
  }

  /** Reading the text of an integer back gives the integer. */
  lemma {:induction false} IntRoundTrip(x: int)
    ensures ParseInt(IntToDecimal(x)) == Some(x)
  {
    var s := IntToDecimal(x);
    if x < 0 {
      NatRoundTrip(-x);
      assert s[1..] == NatToDecimal(-x);
    } else {
      NatRoundTrip(x);
    }
  }

  /** The longest digit prefix of s, and what follows it. */
  function SplitDigits(s: string): (r: (string, string))
    ensures AllDigits(r.0) && r.0 + r.1 == s
    ensures |r.1| == 0 || !IsDigit(r.1[0])
  {
    if |s| > 0 && IsDigit(s[0]) then
      var rest := SplitDigits(s[1..]);
      var ds := [s[0]] + rest.0;
      assert forall i :: 0 < i < |ds| ==> ds[i] == rest.0[i - 1];
      assert ds + rest.1 == [s[0]] + (rest.0 + rest.1);
      (ds, rest.1)
    else ([], s)
  }

  /** A digit string followed by a non-digit splits at the boundary. */
  lemma {:induction false} SplitDigitsOf(w: string, rest: string)
    requires AllDigits(w) && (|rest| == 0 || !IsDigit(rest[0]))
    ensures SplitDigits(w + rest) == (w, rest)
  {
    var s := w + rest;
    if |w| > 0 {
      assert s[0] == w[0] && IsDigit(s[0]);
      assert s[1..] == w[1..] + rest;
      SplitDigitsOf(w[1..], rest);
      assert [w[0]] + w[1..] == w;
      assert SplitDigits(s) == ([s[0]] + SplitDigits(s[1..]).0, SplitDigits(s[1..]).1);
    } else {
      assert s == rest;
    }
  }

}

/** Decimal rendering of integers, as C# produces it when an `int` is
    concatenated to a string (invariant culture: optional '-' then digits),
    together with a parser that undoes it. */
module Numerals {
  import opened Wrappers

  predicate IsDigit(c: char) { '0' <= c <= '9' }

  predicate AllDigits(s: string) { forall k :: 0 <= k < |s| ==> IsDigit(s[k]) }

  function DigitChar(d: nat): (c: char)
    requires d < 10
    ensures IsDigit(c)
  {
    ['0', '1', '2', '3', '4', '5', '6', '7', '8', '9'][d]
  }

  function DigitValue(c: char): (d: nat)
    requires IsDigit(c)
    ensures d < 10
  {
    (c as int - '0' as int) as nat
  }

  /** The shape of a natural number's decimal text: digits only, at least
      one, and no leading zero unless the number is 0 itself. */
  predicate NatText(s: string) {
    0 < |s| && AllDigits(s) && (|s| > 1 ==> s[0] != '0')
  }

  /** The decimal digits of n, most significant first, without leading zeros. */
  function NatToString(n: nat): (s: string)
    ensures NatText(s)
    ensures n > 0 ==> s[0] != '0'
    decreases n
  {
    if n < 10 then [DigitChar(n)] else NatToString(n / 10) + [DigitChar(n % 10)]
  }

  /** `int.ToString()`: a leading '-' for negative values. */
  function IntToString(i: int): (s: string)
    ensures 1 <= |s|
    ensures i < 0 <==> s[0] == '-'
  {
    if i < 0 then "-" + NatToString(-i) else NatToString(i)
  }

  /** The value of a string of decimal digits (empty reads as 0). */
  function ParseNat(s: string): nat
    requires AllDigits(s)
  {
    if |s| == 0 then 0 else ParseNat(s[..|s| - 1]) * 10 + DigitValue(s[|s| - 1])
  }

  /** Reads back what IntToString writes; anything else, including leading
      zeros and "-0", is rejected. */
  function ParseInt(s: string): Option<int> {
    if 1 < |s| && s[0] == '-' && NatText(s[1..]) && s[1] != '0' then Some(-(ParseNat(s[1..]) as int))
    else if NatText(s) then Some(ParseNat(s))
    else None
  }

  lemma DigitRoundTrip(d: nat)
    requires d < 10
    ensures DigitValue(DigitChar(d)) == d
  {
  }

  lemma {:induction false} NatRoundTrip(n: nat)
    ensures ParseNat(NatToString(n)) == n
    decreases n
  {
    if n < 10 {
      DigitRoundTrip(n);
    } else {
      var s := NatToString(n);
      assert s[..|s| - 1] == NatToString(n / 10);
      NatRoundTrip(n / 10);
      DigitRoundTrip(n % 10);
    }
  }

  lemma NegativeRoundTrip(n: nat)
    requires 0 < n
    ensures ParseInt("-" + NatToString(n)) == Some(-(n as int))
  {
    var s := "-" + NatToString(n);
    assert s[1..] == NatToString(n);
    NatRoundTrip(n);
  }

  lemma NonNegativeRoundTrip(n: nat)
    ensures ParseInt(NatToString(n)) == Some(n as int)
  {
    var s := NatToString(n);
    assert IsDigit(s[0]);
    NatRoundTrip(n);
  }

  /** IntToString loses nothing: ParseInt recovers every integer from its text. */
  lemma IntRoundTrip(i: int)
    ensures ParseInt(IntToString(i)) == Some(i)
  {
    if i < 0 {
      NegativeRoundTrip(-i);
    } else {
      NonNegativeRoundTrip(i);
    }
  }

  lemma DigitCharRoundTrip(c: char)
    requires IsDigit(c)
    ensures DigitChar(DigitValue(c)) == c
  {
  }

  /** A digit string that does not start with '0' denotes a positive number. */
  lemma {:induction false} LeadingDigitPositive(s: string)
    requires 0 < |s| && AllDigits(s) && s[0] != '0'
    ensures ParseNat(s) > 0
    decreases |s|
  {
    if |s| > 1 {
      LeadingDigitPositive(s[..|s| - 1]);
    }
  }

  /** NatToString undoes ParseNat on every well-formed natural number text. */
  lemma {:induction false} NatTextRoundTrip(s: string)
    requires NatText(s)
    ensures NatToString(ParseNat(s)) == s
    decreases |s|
  {
    var last := s[|s| - 1];
    var d := DigitValue(last);
    DigitCharRoundTrip(last);
    if |s| > 1 {
      var s' := s[..|s| - 1];
      var m := ParseNat(s');
      LeadingDigitPositive(s');
      NatTextRoundTrip(s');
      var n := m * 10 + d;
      assert ParseNat(s) == n;
      assert n / 10 == m && n % 10 == d;
      assert NatToString(n) == NatToString(m) + [DigitChar(d)];
      assert s == s' + [last];
    }
  }

  /** ParseInt accepts only the text IntToString writes: whatever it reads
      as i is exactly IntToString(i), so each integer has one text. */
  lemma ParseIntCanonical(s: string, i: int)
    requires ParseInt(s) == Some(i)
    ensures s == IntToString(i)
  {
    if 1 < |s| && s[0] == '-' && NatText(s[1..]) && s[1] != '0' {
      LeadingDigitPositive(s[1..]);
      NatTextRoundTrip(s[1..]);
      assert s == "-" + s[1..];
    } else {
      NatTextRoundTrip(s);
    }
  }
}

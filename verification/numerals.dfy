/**
 Decimal numerals: Python's `str(n)` on integers and `int(s)` on the strings the
 extractor converts (page-number captures and section-number components).
 */
module Numerals {
  import opened Wrappers
  import opened Chars
  import opened Text

  /** `str(n)` for a non-negative integer: decimal digits without leading zeros. */
  function NatToString(n: nat): (s: string)
    ensures |s| >= 1
    ensures forall k :: 0 <= k < |s| ==> IsAsciiDigit(s[k])
    ensures s[0] == '0' ==> n == 0 && |s| == 1
    decreases n
  {
    if n < 10 then [DigitChar(n)] else NatToString(n / 10) + [DigitChar(n % 10)]
  }

  /** Every character of `s` is an ASCII digit. */
  predicate AllDigits(s: string) {
    forall k :: 0 <= k < |s| ==> IsAsciiDigit(s[k])
  }

  /** The value of a string of ASCII digits, leading zeros allowed (`int(s)` on `\d+`). */
  function DigitsValue(s: string): nat
    requires AllDigits(s)
  {
    if |s| == 0 then 0 else DigitsValue(s[..|s| - 1]) * 10 + DigitValue(s[|s| - 1])
  }

  /** Reading back a formatted number gives the number. */
  lemma {:induction false} DigitsValueOfNatToString(n: nat)
    ensures DigitsValue(NatToString(n)) == n
    decreases n
  {
    var s := NatToString(n);
    if n >= 10 {
      DigitsValueOfNatToString(n / 10);
      assert s[..|s| - 1] == NatToString(n / 10);
    }
  }

  /** Distinct page numbers print differently. */
  lemma NatToStringInjective(m: nat, n: nat)
    requires NatToString(m) == NatToString(n)
    ensures m == n
  {
    DigitsValueOfNatToString(m);
    DigitsValueOfNatToString(n);
  }

  /** `str(i)` for any integer. */
  function IntToString(i: int): (s: string)
    ensures |s| >= 1
    ensures '.' !in s
  {
    if i < 0 then "-" + NatToString(-i) else NatToString(i)
  }

  /**
   `int(s)` on text: surrounding whitespace is ignored, then an optional sign and one or
   more ASCII digits must follow; `None` stands for the `ValueError` Python raises on
   anything else.
   */
  function ParseInt(s: string): (r: Option<int>)
    ensures r.Some? ==> |Strip(s)| >= 1
  {
    ParseSigned(Strip(s))
  }

  /** An optional sign followed by one or more ASCII digits. */
  function ParseSigned(s: string): (r: Option<int>)
    ensures r.Some? ==> |s| >= 1
  {
    if |s| >= 1 && (s[0] == '-' || s[0] == '+') then
      var digits := s[1..];
      if |digits| >= 1 && AllDigits(digits) then
        var magnitude: int := DigitsValue(digits);
        Some(if s[0] == '-' then -magnitude else magnitude)
      else None
    else if |s| >= 1 && AllDigits(s) then Some(DigitsValue(s))
    else None
  }

  /** `int(str(i)) == i`. */
  lemma ParseIntOfIntToString(i: int)
    ensures ParseInt(IntToString(i)) == Some(i)
  {
    var s := IntToString(i);
    DigitIsNotSpace(s[|s| - 1]);
    if i < 0 {
      StripUnchanged(s);
      ParseSignedOfNegative(i);
    } else {
      DigitIsNotSpace(s[0]);
      StripUnchanged(s);
      ParseSignedOfNatural(i);
    }
  }

  lemma ParseSignedOfNatural(n: nat)
    ensures ParseSigned(NatToString(n)) == Some(n)
  {
    var d := NatToString(n);
    assert d[0] != '-' && d[0] != '+';
    DigitsValueOfNatToString(n);
  }

  lemma ParseSignedOfNegative(i: int)
    requires i < 0
    ensures ParseSigned("-" + NatToString(-i)) == Some(i)
  {
    var d := NatToString(-i);
    assert ("-" + d)[1..] == d;
    DigitsValueOfNatToString(-i);
  }
}

/**
 * Decimal text of whole numbers: what a JavaScript template literal prints
 * for a non-negative integer, `String.prototype.padStart(2, '0')`, and the
 * inverse reading used to state what the printed text means.
 */
module Decimal {

  predicate IsDigit(c: char) {
    '0' <= c <= '9'
  }

  predicate AllDigits(s: string) {
    forall i :: 0 <= i < |s| ==> IsDigit(s[i])
  }

  function DigitChar(d: nat): (c: char)
    requires d < 10
    ensures IsDigit(c)
  {
    ('0' as int + d) as char
  }

  /** The value a string of decimal digits denotes (leading zeros allowed). */
  function DecimalValue(s: string): nat
    requires AllDigits(s)
  {
    if s == [] then 0
    else DecimalValue(s[..|s| - 1]) * 10 + (s[|s| - 1] as int - '0' as int)
  }

  /** Shortest decimal rendering of `n`: digits only, no leading zero. */
  function DecimalDigits(n: nat): (s: string)
    ensures 1 <= |s| && AllDigits(s)
    ensures s[0] == '0' <==> n == 0
    ensures n < 10 <==> |s| == 1
    ensures 10 <= n < 100 <==> |s| == 2
  {
    if n < 10 then [DigitChar(n)] else DecimalDigits(n / 10) + [DigitChar(n % 10)]
  }

  /** Reading the rendering back gives the number. */
  lemma {:induction false} DecimalRoundTrip(n: nat)
    ensures DecimalValue(DecimalDigits(n)) == n
  {
    if n >= 10 {
      var s := DecimalDigits(n / 10);
      var c := DigitChar(n % 10);
      DecimalRoundTrip(n / 10);
      assert (s + [c])[..|s|] == s;
    }
  }

  /** `s.padStart(2, '0')`: left-pads with zeros to length two, never truncates. */
  function PadStart2(s: string): (r: string)
    ensures |r| == if |s| < 2 then 2 else |s|
    ensures r[|r| - |s|..] == s
    ensures forall i :: 0 <= i < |r| - |s| ==> r[i] == '0'
  {
    if |s| >= 2 then s else if |s| == 1 then ['0'] + s else "00"
  }

  /** A leading zero does not change the value of a digit string. */
  lemma {:induction false} LeadingZero(s: string)
    requires AllDigits(s)
    ensures AllDigits(['0'] + s) && DecimalValue(['0'] + s) == DecimalValue(s)
  {
    if s != [] {
      var init := s[..|s| - 1];
      LeadingZero(init);
      assert (['0'] + s)[..|s|] == ['0'] + init;
    }
  }

  /** Zero-padding keeps the value of a digit string. */
  lemma PadStart2Value(s: string)
    requires AllDigits(s)
    ensures AllDigits(PadStart2(s)) && DecimalValue(PadStart2(s)) == DecimalValue(s)
  {
    if |s| == 1 {
      LeadingZero(s);
    } else if |s| == 0 {
      LeadingZero("0");
    }
  }

  /** A number below 100, printed and padded, is two digits that read back as the number. */
  lemma PaddedRoundTrip(n: nat)
    requires n < 100
    ensures var s := PadStart2(DecimalDigits(n));
      |s| == 2 && AllDigits(s) && DecimalValue(s) == n
  {
    var digits := DecimalDigits(n);
    assert |digits| <= 2;
    DecimalRoundTrip(n);
    PadStart2Value(digits);
  }
}

/**
 Decimal text of non-negative integers, as JavaScript produces and reads it:
 `String(n)`, `s.padStart(width, "0")` and `Number(s)` restricted to unsigned
 digit strings.
 */
module Decimal {
  import opened Wrappers

  predicate IsDigit(c: char) {
    '0' <= c <= '9'
  }

  predicate AllDigits(s: string) {
    forall i :: 0 <= i < |s| ==> IsDigit(s[i])
  }

  function DigitChar(d: nat): (c: char)
    requires d < 10
    ensures IsDigit(c)
  {
    '0' + d as char
  }

  function DigitValue(c: char): (d: nat)
    requires IsDigit(c)
    ensures d < 10
  {
    (c - '0') as nat
  }

  /** `String(n)` for a non-negative integer: its shortest decimal spelling. */
  function DecimalString(n: nat): (s: string)
    ensures 1 <= |s| && AllDigits(s)
    ensures (|s| == 1) <==> n < 10
    ensures n < 100 ==> |s| <= 2
    ensures s[0] == '0' <==> n == 0
  {
    if n < 10 then [DigitChar(n)] else DecimalString(n / 10) + [DigitChar(n % 10)]
  }

  /** The value of a string of decimal digits, read most significant digit first. */
  function DigitsValue(s: string): nat
    requires AllDigits(s)
  {
    if |s| == 0 then 0 else DigitsValue(s[..|s| - 1]) * 10 + DigitValue(s[|s| - 1])
  }

  /** `s.padStart(width, ch)`: prefixes copies of `ch` until `s` is `width` long; a longer `s` is kept. */
  function PadStart(s: string, width: nat, ch: char): (r: string)
    ensures |r| == if |s| < width then width else |s|
    ensures r[|r| - |s|..] == s
    ensures forall i :: 0 <= i < |r| - |s| ==> r[i] == ch
  {
    if |s| < width then
      var fill := seq(width - |s|, _ => ch);
      assert (fill + s)[|fill|..] == s;
      fill + s
    else s
  }

  /** Two-digit zero padding, as used for every clock field. */
  function Pad2(n: nat): string {
    PadStart(DecimalString(n), 2, '0')
  }

  /**
   `Number(s)` on the strings this model admits: the empty string reads as 0,
   a digit string reads as its value, and anything else is `None` (JavaScript's NaN
   or a form not modelled).
   */
  function ParseNumber(s: string): (r: Option<nat>)
    ensures r.Some? <==> AllDigits(s)
  {
    if AllDigits(s) then Some(DigitsValue(s)) else None
  }

  /** Reading back the decimal spelling of `n` gives `n`. */
  lemma {:induction false} DigitsValueOfDecimal(n: nat)
    ensures DigitsValue(DecimalString(n)) == n
  {
    if n >= 10 {
      var s := DecimalString(n);
      assert s[..|s| - 1] == DecimalString(n / 10);
      DigitsValueOfDecimal(n / 10);
    }
  }

  /** `String` is injective on non-negative integers. */
  lemma DecimalInjective(a: nat, b: nat)
    requires DecimalString(a) == DecimalString(b)
    ensures a == b
  {
    DigitsValueOfDecimal(a);
    DigitsValueOfDecimal(b);
  }

  /** A leading zero does not change the value of a digit string. */
  lemma {:induction false} LeadingZero(s: string)
    requires AllDigits(s)
    ensures AllDigits("0" + s) && DigitsValue("0" + s) == DigitsValue(s)
  {
    var t := "0" + s;
    assert AllDigits(t) by {
      forall i | 0 <= i < |t| ensures IsDigit(t[i]) {
        if i > 0 { assert t[i] == s[i - 1]; }
      }
    }
    if |s| > 0 {
      assert t[..|t| - 1] == "0" + s[..|s| - 1];
      LeadingZero(s[..|s| - 1]);
    }
  }

  /** Padding with zeros keeps the value: `Number(String(n).padStart(w, "0")) == n`. */
  lemma {:induction false} ParsePadded(n: nat, width: nat)
    ensures ParseNumber(PadStart(DecimalString(n), width, '0')) == Some(n)
  {
    PaddedValue(DecimalString(n), width);
    DigitsValueOfDecimal(n);
  }

  /** Any number of leading zeros keeps a digit string's value. */
  lemma {:induction false} LeadingZeros(k: nat, s: string)
    requires AllDigits(s)
    ensures AllDigits(seq(k, _ => '0') + s)
    ensures DigitsValue(seq(k, _ => '0') + s) == DigitsValue(s)
  {
    if k > 0 {
      LeadingZeros(k - 1, s);
      var t := seq(k - 1, _ => '0') + s;
      assert seq(k, _ => '0') + s == "0" + t;
      LeadingZero(t);
    } else {
      assert seq(k, _ => '0') + s == s;
    }
  }

  lemma PaddedValue(s: string, width: nat)
    requires AllDigits(s)
    ensures AllDigits(PadStart(s, width, '0'))
    ensures DigitsValue(PadStart(s, width, '0')) == DigitsValue(s)
  {
    if |s| < width {
      LeadingZeros(width - |s|, s);
    }
  }

  /** A padded field of a value below 100 is exactly two digits. */
  lemma Pad2Length(n: nat)
    requires n < 100
    ensures |Pad2(n)| == 2 && AllDigits(Pad2(n))
  {
    PaddedValue(DecimalString(n), 2);
  }
}

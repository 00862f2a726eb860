/**
 * How the sample turns numbers into text: C#'s `int.ToString()`, the `(int)`
 * cast that truncates toward zero, and the fixed-point format specifier
 * `F<n>` used in the diagnostic summary. Each formatter has a parser beside
 * it, and a round-trip lemma ties the two together.
 */
module Numerals {
  import opened Wrappers

  predicate IsDigit(c: char) { '0' <= c <= '9' }

  predicate AllDigits(s: string) { forall i :: 0 <= i < |s| ==> IsDigit(s[i]) }

  function DigitChar(d: nat): (c: char)
    requires d < 10
    ensures IsDigit(c) && DigitValue(c) == d
  {
    ('0' as int + d) as char
  }

  function DigitValue(c: char): nat
    requires IsDigit(c)
  {
    c as int - '0' as int
  }

  function Pow10(n: nat): (p: nat)
    ensures p >= 1
  {
    if n == 0 then 1 else 10 * Pow10(n - 1)
  }

  /** The decimal value of a string of digits, most significant first. */
  function DigitsValue(s: string): nat
    requires AllDigits(s)
  {
    if s == [] then 0 else DigitsValue(s[..|s| - 1]) * 10 + DigitValue(s[|s| - 1])
  }

  /** `n.ToString()` for a non-negative integer: its decimal digits without leading zeros. */
  function NatToString(n: nat): (s: string)
    ensures |s| >= 1 && AllDigits(s)
    ensures s[0] == '0' ==> n == 0
  {
    if n < 10 then [DigitChar(n)] else NatToString(n / 10) + [DigitChar(n % 10)]
  }

  /** Reads a non-empty string of digits. */
  function ParseNat(s: string): Option<nat>
  {
    if |s| >= 1 && AllDigits(s) then Some(DigitsValue(s)) else None
  }

  lemma {:induction false} NatToStringRoundTrip(n: nat)
    ensures ParseNat(NatToString(n)) == Some(n)
  {
    var s := NatToString(n);
    if n >= 10 {
      assert s[..|s| - 1] == NatToString(n / 10);
      NatToStringRoundTrip(n / 10);
      assert DigitsValue(s) == DigitsValue(NatToString(n / 10)) * 10 + n % 10;
    } else {
      assert s[..0] == [];
    }
  }

  /** `i.ToString()` for a C# `int`: a minus sign before the digits of a negative value. */
  function IntToString(i: int): string
  {
    if i < 0 then "-" + NatToString(-i) else NatToString(i)
  }

  /** Reads back what IntToString writes: an optional minus sign followed by digits. */
  function ParseInt(s: string): Option<int>
  {
    if |s| >= 1 && s[0] == '-' then
      match ParseNat(s[1..])
      case Some(v) => Some(0 - v)
      case None => None
    else
      match ParseNat(s)
      case Some(v) => Some(v)
      case None => None
  }

  lemma {:induction false} IntToStringRoundTrip(i: int)
    ensures ParseInt(IntToString(i)) == Some(i)
  {
    if i < 0 {
      var t := NatToString(-i);
      assert ("-" + t)[1..] == t;
      NatToStringRoundTrip(-i);
    } else {
      assert IsDigit(NatToString(i)[0]);
      NatToStringRoundTrip(i);
    }
  }

  /** C#'s `(int)` conversion of a floating-point value: truncation toward zero. */
  function TruncToInt(x: real): (n: int)
    ensures x >= 0.0 ==> n >= 0 && n as real <= x < n as real + 1.0
    ensures x < 0.0 ==> n <= 0 && n as real - 1.0 < x <= n as real
  {
    if x >= 0.0 then x.Floor else -((-x).Floor)
  }

  /**
   * Rounding to the nearest integer with halves rounded away from zero,
   * the rounding the fixed-point format specifier applies to the last digit.
   */
  function RoundHalfAwayFromZero(x: real): (n: int)
    ensures x >= 0.0 ==> n >= 0 && -0.5 < n as real - x <= 0.5
    ensures x < 0.0 ==> n <= 0 && -0.5 <= n as real - x < 0.5
  {
    if x >= 0.0 then (x + 0.5).Floor else -((-x + 0.5).Floor)
  }

  /** `x` with its decimal point moved `decimals` places to the right. */
  function Shift(x: real, decimals: nat): real
  {
    x * Pow10(decimals) as real
  }

  /**
   * `x.ToString("F" + decimals)`: the value rounded to `decimals` places,
   * written as an optional minus sign, at least one integer digit and, when
   * `decimals > 0`, a '.' followed by exactly `decimals` fraction digits.
   */
  function FormatFixed(x: real, decimals: nat): string
  {
    var m := RoundHalfAwayFromZero(Shift(x, decimals));
    if m < 0 then "-" + UnsignedFixed(-m, decimals) else UnsignedFixed(m, decimals)
  }

  /**
   * `a / 10^decimals` written with exactly `decimals` fraction digits: the
   * last digit of `a` is the last fraction digit, and the '.' comes before
   * the `decimals`-th digit from the end.
   */
  function UnsignedFixed(a: nat, decimals: nat): string
  {
    if decimals == 0 then NatToString(a)
    else if decimals == 1 then UnsignedFixed(a / 10, 0) + "." + [DigitChar(a % 10)]
    else UnsignedFixed(a / 10, decimals - 1) + [DigitChar(a % 10)]
  }

  /**
   * Reads back a fixed-point string with exactly `decimals` fraction digits,
   * giving the written value scaled by 10^decimals.
   */
  function ParseFixed(s: string, decimals: nat): Option<int>
  {
    if |s| >= 1 && s[0] == '-' then
      match ParseUnsignedFixed(s[1..], decimals)
      case Some(v) => Some(0 - v)
      case None => None
    else
      match ParseUnsignedFixed(s, decimals)
      case Some(v) => Some(v)
      case None => None
  }

  function ParseUnsignedFixed(s: string, decimals: nat): Option<nat>
  {
    if decimals == 0 then ParseNat(s)
    else if |s| >= 2 && IsDigit(s[|s| - 1]) then
      var d := DigitValue(s[|s| - 1]);
      var front := s[..|s| - 1];
      if decimals == 1 then
        if front[|front| - 1] == '.' then
          match ParseNat(front[..|front| - 1])
          case Some(v) => Some(v * 10 + d)
          case None => None
        else None
      else
        match ParseUnsignedFixed(front, decimals - 1)
        case Some(v) => Some(v * 10 + d)
        case None => None
    else None
  }

  lemma {:induction false} UnsignedFixedRoundTrip(a: nat, decimals: nat)
    ensures |UnsignedFixed(a, decimals)| >= 1 && IsDigit(UnsignedFixed(a, decimals)[0])
    ensures ParseUnsignedFixed(UnsignedFixed(a, decimals), decimals) == Some(a)
  {
    var s := UnsignedFixed(a, decimals);
    if decimals == 0 {
      NatToStringRoundTrip(a);
    } else if decimals == 1 {
      var t := UnsignedFixed(a / 10, 0);
      NatToStringRoundTrip(a / 10);
      assert s[..|s| - 1] == t + ".";
      assert (t + ".")[..|t|] == t;
    } else {
      UnsignedFixedRoundTrip(a / 10, decimals - 1);
      assert s[..|s| - 1] == UnsignedFixed(a / 10, decimals - 1);
    }
  }

  lemma SignedFixedRoundTrip(m: int, decimals: nat)
    ensures ParseFixed(if m < 0 then "-" + UnsignedFixed(-m, decimals) else UnsignedFixed(m, decimals), decimals)
            == Some(m)
  {
    if m < 0 {
      var t := UnsignedFixed(-m, decimals);
      UnsignedFixedRoundTrip(-m, decimals);
      assert ("-" + t)[1..] == t;
    } else {
      UnsignedFixedRoundTrip(m, decimals);
    }
  }

  /**
   * What FormatFixed writes reads back as the rounded value, and that value
   * is within half a unit of the last written place of `x`.
   */
  lemma FormatFixedRoundTrip(x: real, decimals: nat)
    ensures ParseFixed(FormatFixed(x, decimals), decimals) == Some(RoundHalfAwayFromZero(Shift(x, decimals)))
    ensures -0.5 <= RoundHalfAwayFromZero(Shift(x, decimals)) as real - Shift(x, decimals) <= 0.5
  {
    SignedFixedRoundTrip(RoundHalfAwayFromZero(Shift(x, decimals)), decimals);
  }

  predicate DigitsAndPoint(s: string) { forall i :: 0 <= i < |s| ==> IsDigit(s[i]) || s[i] == '.' }

  /** Unsigned fixed-point text is made of digits and a '.'. */
  lemma {:induction false} UnsignedFixedChars(a: nat, decimals: nat)
    ensures DigitsAndPoint(UnsignedFixed(a, decimals))
  {
    var s := UnsignedFixed(a, decimals);
    if decimals == 1 {
      var t := UnsignedFixed(a / 10, 0);
      assert s == t + "." + [DigitChar(a % 10)];
      assert forall i :: 0 <= i < |t| ==> s[i] == t[i];
    } else if decimals > 1 {
      var t := UnsignedFixed(a / 10, decimals - 1);
      UnsignedFixedChars(a / 10, decimals - 1);
      assert s == t + [DigitChar(a % 10)];
      assert forall i :: 0 <= i < |t| ==> s[i] == t[i];
    }
  }

  /** The characters the number formatters write: digits, the '.' and the minus sign. */
  predicate NumeralChars(s: string)
  {
    forall i :: 0 <= i < |s| ==> IsDigit(s[i]) || s[i] == '.' || s[i] == '-'
  }

  /** A character that is none of those does not occur in numeral text. */
  lemma NumeralCharsExclude(s: string, c: char)
    requires NumeralChars(s) && !IsDigit(c) && c != '.' && c != '-'
    ensures c !in s
  {
  }

  lemma IntToStringChars(i: int)
    ensures NumeralChars(IntToString(i))
  {
    var t := NatToString(if i < 0 then -i else i);
    assert IntToString(i) == if i < 0 then "-" + t else t;
    assert forall k :: 0 <= k < |t| ==> ("-" + t)[k + 1] == t[k];
  }

  lemma FormatFixedChars(x: real, decimals: nat)
    ensures NumeralChars(FormatFixed(x, decimals))
  {
    var m := RoundHalfAwayFromZero(Shift(x, decimals));
    var t := UnsignedFixed(if m < 0 then -m else m, decimals);
    UnsignedFixedChars(if m < 0 then -m else m, decimals);
    assert FormatFixed(x, decimals) == if m < 0 then "-" + t else t;
    assert forall k :: 0 <= k < |t| ==> ("-" + t)[k + 1] == t[k];
  }

  /** Text written by IntToString holds no character other than digits, '.' and '-'. */
  lemma IntToStringExcludes(i: int, c: char)
    requires !IsDigit(c) && c != '.' && c != '-'
    ensures c !in IntToString(i)
  {
    IntToStringChars(i);
    NumeralCharsExclude(IntToString(i), c);
  }

  /** Text written by FormatFixed holds no character other than digits, '.' and '-'. */
  lemma FormatFixedExcludes(x: real, decimals: nat, c: char)
    requires !IsDigit(c) && c != '.' && c != '-'
    ensures c !in FormatFixed(x, decimals)
  {
    FormatFixedChars(x, decimals);
    NumeralCharsExclude(FormatFixed(x, decimals), c);
  }
}

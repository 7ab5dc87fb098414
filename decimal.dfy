/**
 * Decimal text as the generators print it and as the option parser reads it: the digits of
 * a non-negative number, the `%0Nd` zero-padded format, and Integer.parseInt restricted to
 * ASCII digits and signs.
 */
module Decimal {
  import opened Wrappers
  import opened JavaNum

  predicate IsDigit(c: char) {
    '0' <= c <= '9'
  }

  predicate AllDigits(s: string) {
    forall k :: 0 <= k < |s| ==> IsDigit(s[k])
  }

  function DigitChar(d: nat): (c: char)
    requires d < 10
    ensures IsDigit(c)
  {
    ('0' as int + d) as char
  }

  function DigitValue(c: char): (d: nat)
    requires IsDigit(c)
    ensures d < 10
  {
    c as int - '0' as int
  }

  /** Long.toString of a non-negative value: its decimal digits with no leading zero. */
  function ToDecimal(x: nat): (s: string)
    ensures |s| >= 1 && AllDigits(s)
  {
    if x < 10 then [DigitChar(x)] else ToDecimal(x / 10) + [DigitChar(x % 10)]
  }

  /** The number a string of decimal digits denotes, most significant digit first. */
  function DecimalValue(s: string): nat
    requires AllDigits(s)
  {
    if s == [] then 0 else DecimalValue(s[..|s| - 1]) * 10 + DigitValue(s[|s| - 1])
  }

  /** `String.format("%0" + width + "d", x)` for a non-negative x: the digits, zero-padded on the left to width. */
  function FormatZeroPadded(x: nat, width: nat): string {
    var digits := ToDecimal(x);
    if |digits| < width then seq(width - |digits|, _ => '0') + digits else digits
  }

  lemma {:induction false} DecimalValueOfToDecimal(x: nat)
    ensures DecimalValue(ToDecimal(x)) == x
  {
    if x >= 10 {
      var s := ToDecimal(x);
      assert s[..|s| - 1] == ToDecimal(x / 10);
      DecimalValueOfToDecimal(x / 10);
    }
  }

  /** ToDecimal never starts with a redundant zero. */
  lemma ToDecimalNoLeadingZero(x: nat)
    ensures ToDecimal(x)[0] == '0' <==> x == 0
  {
    if x >= 10 {
      ToDecimalNoLeadingZero(x / 10);
    }
  }

  /** x has at most w decimal digits exactly when it is below 10^w. */
  lemma {:induction false} ToDecimalLength(x: nat, w: nat)
    requires w >= 1
    ensures |ToDecimal(x)| <= w <==> x < Pow10(w)
  {
    if x >= 10 {
      if w == 1 {
        assert Pow10(1) == 10;
      } else {
        ToDecimalLength(x / 10, w - 1);
        assert Pow10(w) == 10 * Pow10(w - 1);
        DivAtLeast(x, 10, Pow10(w - 1));
      }
    } else {
      Pow10AtLeastTen(w);
    }
  }

  lemma {:induction false} Pow10AtLeastTen(w: nat)
    requires w >= 1
    ensures Pow10(w) >= 10
  {
    if w > 1 {
      Pow10AtLeastTen(w - 1);
    }
  }

  lemma {:induction false} DecimalValueLeadingZeros(n: nat, s: string)
    requires AllDigits(s)
    ensures AllDigits(seq(n, _ => '0') + s)
    ensures DecimalValue(seq(n, _ => '0') + s) == DecimalValue(s)
  {
    var z := seq(n, _ => '0');
    if s == [] {
      assert z + s == z;
      AllZeros(n);
    } else {
      var init := s[..|s| - 1];
      DecimalValueLeadingZeros(n, init);
      assert (z + s)[..|z + s| - 1] == z + init;
    }
  }

  lemma {:induction false} AllZeros(n: nat)
    ensures DecimalValue(seq(n, _ => '0')) == 0
  {
    if n > 0 {
      var z := seq(n, _ => '0');
      assert z[..n - 1] == seq(n - 1, _ => '0');
      AllZeros(n - 1);
    }
  }

  /**
   * The zero-padded format has exactly `width` characters when the value fits, only digits,
   * and reads back as the value it printed.
   */
  lemma FormatZeroPaddedShape(x: nat, width: nat)
    requires width >= 1 && x < Pow10(width)
    ensures |FormatZeroPadded(x, width)| == width
    ensures AllDigits(FormatZeroPadded(x, width))
    ensures DecimalValue(FormatZeroPadded(x, width)) == x
  {
    ToDecimalLength(x, width);
    var digits := ToDecimal(x);
    DecimalValueOfToDecimal(x);
    if |digits| < width {
      DecimalValueLeadingZeros(width - |digits|, digits);
    }
  }

  /** A value too wide for the field is printed in full, never cut. */
  lemma FormatZeroPaddedWide(x: nat, width: nat)
    requires width >= 1 && x >= Pow10(width)
    ensures FormatZeroPadded(x, width) == ToDecimal(x)
  {
    ToDecimalLength(x, width);
  }

  /** The magnitude part of Integer.parseInt: a non-empty run of ASCII digits, or nothing. */
  function Magnitude(s: string): (r: Option<nat>)
    ensures r.Some? <==> |s| >= 1 && AllDigits(s)
  {
    if |s| >= 1 && AllDigits(s) then Some(DecimalValue(s)) else None
  }

  /**
   * Integer.parseInt(s) on ASCII input: an optional '+' or '-', then at least one digit,
   * the value within the 32-bit range; None where Java throws NumberFormatException.
   */
  function ParseInt(s: string): (r: Option<int>)
    ensures r.Some? ==> IsInt(r.value)
  {
    var negative := |s| >= 1 && s[0] == '-';
    var signed := |s| >= 1 && (s[0] == '-' || s[0] == '+');
    match Magnitude(if signed then s[1..] else s)
    case None => None
    case Some(m) =>
      var v: int := if negative then -(m as int) else m;
      if IsInt(v) then Some(v) else None
  }

  /** Integer.parseInt reads back every non-negative int printed in decimal. */
  lemma ParseIntOfToDecimal(x: nat)
    requires x <= IntMax
    ensures ParseInt(ToDecimal(x)) == Some(x)
  {
    DecimalValueOfToDecimal(x);
  }

  /** ... and every negative one printed with its minus sign. */
  lemma ParseIntOfNegative(x: nat)
    requires 1 <= x <= -IntMin
    ensures ParseInt("-" + ToDecimal(x)) == Some(-(x as int))
  {
    DecimalValueOfToDecimal(x);
    assert ("-" + ToDecimal(x))[1..] == ToDecimal(x);
  }

  /** Whatever Integer.parseInt accepts, it accepts as the value of its digits, with the sign applied. */
  lemma ParseIntAccepts(s: string)
    requires ParseInt(s).Some?
    ensures |s| >= 1
    ensures s[0] == '-' ==> |s| >= 2 && AllDigits(s[1..]) && ParseInt(s).value == -(DecimalValue(s[1..]) as int)
    ensures s[0] == '+' ==> |s| >= 2 && AllDigits(s[1..]) && ParseInt(s).value == DecimalValue(s[1..])
    ensures s[0] != '-' && s[0] != '+' ==> AllDigits(s) && ParseInt(s).value == DecimalValue(s)
  {
  }

  /** The empty string, a lone sign and any character other than a digit are rejected. */
  lemma ParseIntRejects(s: string)
    ensures s == [] || s == "-" || s == "+" ==> ParseInt(s).None?
    ensures (exists k :: 1 <= k < |s| && !IsDigit(s[k])) ==> ParseInt(s).None?
    ensures |s| >= 1 && !IsDigit(s[0]) && s[0] != '-' && s[0] != '+' ==> ParseInt(s).None?
  {
  }

  /** A magnitude beyond the 32-bit range is rejected, with either sign. */
  lemma ParseIntOutOfRange(x: nat)
    ensures x > IntMax ==> ParseInt(ToDecimal(x)) == None
    ensures x > -IntMin ==> ParseInt("-" + ToDecimal(x)) == None
  {
    DecimalValueOfToDecimal(x);
    assert ("-" + ToDecimal(x))[1..] == ToDecimal(x);
  }

}

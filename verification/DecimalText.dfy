/**
 Reading and writing decimals as text (parseBigDecimal and String in
 sqlglot/decimal.go).
 */
module DecimalText {
  import opened Options
  import opened MachineInts
  import opened Numerals
  import opened Decimals
  import opened Strings

  const MAX_EXPONENT: int := 400

  /** The first exponent marker, in either case. */
  function IndexOfMarker(s: string): (i: nat)
    ensures i <= |s| && (i < |s| ==> s[i] == 'e' || s[i] == 'E')
  {
    if s == "" || s[0] == 'e' || s[0] == 'E' then 0 else 1 + IndexOfMarker(s[1..])
  }

  /** The text before the exponent, and the exponent; nothing when it is malformed or past the bound. */
  function SplitExponent(s: string): Option<(string, int)> {
    var i := IndexOfMarker(s);
    if i == |s| then Some((s, 0))
    else
      var e :- Atoi(s[i + 1..]);
      if e > MAX_EXPONENT || e < -MAX_EXPONENT then None else Some((s[..i], e))
  }

  /** The digits before and after the point. */
  function SplitPoint(s: string): (string, string) {
    var i := IndexOf(s, '.');
    if i == |s| then (s, "") else (s[..i], s[i + 1..])
  }

  /** digits * 10^-scale, a negative scale made literal zeros. */
  function Scaled(unscaled: int, scale: int): Dec {
    if scale < 0 then Dec(unscaled * Pow10(-scale), 0) else Dec(unscaled, scale)
  }

  function SplitSign(text: string): (bool, string) {
    if text != "" && text[0] == '-' then (true, text[1..])
    else if text != "" && text[0] == '+' then (false, text[1..])
    else (false, text)
  }

  /** The decimal of a mantissa, once sign and exponent are off. */
  function ReadMantissa(negative: bool, mantissa: string, exp: int): Option<Dec> {
    var (intPart, fracPart) := SplitPoint(mantissa);
    if intPart == "" && fracPart == "" then None
    else
      var unscaled :- ReadInteger(intPart + fracPart);
      Some(Scaled(if negative then -unscaled else unscaled, |fracPart| - exp))
  }

  /** parseBigDecimal. */
  function ParseBigDecimal(text: string): Option<Dec> {
    var (negative, s) := SplitSign(text);
    var (mantissa, exp) :- SplitExponent(s);
    ReadMantissa(negative, mantissa, exp)
  }

  /** Zeros on the left until there is a digit before the point. */
  function PaddedToPoint(text: string, scale: nat): (s: string)
    ensures |s| > scale
  {
    if |text| <= scale then Repeat('0', scale + 1 - |text|) + text else text
  }

  function Pointed(digits: string, scale: nat): string
    requires scale <= |digits|
  {
    digits[..|digits| - scale] + ("." + digits[|digits| - scale..])
  }

  /** String. */
  function ToString(d: Dec): string {
    var digits := DecimalString(Abs(d.unscaled));
    (if d.unscaled < 0 then "-" else "") + (if d.scale == 0 then digits else Pointed(PaddedToPoint(digits, d.scale), d.scale))
  }

  // ------------------------------------------------------------------- reading

  lemma {:induction false} MarkerPast(a: string, rest: string)
    requires 'e' !in a && 'E' !in a
    ensures IndexOfMarker(a) == |a|
    ensures rest != "" && (rest[0] == 'e' || rest[0] == 'E') ==> IndexOfMarker(a + rest) == |a|
  {
    if a == "" {
    } else {
      assert (a + rest)[1..] == a[1..] + rest;
      MarkerPast(a[1..], rest);
    }
  }

  predicate Digits(s: string) {
    AllDigits(s, DECIMAL)
  }

  lemma DigitsOnly(s: string)
    requires Digits(s)
    ensures '.' !in s && 'e' !in s && 'E' !in s && '-' !in s && '+' !in s
  {
  }

  lemma UnsignedInteger(s: string)
    requires Digits(s) && s != ""
    ensures ReadInteger(s) == Some(Value(s, DECIMAL))
  {
    DigitsOnly(s);
    assert s[0] in s;
  }

  /** A well-formed numeral: sign, digits, an optional point with digits, an optional exponent. */
  datatype Numeral = Numeral(sign: string, whole: string, point: bool, fraction: string, marker: string, exponent: string)

  predicate WellFormed(n: Numeral) {
    && (n.sign == "" || n.sign == "-" || n.sign == "+")
    && Digits(n.whole) && Digits(n.fraction) && (n.whole != "" || n.fraction != "")
    && (n.fraction != "" ==> n.point)
    && (n.marker == "" || n.marker == "e" || n.marker == "E")
    && (n.marker == "" ==> n.exponent == "")
    && (n.marker != "" ==> ReadInteger(n.exponent).Some? && -MAX_EXPONENT <= ReadInteger(n.exponent).value <= MAX_EXPONENT)
  }

  function Mantissa(n: Numeral): string {
    n.whole + (if n.point then "." + n.fraction else "")
  }

  function Spelling(n: Numeral): string {
    n.sign + (Mantissa(n) + (n.marker + n.exponent))
  }

  function ExponentOf(n: Numeral): int
    requires WellFormed(n)
  {
    if n.marker == "" then 0 else ReadInteger(n.exponent).value
  }

  lemma MantissaStarts(n: Numeral)
    requires WellFormed(n)
    ensures var m := Mantissa(n);
            m != "" && m[0] != '-' && m[0] != '+' && 'e' !in m && 'E' !in m
  {
    hide ReadInteger;
    var m := Mantissa(n);
    DigitsOnly(n.whole);
    DigitsOnly(n.fraction);
    assert m[0] in m;
  }

  lemma SignSplits(n: Numeral)
    requires WellFormed(n)
    ensures SplitSign(Spelling(n)) == (n.sign == "-", Mantissa(n) + (n.marker + n.exponent))
  {
    MantissaStarts(n);
    hide ReadInteger, Digits, Mantissa;
    var s := Mantissa(n) + (n.marker + n.exponent);
    assert s[0] == Mantissa(n)[0];
    if n.sign == "" {
      assert Spelling(n) == s;
    } else {
      assert Spelling(n)[1..] == s && Spelling(n)[0] == n.sign[0];
    }
  }

  lemma ExponentSplits(n: Numeral)
    requires WellFormed(n)
    ensures SplitExponent(Mantissa(n) + (n.marker + n.exponent)) == Some((Mantissa(n), ExponentOf(n)))
  {
    MantissaStarts(n);
    var m := Mantissa(n);
    hide Digits, Mantissa, ReadInteger;
    if n.marker == "" {
      assert m + (n.marker + n.exponent) == m;
      MarkerPast(m, "");
    } else {
      assert n.marker == [n.marker[0]];
      SplitsAt(m, n.marker[0], n.exponent);
    }
  }

  lemma SplitsAt(m: string, marker: char, exponent: string)
    requires 'e' !in m && 'E' !in m && (marker == 'e' || marker == 'E')
    requires ReadInteger(exponent).Some? && -MAX_EXPONENT <= ReadInteger(exponent).value <= MAX_EXPONENT
    ensures SplitExponent(m + ([marker] + exponent)) == Some((m, ReadInteger(exponent).value))
  {
    hide IndexOfMarker, ReadInteger;
    var s := m + ([marker] + exponent);
    MarkerPast(m, [marker] + exponent);
    assert s[|m| + 1..] == exponent && s[..|m|] == m;
  }

  lemma PointSplits(n: Numeral)
    requires WellFormed(n)
    ensures SplitPoint(Mantissa(n)) == (n.whole, n.fraction)
  {
    DigitsOnly(n.whole);
    hide ReadInteger, Digits, IndexOf;
    var m := Mantissa(n);
    IndexPast(n.whole, '.', n.fraction);
    if n.point {
      assert m == n.whole + ['.'] + n.fraction;
      assert m[..|n.whole|] == n.whole && m[|n.whole| + 1..] == n.fraction;
    } else {
      assert m == n.whole;
    }
  }

  lemma SpellingParses(n: Numeral)
    requires WellFormed(n)
    ensures var v := Value(n.whole + n.fraction, DECIMAL);
            ParseBigDecimal(Spelling(n)) == Some(Scaled(if n.sign == "-" then -v else v, |n.fraction| - ExponentOf(n)))
  {
    SignSplits(n);
    ExponentSplits(n);
    MantissaReads(n);
    hide *;
    ParseParts(Spelling(n), n.sign == "-", Mantissa(n) + (n.marker + n.exponent), Mantissa(n), ExponentOf(n));
  }

  lemma ParseParts(text: string, negative: bool, s: string, mantissa: string, exp: int)
    requires SplitSign(text) == (negative, s) && SplitExponent(s) == Some((mantissa, exp))
    ensures ParseBigDecimal(text) == ReadMantissa(negative, mantissa, exp)
  {
    hide SplitSign, SplitExponent, ReadMantissa;
  }

  lemma MantissaReads(n: Numeral)
    requires WellFormed(n)
    ensures var v := Value(n.whole + n.fraction, DECIMAL);
            ReadMantissa(n.sign == "-", Mantissa(n), ExponentOf(n))
            == Some(Scaled(if n.sign == "-" then -v else v, |n.fraction| - ExponentOf(n)))
  {
    hide *;
    PointSplits(n);
    var digits := n.whole + n.fraction;
    DigitsTogether(n);
    UnsignedInteger(digits);
    MantissaParts(n.sign == "-", Mantissa(n), ExponentOf(n), n.whole, n.fraction, Value(digits, DECIMAL));
  }

  lemma DigitsTogether(n: Numeral)
    requires WellFormed(n)
    ensures Digits(n.whole + n.fraction) && n.whole + n.fraction != "" && (n.whole != "" || n.fraction != "")
  {
    hide ReadInteger;
  }

  lemma MantissaParts(negative: bool, mantissa: string, exp: int, whole: string, fraction: string, v: int)
    requires SplitPoint(mantissa) == (whole, fraction) && (whole != "" || fraction != "")
    requires ReadInteger(whole + fraction) == Some(v)
    ensures ReadMantissa(negative, mantissa, exp) == Some(Scaled(if negative then -v else v, |fraction| - exp))
  {
    hide SplitPoint, ReadInteger, Scaled;
  }

  /** Every well-formed numeral is read, and as the number it spells. */
  lemma NumeralsAreRead(n: Numeral)
    requires WellFormed(n)
    ensures var r := ParseBigDecimal(Spelling(n));
            var v := Value(n.whole + n.fraction, DECIMAL);
            && r.Some?
            && ValueOf(r.value) == Times((if n.sign == "-" then -v else v) as real, Ten(ExponentOf(n) - |n.fraction|))
  {
    hide ParseBigDecimal, Spelling, Ten, Times, ExponentOf, ValueOf, Value, Scaled;
    SpellingParses(n);
    var v := Value(n.whole + n.fraction, DECIMAL);
    ScaledValue(if n.sign == "-" then -v else v, |n.fraction| - ExponentOf(n));
  }

  lemma ScaledValue(unscaled: int, scale: int)
    ensures ValueOf(Scaled(unscaled, scale)) == Times(unscaled as real, Ten(0 - scale))
  {
    hide Ten, Times;
    if scale < 0 {
      ScaleUp(unscaled, -scale, -scale);
    }
  }

  // ---------------------------------------------------------------- round trips

  lemma PaddedReadsBack(d: Dec)
    ensures var digits := PaddedToPoint(DecimalString(Abs(d.unscaled)), d.scale);
            Digits(digits) && Value(digits, DECIMAL) == Abs(d.unscaled)
  {
    var digits := DecimalString(Abs(d.unscaled));
    DecimalStringReads(Abs(d.unscaled));
    if |digits| <= d.scale {
      LeadingZeros(d.scale + 1 - |digits|, digits, DECIMAL);
    }
  }

  /** What String writes, as a numeral. */
  function Written(d: Dec): Numeral {
    var text := DecimalString(Abs(d.unscaled));
    var digits := if d.scale == 0 then text else PaddedToPoint(text, d.scale);
    Numeral(if d.unscaled < 0 then "-" else "", digits[..|digits| - d.scale], d.scale > 0,
            digits[|digits| - d.scale..], "", "")
  }

  lemma StringIsSpelling(d: Dec)
    ensures Spelling(Written(d)) == ToString(d)
  {
    hide DecimalString, Pow10;
    var n := Written(d);
    if d.scale == 0 {
      assert n.whole == DecimalString(Abs(d.unscaled));
    }
    assert Mantissa(n) + (n.marker + n.exponent) == Mantissa(n);
  }

  lemma WrittenIsWellFormed(d: Dec)
    ensures WellFormed(Written(d))
    ensures Value(Written(d).whole + Written(d).fraction, DECIMAL) == Abs(d.unscaled)
  {
    DecimalStringReads(Abs(d.unscaled));
    PaddedReadsBack(d);
    hide DecimalString, PaddedToPoint;
    var text := DecimalString(Abs(d.unscaled));
    var digits := if d.scale == 0 then text else PaddedToPoint(text, d.scale);
    var n := Written(d);
    assert n.whole + n.fraction == digits;
  }

  /** Reading back what String writes gives the same unscaled integer and the same scale. */
  lemma StringRoundTrip(d: Dec)
    ensures ParseBigDecimal(ToString(d)) == Some(d)
  {
    var n := Written(d);
    assert |n.fraction| == d.scale && n.marker == "" && (n.sign == "-" <==> d.unscaled < 0);
    hide Spelling, ParseBigDecimal, ToString, Written, Value, WellFormed;
    StringIsSpelling(d);
    WrittenIsWellFormed(d);
    SpellingParses(n);
  }

  /** Printing what was read and reading it again changes nothing, for any text that reads. */
  lemma ParsePrintParse(text: string)
    requires ParseBigDecimal(text).Some?
    ensures ParseBigDecimal(ToString(ParseBigDecimal(text).value)) == ParseBigDecimal(text)
  {
    StringRoundTrip(ParseBigDecimal(text).value);
  }

  /** Printed decimals are told apart: two texts are equal only when the decimals are. */
  lemma StringIsInjective(a: Dec, b: Dec)
    requires ToString(a) == ToString(b)
    ensures a == b
  {
    StringRoundTrip(a);
    StringRoundTrip(b);
  }
}

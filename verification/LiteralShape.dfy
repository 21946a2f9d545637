/**
 How a folded decimal is written (decimalLit in sqlglot/simplify.go), said of
 its text, and the limits of the fold in figures.
 */
module LiteralShape {
  import opened Options
  import opened Arithmetic
  import opened Numerals
  import opened MachineInts
  import opened Decimals
  import opened DecimalDivision
  import opened DecimalText
  import opened DecimalFold
  import Strings

  // -------------------------------------------------------------------- the text

  predicate AllFigures(s: string) {
    s != "" && forall k :: 0 <= k < |s| ==> '0' <= s[k] <= '9'
  }

  /** Figures, one point, and figures. */
  predicate IsPointed(text: string, point: nat) {
    && point < |text| && text[point] == '.'
    && AllFigures(text[..point]) && AllFigures(text[point + 1..])
  }

  lemma DigitsAreFigures(s: string)
    requires Digits(s) && s != ""
    ensures AllFigures(s)
  {
    forall k | 0 <= k < |s| ensures '0' <= s[k] <= '9' {
      assert IsDigit(s[k], DECIMAL);
    }
  }

  lemma IsPointedText(whole: string, fraction: string)
    requires AllFigures(whole) && AllFigures(fraction)
    ensures IsPointed(whole + ("." + fraction), |whole|)
  {
    var text := whole + ("." + fraction);
    assert text[..|whole|] == whole && text[|whole| + 1..] == fraction;
  }

  lemma WholeText(digits: string)
    requires Digits(digits) && digits != ""
    ensures IsPointed(digits + ".0", |digits|)
  {
    DigitsAreFigures(digits);
    DigitsAreFigures("0");
    hide IsPointed, AllFigures;
    IsPointedText(digits, "0");
    assert digits + ".0" == digits + ("." + "0");
  }

  lemma FractionText(padded: string, scale: nat)
    requires Digits(padded) && 0 < scale < |padded|
    ensures IsPointed(Pointed(padded, scale), |padded| - scale)
  {
    hide IsPointed, AllFigures;
    DigitsAreFigures(padded[..|padded| - scale]);
    DigitsAreFigures(padded[|padded| - scale..]);
    IsPointedText(padded[..|padded| - scale], padded[|padded| - scale..]);
  }

  lemma PointedText(d: Dec) returns (point: nat)
    requires d.unscaled >= 0
    ensures IsPointed(LiteralText(d), point)
  {
    hide DecimalString, IsPointed, AllFigures, AllDigits, PaddedToPoint, Pointed, Value;
    var digits := DecimalString(d.unscaled);
    DecimalStringReads(d.unscaled);
    if d.scale == 0 {
      WholeText(digits);
      LiteralOfWhole(d);
      return |digits|;
    }
    PaddedDigits(digits, d.scale);
    var padded := PaddedToPoint(digits, d.scale);
    FractionText(padded, d.scale);
    LiteralOfFraction(d);
    return |padded| - d.scale;
  }

  lemma LiteralOfWhole(d: Dec)
    requires d.unscaled >= 0 && d.scale == 0
    ensures LiteralText(d) == DecimalString(d.unscaled) + ".0"
  {
    hide DecimalString;
    assert ToString(d) == DecimalString(d.unscaled);
  }

  lemma LiteralOfFraction(d: Dec)
    requires d.unscaled >= 0 && d.scale > 0
    ensures LiteralText(d) == Pointed(PaddedToPoint(DecimalString(d.unscaled), d.scale), d.scale)
  {
    hide DecimalString, PaddedToPoint, Pointed;
  }

  lemma PaddedDigits(digits: string, scale: nat)
    requires Digits(digits)
    ensures Digits(PaddedToPoint(digits, scale))
  {
  }

  /** Pointed text has one point, no sign and no exponent, so no integer is read of it, and no marker in it. */
  lemma PointedIsNoInteger(text: string, point: nat)
    requires IsPointed(text, point)
    ensures forall k :: 0 <= k < |text| ==> (text[k] == '.' <==> k == point) && (k != point ==> '0' <= text[k] <= '9')
    ensures ReadInteger(text).None?
  {
    forall k | 0 <= k < |text| && k != point ensures '0' <= text[k] <= '9' {
      if k < point {
        assert text[k] == text[..point][k];
      } else {
        assert text[k] == text[point + 1..][k - point - 1];
      }
    }
    assert text[0] == text[..point][0];
    assert !IsDigit(text[point], DECIMAL);
  }

  lemma {:induction false} SpelledWithoutZero(n: nat)
    requires n > 0
    ensures Spell(n, DECIMAL) != "" && Spell(n, DECIMAL)[0] != '0'
  {
    DivSmaller(n, 10);
    if n < 10 {
      assert n / 10 == 0 && Spell(0, DECIMAL) == "";
    } else {
      SpelledWithoutZero(n / 10);
    }
  }

  /** No zero leads a literal but the one before the point. */
  lemma NoIdleZeros(d: Dec)
    requires d.unscaled >= 0
    ensures var text := LiteralText(d);
            |text| >= 2 && (text[0] == '0' ==> text[1] == '.')
  {
    var digits := DecimalString(d.unscaled);
    if d.unscaled > 0 {
      SpelledWithoutZero(d.unscaled);
    }
    hide DecimalString;
    if d.scale == 0 {
      LiteralOfWhole(d);
    } else {
      LiteralOfFraction(d);
      if |digits| <= d.scale {
        assert PaddedToPoint(digits, d.scale) == "0" + (Repeat('0', d.scale - |digits|) + digits);
      }
    }
  }

  // ------------------------------------------------------------------- the literal

  /** A number literal with a point in it, under a Neg exactly where it is negative. */
  ghost predicate IsDecimalLiteral(e: Number, negative: bool) {
    if negative then e.Neg? && e.operand.Literal? && HasPoint(e.operand.text) else e.Literal? && HasPoint(e.text)
  }

  ghost predicate HasPoint(text: string) {
    exists point: nat :: IsPointed(text, point)
  }

  lemma LiteralIsDecimal(d: Dec)
    ensures var e := DecimalLit(d);
            IsDecimalLiteral(e, d.unscaled < 0) && ReadInteger((if e.Neg? then e.operand else e).text).None?
  {
    var m := if d.unscaled < 0 then Dec(-d.unscaled, d.scale) else d;
    var literal := Literal(LiteralText(m));
    hide LiteralText, IsPointed, ReadInteger;
    var point := PointedText(m);
    PointedIsNoInteger(literal.text, point);
    assert HasPoint(literal.text);
    hide HasPoint;
    assert DecimalLit(d) == if d.unscaled < 0 then Neg(literal) else literal;
  }

  /** What the fold answers is such a literal, whatever it was given, and never reads as an integer. */
  lemma FoldWritesDecimals(op: Operator, a: Number, b: Number)
    requires Fold(op, a, b).Some?
    ensures DecimalOf(a).Some? && DecimalOf(b).Some? && Compute(op, DecimalOf(a).value, DecimalOf(b).value).Some?
    ensures var r := Compute(op, DecimalOf(a).value, DecimalOf(b).value).value;
            var e := Fold(op, a, b).value;
            && IsDecimalLiteral(e, ValueOf(r) < 0.0)
            && ReadInteger((if e.Neg? then e.operand else e).text).None?
  {
    hide Compute, DecimalOf, DecimalLit, IsDecimalLiteral, DigitCount, ValueOf, ReadInteger;
    var r := Compute(op, DecimalOf(a).value, DecimalOf(b).value).value;
    SignOfValue(r);
    LiteralIsDecimal(r);
  }

  lemma SignOfValue(d: Dec)
    ensures ValueOf(d) < 0.0 <==> d.unscaled < 0
  {
    TenPositive(0 - d.scale);
    TimesSigns(d.unscaled as real, Ten(0 - d.scale));
    hide Ten;
  }

  /** 3.0 / 1.5 is 2.0, and not 2. */
  lemma TwoPointZero()
    ensures DecimalLit(Dec(2, 0)) == Literal("2.0") && DecimalLit(Dec(-2, 0)) == Neg(Literal("2.0"))
  {
    assert DecimalString(2) == "2";
  }

  // -------------------------------------------------------------------- the figures

  /** A result is written exactly if it has at most 40 digits. */
  lemma FortyDigits(op: Operator, a: Number, b: Number)
    requires DecimalOf(a).Some? && DecimalOf(b).Some? && Compute(op, DecimalOf(a).value, DecimalOf(b).value).Some?
    ensures Fold(op, a, b).Some? <==>
              Abs(Compute(op, DecimalOf(a).value, DecimalOf(b).value).value.unscaled) < Pow10(40)
  {
    hide DecimalOf, Compute, DecimalLit, DecimalString, Pow10;
    DecimalWidth(Abs(Compute(op, DecimalOf(a).value, DecimalOf(b).value).value.unscaled), 40);
  }

  /** Sums and differences keep the longer fraction, products the places of both. */
  lemma PlacesOfResults(a: Dec, b: Dec)
    ensures Add(a, b).scale == Sub(a, b).scale && Add(a, b).scale in [a.scale, b.scale]
    ensures Add(a, b).scale >= a.scale && Add(a, b).scale >= b.scale
    ensures Mul(a, b).scale == a.scale + b.scale
  {
    hide Pow10;
  }

  lemma SmallerShift(au: nat, bu: nat, j: nat, k: nat)
    requires bu > 0 && j <= k
    ensures au * Pow10(j) / bu <= au * Pow10(k) / bu
  {
    PowAdds(10, j, k - j);
    PowPositive(10, k - j);
    var x, p := au * Pow10(j), Pow10(k - j);
    assert au * Pow10(k) == x * p;
    hide Pow10;
    assert x * p >= x by {
      MulNat(x, p - 1);
      assert x * p == x + x * (p - 1);
    }
    DivBelow(x, bu, x * p / bu + 1);
    DivBelow(x * p, bu, x * p / bu + 1);
  }

  /** A quotient that comes out at the k-th place, and no sooner, with at most 28 digits, is written to just that place. */
  lemma ExactQuotientPlaces(a: Dec, b: Dec, k: nat)
    requires a.unscaled != 0 && b.unscaled != 0
    requires Abs(a.unscaled) * Pow10(k) % Abs(b.unscaled) == 0
    requires forall j: nat :: j < k ==> Abs(a.unscaled) * Pow10(j) % Abs(b.unscaled) != 0
    requires Abs(a.unscaled) * Pow10(k) / Abs(b.unscaled) < Pow10(28)
    ensures var q, places := Abs(a.unscaled) * Pow10(k) / Abs(b.unscaled), k + a.scale - b.scale;
            var signed := if (a.unscaled < 0) != (b.unscaled < 0) then -q else q;
            Div(a, b, DECIMAL_PRECISION)
            == Some(if places >= 0 then Dec(signed, places) else Dec(signed * Pow10(-places), 0))
  {
    var au, bu := Abs(a.unscaled), Abs(b.unscaled);
    var s := StopShift(au, bu, DECIMAL_PRECISION, 0);
    assert Stops(au, bu, DECIMAL_PRECISION, k);
    if s < k {
      SmallerShift(au, bu, s, k);
      QuotientNat(au * Pow10(s), bu);
      DecimalWidth(au * Pow10(s) / bu, 28);
    }
    QuotientNat(au * Pow10(k), bu);
    hide Pow10, StopShift, Stops;
    SignedTimes(au * Pow10(k) / bu, Pow10(if b.scale - a.scale - k > 0 then b.scale - a.scale - k else 0));
  }

  lemma SignedTimes(q: int, p: int)
    ensures -(q * p) == -q * p
  {
  }

  /** Any other quotient has 28 digits, or is the power of ten above them. */
  lemma InexactQuotientDigits(a: Dec, b: Dec) returns (c: int, e: int)
    requires a.unscaled != 0 && b.unscaled != 0
    requires RemainderAt(a, b, StopOf(a, b, DECIMAL_PRECISION)) != 0
    ensures Pow10(27) <= Abs(c) <= Pow10(28)
    ensures Div(a, b, DECIMAL_PRECISION) == Some(if e > 0 then Dec(c * Pow10(e), 0) else Dec(c, -e))
  {
    hide Pow10, RemainderAt, StopOf, Div;
    c, e := InexactDigitsAt(a, b, DECIMAL_PRECISION);
  }

  lemma InexactDigitsAt(a: Dec, b: Dec, prec: nat) returns (c: int, e: int)
    requires prec >= 1 && a.unscaled != 0 && b.unscaled != 0 && RemainderAt(a, b, StopOf(a, b, prec)) != 0
    ensures Pow10(prec - 1) <= Abs(c) <= Pow10(prec)
    ensures Div(a, b, prec) == Some(if e > 0 then Dec(c * Pow10(e), 0) else Dec(c, -e))
  {
    var s := StopOf(a, b, prec);
    var d := DigitCount(QuotientAt(a, b, s)) - prec;
    var kept := RoundHalfEven(QuotientAt(a, b, s), d, true);
    InexactDiv(a, b, prec);
    hide *;
    DivRounds(a, b, prec);
    NormalizedAs(kept, ExponentAt(a, b, s, d), Sign(a, b));
    c, e := Sign(a, b) * kept, ExponentAt(a, b, s, d);
  }

  lemma NormalizedAs(kept: nat, e: int, sign: int)
    requires sign == 1 || sign == -1
    ensures var c := sign * kept;
            NormalizeDecimal(kept, e, sign) == if e > 0 then Dec(c * Pow10(e), 0) else Dec(c, -e)
  {
    hide Pow10;
    if e > 0 {
      SignedTimes(kept, Pow10(e));
    }
  }

  lemma InexactDiv(a: Dec, b: Dec, prec: nat)
    requires prec >= 1 && a.unscaled != 0 && b.unscaled != 0 && RemainderAt(a, b, StopOf(a, b, prec)) != 0
    ensures var s := StopOf(a, b, prec);
            var d := DigitCount(QuotientAt(a, b, s)) - prec;
            Div(a, b, prec)
            == Some(NormalizeDecimal(RoundHalfEven(QuotientAt(a, b, s), d, true), ExponentAt(a, b, s, d), Sign(a, b)))
  {
    hide Pow10, StopShift, RoundHalfEven, DigitCount, NormalizeDecimal;
  }

  /** Exponents are read up to 400 and no further. */
  lemma ExponentsUpTo400(digits: string, e: int)
    requires Digits(digits) && digits != ""
    ensures var text := digits + ("e" + (if e < 0 then "-" else "") + DecimalString(Abs(e)));
            ParseBigDecimal(text).Some? <==> -400 <= e <= 400
  {
    var exponent := (if e < 0 then "-" else "") + DecimalString(Abs(e));
    assert digits + ("e" + (if e < 0 then "-" else "") + DecimalString(Abs(e))) == digits + ("e" + exponent);
    ExponentRead(e);
    hide DecimalString, ParseBigDecimal, ReadInteger;
    if -400 <= e <= 400 {
      SmallExponentRead(digits, exponent);
    } else {
      LargeExponentDeclined(digits, exponent);
    }
  }

  lemma SmallExponentRead(digits: string, exponent: string)
    requires Digits(digits) && digits != "" && ReadInteger(exponent).Some? && -400 <= ReadInteger(exponent).value <= 400
    ensures ParseBigDecimal(digits + ("e" + exponent)).Some?
  {
    var n := Numeral("", digits, false, "", "e", exponent);
    assert Spelling(n) == digits + ("e" + exponent);
    hide ReadInteger, ParseBigDecimal, Spelling, Value;
    SpellingParses(n);
  }

  lemma LargeExponentDeclined(digits: string, exponent: string)
    requires Digits(digits) && digits != "" && ReadInteger(exponent).Some?
    requires ReadInteger(exponent).value < -400 || 400 < ReadInteger(exponent).value
    ensures ParseBigDecimal(digits + ("e" + exponent)).None?
  {
    var text := digits + ("e" + exponent);
    DigitsOnly(digits);
    MarkerPast(digits, "e" + exponent);
    assert text[|digits| + 1..] == exponent && text[..|digits|] == digits;
    NoSign(digits, text);
    hide IndexOfMarker, ReadInteger, SplitSign, ReadMantissa;
    assert SplitExponent(text).None?;
  }

  lemma NoSign(digits: string, text: string)
    requires Digits(digits) && digits != "" && |digits| <= |text| && text[..|digits|] == digits
    ensures SplitSign(text) == (false, text)
  {
    DigitsOnly(digits);
    assert text[0] == digits[0] && digits[0] in digits;
  }

  lemma ExponentRead(e: int)
    ensures ReadInteger((if e < 0 then "-" else "") + DecimalString(Abs(e))) == Some(e)
  {
    var digits := DecimalString(Abs(e));
    DecimalStringReads(Abs(e));
    hide DecimalString;
    DigitsOnly(digits);
    assert digits[0] in digits;
    var text := (if e < 0 then "-" else "") + digits;
    assert e < 0 ==> text[1..] == digits;
    assert e >= 0 ==> text == digits;
  }

  /** A text, cut at its sign, its point and its exponent. */
  datatype Cut = Cut(sign: string, whole: string, dotted: bool, fraction: string, marker: string, exponent: string)

  function Uncut(c: Cut): string {
    c.sign + ((c.whole + (if c.dotted then "." + c.fraction else "")) + (c.marker + c.exponent))
  }

  predicate IsCut(c: Cut) {
    && (c.sign == "" || c.sign == "+" || c.sign == "-") && (c.marker == "" || c.marker == "e" || c.marker == "E")
    && (!c.dotted ==> c.fraction == "") && '.' !in c.whole && ReadInteger(c.whole + c.fraction).Some?
    && if c.marker == "" then c.exponent == ""
       else ReadInteger(c.exponent).Some? && -400 <= ReadInteger(c.exponent).value <= 400
  }

  function CutExponent(c: Cut): int
    requires IsCut(c)
  {
    if c.marker == "" then 0 else ReadInteger(c.exponent).value
  }

  /** Nothing is read but a sign, figures with perhaps a point among them, and an exponent in range; the figures together
      are an integer, so they may have a sign of their own. */
  lemma OnlyNumeralsAreRead(text: string) returns (c: Cut)
    requires ParseBigDecimal(text).Some?
    ensures IsCut(c) && text == Uncut(c)
    ensures var v := ReadInteger(c.whole + c.fraction).value;
            ValueOf(ParseBigDecimal(text).value)
            == Times((if c.sign == "-" then -v else v) as real, Ten(CutExponent(c) - |c.fraction|))
  {
    hide *;
    ParseSteps(text);
    c := CutOf(text);
    WorthOf(SplitSign(text).0, ReadInteger(c.whole + c.fraction).value, |c.fraction|, CutExponent(c));
  }

  lemma CutOf(text: string) returns (c: Cut)
    requires SplitExponent(SplitSign(text).1).Some?
    requires var parts := SplitPoint(SplitExponent(SplitSign(text).1).value.0); ReadInteger(parts.0 + parts.1).Some?
    ensures IsCut(c) && text == Uncut(c) && (SplitSign(text).0 <==> c.sign == "-")
    ensures SplitPoint(SplitExponent(SplitSign(text).1).value.0) == (c.whole, c.fraction)
    ensures SplitExponent(SplitSign(text).1).value.1 == CutExponent(c)
  {
    hide SplitSign, SplitExponent, SplitPoint, ReadInteger;
    var sign := SignCut(text);
    var mantissa, marker, exponent := ExponentCut(SplitSign(text).1);
    var whole, dotted, fraction := PointCut(mantissa);
    c := Cut(sign, whole, dotted, fraction, marker, exponent);
  }

  lemma WorthOf(negative: bool, v: int, places: nat, e: int)
    ensures var signed := if negative then -v else v;
            ValueOf(Scaled(signed, places - e)) == Times(signed as real, Ten(e - places))
  {
    hide ValueOf, Scaled, Times, Ten;
    ScaledValue(if negative then -v else v, places - e);
    assert 0 - (places - e) == e - places;
  }

  lemma ParseSteps(text: string)
    requires ParseBigDecimal(text).Some?
    ensures SplitExponent(SplitSign(text).1).Some?
    ensures var (negative, s) := SplitSign(text);
            var (mantissa, e) := SplitExponent(s).value;
            var (whole, fraction) := SplitPoint(mantissa);
            && ReadInteger(whole + fraction).Some?
            && var v := ReadInteger(whole + fraction).value;
               ParseBigDecimal(text).value == Scaled(if negative then -v else v, |fraction| - e)
  {
    hide SplitSign, SplitExponent, SplitPoint, ReadInteger, Scaled;
  }

  lemma SignCut(text: string) returns (sign: string)
    ensures (sign == "" || sign == "+" || sign == "-") && text == sign + SplitSign(text).1 && (SplitSign(text).0 <==> sign == "-")
  {
    if text != "" && (text[0] == '-' || text[0] == '+') {
      sign := [text[0]];
    } else {
      sign := "";
    }
  }

  lemma ExponentCut(s: string) returns (mantissa: string, marker: string, exponent: string)
    requires SplitExponent(s).Some?
    ensures s == mantissa + (marker + exponent) && (marker == "" || marker == "e" || marker == "E")
    ensures mantissa == SplitExponent(s).value.0
    ensures if marker == "" then exponent == "" && SplitExponent(s).value.1 == 0
            else ReadInteger(exponent) == Some(SplitExponent(s).value.1) && -400 <= SplitExponent(s).value.1 <= 400
  {
    hide ReadInteger;
    var i := IndexOfMarker(s);
    if i == |s| {
      mantissa, marker, exponent := s, "", "";
    } else {
      mantissa, marker, exponent := s[..i], [s[i]], s[i + 1..];
      assert s == s[..i] + ([s[i]] + s[i + 1..]);
    }
  }

  lemma PointCut(mantissa: string) returns (whole: string, dotted: bool, fraction: string)
    ensures mantissa == whole + (if dotted then "." + fraction else "") && '.' !in whole && (!dotted ==> fraction == "")
    ensures SplitPoint(mantissa) == (whole, fraction)
  {
    var i := Strings.IndexOf(mantissa, '.');
    if i == |mantissa| {
      whole, dotted, fraction := mantissa, false, "";
    } else {
      whole, dotted, fraction := mantissa[..i], true, mantissa[i + 1..];
      assert mantissa == mantissa[..i] + ([mantissa[i]] + mantissa[i + 1..]);
    }
  }
}

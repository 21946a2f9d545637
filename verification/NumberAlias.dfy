/** Aliases for number literals (numberAlias in sqlglot/anonymize.go). */
module NumberAlias {
  import opened Arithmetic
  import opened Numerals
  import opened Runes
  import opened Strings

  const LONGEST: nat := 4000

  /** A number literal taken apart where the code cuts it. */
  datatype Parts = Parts(integer: string, dotted: bool, fraction: string, sep: string, sign: string, exponent: string)

  /** The widths of the parts, in bytes, and what is kept of the text as it is. */
  datatype Shape = Shape(integer: nat, dotted: bool, fraction: nat, sep: string, sign: string, exponent: nat)

  function Separator(text: string): string {
    if 'e' in text then "e" else if 'E' in text then "E" else ""
  }

  /** The text before and after the first separator. */
  function CutExponent(text: string, sep: string): (string, string) {
    if sep == "" then (text, "")
    else
      var i := IndexOf(text, sep[0]);
      if i == |text| then (text, "") else (text[..i], text[i + 1..])
  }

  function CutSign(exponent: string): (string, string) {
    if exponent != "" && (exponent[0] == '-' || exponent[0] == '+') then (exponent[..1], exponent[1..])
    else ("", exponent)
  }

  function CutPoint(mantissa: string): (string, bool, string) {
    var i := IndexOf(mantissa, '.');
    if i == |mantissa| then (mantissa, false, "") else (mantissa[..i], true, mantissa[i + 1..])
  }

  function PartsOf(text: string): Parts {
    var sep := Separator(text);
    var (mantissa, tail) := CutExponent(text, sep);
    var (sign, exponent) := CutSign(tail);
    var (integer, dotted, fraction) := CutPoint(mantissa);
    Parts(integer, dotted, fraction, sep, sign, exponent)
  }

  function ShapeOf(text: string): Shape {
    var p := PartsOf(text);
    Shape(ByteLength(p.integer), p.dotted, ByteLength(p.fraction), p.sep, p.sign, ByteLength(p.exponent))
  }

  /** The least value of `width` digits, and how many there are. A width of 0 counts as 1 here. */
  function Least(width: nat): nat {
    Pow10(if width == 0 then 0 else width - 1)
  }

  function Span(width: nat): (n: nat)
    ensures n >= 9
  {
    9 * Least(width)
  }

  predicate HasExponent(shape: Shape) {
    shape.sep != "" && shape.exponent > 0
  }

  function MantissaWidth(shape: Shape): nat {
    shape.integer + shape.fraction
  }

  /** How many values the mantissa can take, and how many the exponent. */
  function MantissaSpan(shape: Shape): (n: nat)
    ensures n >= 1
  {
    Span(MantissaWidth(shape))
  }

  function ExponentSpan(shape: Shape): (n: nat)
    ensures n >= 1
  {
    if HasExponent(shape) then Span(shape.exponent) else 1
  }

  /** The counter's mixed-radix digits. */
  function Low(counter: nat, shape: Shape): nat {
    counter % MantissaSpan(shape)
  }

  function High(counter: nat, shape: Shape): nat {
    QuotientNat(counter, MantissaSpan(shape));
    counter / MantissaSpan(shape) % ExponentSpan(shape)
  }

  function MantissaDigits(counter: nat, shape: Shape): string {
    DecimalString(Low(counter, shape) + Least(MantissaWidth(shape)))
  }

  function ExponentDigits(counter: nat, shape: Shape): string {
    if HasExponent(shape) then DecimalString(High(counter, shape) + Least(shape.exponent)) else ""
  }

  /** The parts of the alias: the counter's mantissa digits cut at the point, and its exponent digits. */
  function AliasParts(counter: nat, shape: Shape): Parts {
    AliasDigits(counter, shape);
    var digits := MantissaDigits(counter, shape);
    var cut := if shape.dotted then shape.integer else |digits|;
    Parts(digits[..cut], shape.dotted, digits[cut..], shape.sep, shape.sign, ExponentDigits(counter, shape))
  }

  function Mantissa(p: Parts): string {
    p.integer + (if p.dotted then "." + p.fraction else "")
  }

  function Joined(p: Parts): string {
    Mantissa(p) + (if p.sep == "" then "" else p.sep + (p.sign + p.exponent))
  }

  predicate IsDecimalDigit(c: char) {
    '0' <= c <= '9'
  }

  /** A literal too long for a counter: its first digit a one and the others zeros. */
  function Blurred(text: string): (out: string)
    ensures |out| == |text|
  {
    seq(|text|, k requires 0 <= k < |text| =>
      if !IsDecimalDigit(text[k]) then text[k]
      else if exists j :: 0 <= j < k && IsDecimalDigit(text[j]) then '0'
      else '1')
  }

  /** numberAlias. */
  function NumberAliasFor(counter: nat, text: string): string {
    if ByteLength(text) > LONGEST then Blurred(text) else Joined(AliasParts(counter, ShapeOf(text)))
  }

  /** How many counters have aliases of their own. */
  function Capacity(shape: Shape): nat {
    MantissaSpan(shape) * ExponentSpan(shape)
  }

  /** The counter an alias of this shape spells: mixed radix, the mantissa before the exponent. */
  function Decode(alias: string, shape: Shape): int {
    var p := PartsOf(alias);
    var low := Value(p.integer + p.fraction, DECIMAL) - Least(MantissaWidth(shape));
    var high := if HasExponent(shape) then Value(p.exponent, DECIMAL) - Least(shape.exponent) else 0;
    low + MantissaSpan(shape) * high
  }

  // ------------------------------------------------------------------- the digits

  /** Adding the least value makes the width exact. */
  lemma WidthIsExact(r: nat, width: nat)
    requires r < Span(width)
    ensures |DecimalString(r + Least(width))| == if width == 0 then 1 else width
    ensures AllDigits(DecimalString(r + Least(width)), DECIMAL)
    ensures Value(DecimalString(r + Least(width)), DECIMAL) == r + Least(width)
  {
    var w := if width == 0 then 1 else width;
    assert Pow10(w) == 10 * Least(width);
    DecimalWidth(r + Least(width), w);
    if w > 1 {
      DecimalWidth(r + Least(width), w - 1);
    }
    DecimalStringReads(r + Least(width));
  }

  /** A shape that some text has. */
  predicate Sensible(shape: Shape) {
    && (!shape.dotted ==> shape.fraction == 0)
    && (shape.sep == "" || shape.sep == "e" || shape.sep == "E")
    && (shape.sign == "" || shape.sign == "-" || shape.sign == "+")
    && (shape.sep == "" ==> shape.sign == "" && shape.exponent == 0)
  }

  lemma ShapeIsSensible(text: string)
    ensures Sensible(ShapeOf(text))
  {
    hide IndexOf;
    var p := PartsOf(text);
    if p.sign != "" {
      assert |p.sign| == 1;
    }
    assert !p.dotted ==> p.fraction == "" && ByteLength("") == 0;
  }

  lemma AliasDigits(counter: nat, shape: Shape)
    ensures var digits := MantissaDigits(counter, shape);
            && |digits| == (if MantissaWidth(shape) == 0 then 1 else MantissaWidth(shape))
            && AllDigits(digits, DECIMAL)
            && Value(digits, DECIMAL) == Low(counter, shape) + Least(MantissaWidth(shape))
    ensures var digits := ExponentDigits(counter, shape);
            && |digits| == (if HasExponent(shape) then shape.exponent else 0)
            && AllDigits(digits, DECIMAL)
            && (HasExponent(shape) ==> Value(digits, DECIMAL) == High(counter, shape) + Least(shape.exponent))
  {
    hide Span, Least, DecimalString, Value, High;
    WidthIsExact(Low(counter, shape), MantissaWidth(shape));
    if HasExponent(shape) {
      assert High(counter, shape) < Span(shape.exponent) by {
        HighFits(counter, shape);
      }
      WidthIsExact(High(counter, shape), shape.exponent);
    }
  }

  lemma HighFits(counter: nat, shape: Shape)
    ensures High(counter, shape) < ExponentSpan(shape)
  {
  }

  // ------------------------------------------------------- cutting what was joined

  /** Parts that cutting gives back: digits, and markers where they belong. */
  predicate Clean(p: Parts) {
    && AllDigits(p.integer, DECIMAL) && AllDigits(p.fraction, DECIMAL) && AllDigits(p.exponent, DECIMAL)
    && (!p.dotted ==> p.fraction == "")
    && (p.sep == "" || p.sep == "e" || p.sep == "E")
    && (p.sign == "" || p.sign == "-" || p.sign == "+")
    && (p.sep == "" ==> p.sign == "" && p.exponent == "")
  }

  lemma DigitsHoldNoMarker(s: string)
    requires AllDigits(s, DECIMAL)
    ensures '.' !in s && 'e' !in s && 'E' !in s
    ensures s != "" ==> s[0] != '-' && s[0] != '+'
  {
    assert s != "" ==> IsDigit(s[0], DECIMAL);
  }

  lemma SeparatorOfJoined(p: Parts)
    requires Clean(p)
    ensures Separator(Joined(p)) == p.sep && 'e' !in Mantissa(p) && 'E' !in Mantissa(p)
  {
    DigitsHoldNoMarker(p.integer);
    DigitsHoldNoMarker(p.fraction);
    DigitsHoldNoMarker(p.exponent);
    hide AllDigits;
    var m, text := Mantissa(p), Joined(p);
    assert 'e' !in m && 'E' !in m;
    if p.sep != "" {
      assert text[|m|] == p.sep[0];
      assert 'e' !in p.sign && 'E' !in p.sign;
      assert p.sep[0] != 'e' ==> 'e' !in text;
    } else {
      assert text == m;
    }
  }

  lemma ExponentCut(m: string, sep: string, tail: string)
    requires 'e' !in m && 'E' !in m
    ensures sep == "" ==> CutExponent(m, sep) == (m, "")
    ensures sep == "e" || sep == "E" ==> CutExponent(m + (sep + tail), sep) == (m, tail)
  {
    hide IndexOf;
    if sep != "" {
      var text := m + (sep + tail);
      if sep == "e" || sep == "E" {
        assert text == m + [sep[0]] + tail;
        IndexPast(m, sep[0], tail);
        assert text[..|m|] == m && text[|m| + 1..] == tail;
      }
    }
  }

  lemma SignCut(sign: string, exponent: string)
    requires sign == "" || sign == "-" || sign == "+"
    requires exponent != "" ==> exponent[0] != '-' && exponent[0] != '+'
    ensures CutSign(sign + exponent) == (sign, exponent)
  {
    if sign == "" {
      assert sign + exponent == exponent;
    }
  }

  lemma PointCut(integer: string, dotted: bool, fraction: string)
    requires '.' !in integer && (!dotted ==> fraction == "")
    ensures CutPoint(integer + (if dotted then "." + fraction else "")) == (integer, dotted, fraction)
  {
    hide IndexOf;
    IndexPast(integer, '.', fraction);
    if dotted {
      var m := integer + ['.'] + fraction;
      assert integer + ("." + fraction) == m;
      assert m[..|integer|] == integer && m[|integer| + 1..] == fraction;
    } else {
      assert integer + "" == integer;
    }
  }

  lemma PartsOfJoined(p: Parts)
    requires Clean(p)
    ensures PartsOf(Joined(p)) == p
  {
    SeparatorOfJoined(p);
    DigitsHoldNoMarker(p.integer);
    DigitsHoldNoMarker(p.exponent);
    var m := Mantissa(p);
    ExponentCut(m, p.sep, p.sign + p.exponent);
    SignCut(p.sign, p.exponent);
    PointCut(p.integer, p.dotted, p.fraction);
    assert p.sep == "" ==> Joined(p) == m && p.sign + p.exponent == "";
    hide Separator, CutExponent, CutSign, CutPoint, AllDigits;
  }

  lemma AliasPartsAreClean(counter: nat, shape: Shape)
    requires Sensible(shape)
    ensures var p := AliasParts(counter, shape);
            && Clean(p) && p.integer + p.fraction == MantissaDigits(counter, shape)
            && (MantissaWidth(shape) > 0 ==> |p.integer| == shape.integer && |p.fraction| == shape.fraction)
            && |p.exponent| == shape.exponent
  {
    AliasDigits(counter, shape);
    hide MantissaDigits, ExponentDigits, Span, Least, Value;
  }

  // ------------------------------------------------------------------- theorems

  /** The mixed-radix digits make up the counter exactly while it is below the product of the radices. */
  lemma MixedRadix(counter: nat, span: nat, spanE: nat)
    requires span >= 1 && spanE >= 1
    ensures counter % span + span * (counter / span % spanE) == counter <==> counter < span * spanE
  {
    var q := counter / span;
    Rebuild(counter, span);
    DivBelow(counter, span, 0);
    DivBelow(counter, span, spanE);
    if q < spanE {
      DivModIs(q, spanE, 0, q);
    } else {
      MulGrows(span, q % spanE, q);
    }
  }

  lemma AliasValue(counter: nat, text: string)
    requires ByteLength(text) <= LONGEST
    ensures var shape := ShapeOf(text);
            Decode(NumberAliasFor(counter, text), shape) == Low(counter, shape) + MantissaSpan(shape) * High(counter, shape)
  {
    hide *;
    var shape := ShapeOf(text);
    ShapeIsSensible(text);
    AliasPartsAreClean(counter, shape);
    PartsOfJoined(AliasParts(counter, shape));
    AliasDigits(counter, shape);
    DecodeJoined(counter, text);
  }

  lemma DecodeJoined(counter: nat, text: string)
    requires ByteLength(text) <= LONGEST
    requires var p := AliasParts(counter, ShapeOf(text));
             PartsOf(Joined(p)) == p && p.integer + p.fraction == MantissaDigits(counter, ShapeOf(text))
    requires var shape := ShapeOf(text);
             && Value(MantissaDigits(counter, shape), DECIMAL) == Low(counter, shape) + Least(MantissaWidth(shape))
             && (HasExponent(shape) ==>
                   Value(ExponentDigits(counter, shape), DECIMAL) == High(counter, shape) + Least(shape.exponent))
    ensures var shape := ShapeOf(text);
            Decode(NumberAliasFor(counter, text), shape) == Low(counter, shape) + MantissaSpan(shape) * High(counter, shape)
  {
    NoHigh(counter, ShapeOf(text));
    hide ShapeOf, PartsOf, Joined, MantissaDigits, ExponentDigits, Span, Least, Value, ByteLength, Low, High;
    hide MantissaSpan;
  }

  lemma NoHigh(counter: nat, shape: Shape)
    ensures !HasExponent(shape) ==> High(counter, shape) == 0
  {
  }

  /** A number's alias decodes to its counter exactly while the counter is below the capacity of its shape. */
  lemma NumberAliasDecodes(counter: nat, text: string)
    requires ByteLength(text) <= LONGEST
    ensures Decode(NumberAliasFor(counter, text), ShapeOf(text)) == counter <==> counter < Capacity(ShapeOf(text))
  {
    AliasValue(counter, text);
    hide ShapeOf, NumberAliasFor, Decode, ByteLength, MantissaSpan, ExponentSpan;
    var shape := ShapeOf(text);
    MixedRadix(counter, MantissaSpan(shape), ExponentSpan(shape));
  }

  /** A counter past the capacity has the digits of its remainder. */
  lemma RadixWraps(counter: nat, span: nat, spanE: nat)
    requires span >= 1 && spanE >= 1
    ensures span * spanE >= 1
    ensures var r := counter % (span * spanE);
            r % span == counter % span && r / span % spanE == counter / span % spanE
  {
    MulGrows(span, 0, spanE);
    var k := span * spanE;
    var q, r := counter / k, counter % k;
    Rebuild(counter, k);
    Rebuild(r, span);
    MulAssoc(span, spanE, q);
    DivModIs(counter, span, spanE * q + r / span, r % span);
    Rebuild(r / span, spanE);
    DivModIs(spanE * q + r / span, spanE, q + r / span / spanE, r / span % spanE);
  }

  lemma CapacityPositive(shape: Shape)
    ensures Capacity(shape) > 0
  {
    MulGrows(MantissaSpan(shape), 0, ExponentSpan(shape));
  }

  /** What an alias shows of a counter: its remainder by the shape's capacity. */
  function Remainder(counter: nat, shape: Shape): (r: nat)
    ensures r < Capacity(shape)
    ensures counter < Capacity(shape) ==> r == counter
  {
    CapacityPositive(shape);
    hide Capacity;
    counter % Capacity(shape)
  }

  lemma WrapsAround(counter: nat, text: string)
    requires ByteLength(text) <= LONGEST
    ensures NumberAliasFor(counter, text) == NumberAliasFor(Remainder(counter, ShapeOf(text)), text)
  {
    hide ShapeOf, MantissaSpan, ExponentSpan, ByteLength, Joined;
    var shape := ShapeOf(text);
    RadixWraps(counter, MantissaSpan(shape), ExponentSpan(shape));
  }

  /** Two counters have one alias for a literal exactly when they are equal modulo the capacity of its shape. */
  lemma SameAliasIff(c1: nat, c2: nat, text: string)
    requires ByteLength(text) <= LONGEST
    ensures NumberAliasFor(c1, text) == NumberAliasFor(c2, text)
       <==> Remainder(c1, ShapeOf(text)) == Remainder(c2, ShapeOf(text))
  {
    hide ShapeOf, NumberAliasFor, Decode, ByteLength, Capacity, Remainder;
    WrapsAround(c1, text);
    WrapsAround(c2, text);
    NumberAliasDecodes(Remainder(c1, ShapeOf(text)), text);
    NumberAliasDecodes(Remainder(c2, ShapeOf(text)), text);
  }

  lemma {:induction false} DigitsAreBytes(s: string)
    requires AllDigits(s, DECIMAL)
    ensures ByteLength(s) == |s|
  {
    if s == "" {
    } else {
      assert IsDigit(s[|s| - 1], DECIMAL);
      DigitsAreBytes(s[..|s| - 1]);
    }
  }

  /** The alias has the sign, the separator, the point and the widths of the literal, unless the literal had no digit
      before its exponent. */
  lemma NumberAliasKeepsShape(counter: nat, text: string)
    requires ByteLength(text) <= LONGEST
    ensures var shape := ShapeOf(text);
            ShapeOf(NumberAliasFor(counter, text)) == shape <==> MantissaWidth(shape) > 0
  {
    var shape := ShapeOf(text);
    var p := AliasParts(counter, shape);
    AliasDigits(counter, shape);
    hide *;
    ShapeIsSensible(text);
    AliasPartsAreClean(counter, shape);
    PartsOfJoined(p);
    KeepsShape(counter, text, p);
  }

  lemma KeepsShape(counter: nat, text: string, p: Parts)
    requires ByteLength(text) <= LONGEST && p == AliasParts(counter, ShapeOf(text)) && Clean(p) && PartsOf(Joined(p)) == p
    requires var shape := ShapeOf(text);
             && |MantissaDigits(counter, shape)| == (if MantissaWidth(shape) == 0 then 1 else MantissaWidth(shape))
             && p.integer + p.fraction == MantissaDigits(counter, shape)
             && (MantissaWidth(shape) > 0 ==> |p.integer| == shape.integer && |p.fraction| == shape.fraction)
             && |p.exponent| == shape.exponent
    ensures var shape := ShapeOf(text);
            ShapeOf(NumberAliasFor(counter, text)) == shape <==> MantissaWidth(shape) > 0
  {
    assert ShapeOf(Joined(p))
        == Shape(ByteLength(p.integer), p.dotted, ByteLength(p.fraction), p.sep, p.sign, ByteLength(p.exponent));
    DigitsAreBytes(p.integer);
    DigitsAreBytes(p.fraction);
    DigitsAreBytes(p.exponent);
    hide ShapeOf, PartsOf, Joined, MantissaDigits, ExponentDigits, ByteLength, AllDigits;
  }

  function DigitMask(text: string): string {
    seq(|text|, k requires 0 <= k < |text| => if IsDecimalDigit(text[k]) then '0' else text[k])
  }

  /** Two literals the alias cannot tell apart: the same widths and markers, or digits in the same places. */
  predicate SameShape(a: string, b: string) {
    if ByteLength(a) > LONGEST then ByteLength(b) > LONGEST && DigitMask(a) == DigitMask(b)
    else ByteLength(b) <= LONGEST && ShapeOf(a) == ShapeOf(b)
  }

  /** Nothing of a literal but its shape reaches its alias. */
  lemma NumberAliasDependsOnShape(counter: nat, a: string, b: string)
    requires SameShape(a, b)
    ensures NumberAliasFor(counter, a) == NumberAliasFor(counter, b)
  {
    hide ShapeOf, AliasParts, Joined, ByteLength;
    if ByteLength(a) > LONGEST {
      assert |a| == |DigitMask(a)| == |b|;
      forall k | 0 <= k < |a|
        ensures IsDecimalDigit(a[k]) == IsDecimalDigit(b[k]) && (!IsDecimalDigit(a[k]) ==> a[k] == b[k])
      {
        assert DigitMask(a)[k] == DigitMask(b)[k];
      }
    }
  }

  /** Zeros before an alias do not change the counter it spells. */
  lemma PaddedAliasDecodes(zeros: nat, counter: nat, text: string)
    requires ByteLength(text) <= LONGEST
    ensures Decode(Repeat('0', zeros) + NumberAliasFor(counter, text), ShapeOf(text))
         == Decode(NumberAliasFor(counter, text), ShapeOf(text))
  {
    hide AliasParts, ShapeOf, PartsOf, Joined, Clean, Value, Decode, NumberAliasFor, Repeat, ByteLength;
    var p := AliasParts(counter, ShapeOf(text));
    var pad := Repeat('0', zeros);
    ShapeIsSensible(text);
    AliasPartsAreClean(counter, ShapeOf(text));
    PartsOfJoined(p);
    PaddedParts(pad, p);
    PartsOfJoined(p.(integer := pad + p.integer));
    assert pad + p.integer + p.fraction == pad + (p.integer + p.fraction);
    LeadingZeros(zeros, p.integer + p.fraction, DECIMAL);
    AliasIsJoined(counter, text);
    DecodeByParts(pad + Joined(p), Joined(p), ShapeOf(text));
  }

  lemma AliasIsJoined(counter: nat, text: string)
    requires ByteLength(text) <= LONGEST
    ensures NumberAliasFor(counter, text) == Joined(AliasParts(counter, ShapeOf(text)))
  {
  }

  lemma DecodeByParts(a: string, b: string, shape: Shape)
    requires PartsOf(a).exponent == PartsOf(b).exponent
    requires Value(PartsOf(a).integer + PartsOf(a).fraction, DECIMAL)
          == Value(PartsOf(b).integer + PartsOf(b).fraction, DECIMAL)
    ensures Decode(a, shape) == Decode(b, shape)
  {
    hide PartsOf, Value;
  }

  lemma PaddedParts(pad: string, p: Parts)
    requires Clean(p) && (forall k :: 0 <= k < |pad| ==> pad[k] == '0')
    ensures Clean(p.(integer := pad + p.integer)) && Joined(p.(integer := pad + p.integer)) == pad + Joined(p)
  {
  }

  // ------------------------------------------------------------------ as it runs

  method WriteNumberAlias(counter: nat, text: string) returns (result: string)
    ensures result == NumberAliasFor(counter, text)
  {
    hide ShapeOf, ByteLength, AliasParts, Mantissa, Blurred, Pow10;
    if ByteLength(text) > LONGEST {
      result := WriteBlurred(text);
      return;
    }
    var shape := ShapeOf(text);
    var span := 9 * Pow10(if MantissaWidth(shape) == 0 then 0 else MantissaWidth(shape) - 1);
    assert span == MantissaSpan(shape);
    result := WriteMantissa(counter, shape, span);
    if shape.sep != "" {
      var tail := WriteExponent(counter, shape, span);
      result := result + (shape.sep + tail);
    }
  }

  method WriteMantissa(counter: nat, shape: Shape, span: nat) returns (result: string)
    requires span == MantissaSpan(shape)
    ensures result == Mantissa(AliasParts(counter, shape)) && AliasParts(counter, shape).sep == shape.sep
  {
    hide DecimalString, Pow10, ExponentDigits;
    AliasDigits(counter, shape);
    result := DecimalString(counter % span + Pow10(if MantissaWidth(shape) == 0 then 0 else MantissaWidth(shape) - 1));
    assert result == MantissaDigits(counter, shape);
    hide MantissaDigits;
    if shape.dotted {
      result := result[..shape.integer] + ("." + result[shape.integer..]);
    }
  }

  method WriteExponent(counter: nat, shape: Shape, span: nat) returns (tail: string)
    requires span == MantissaSpan(shape) && shape.sep != ""
    ensures tail == AliasParts(counter, shape).sign + AliasParts(counter, shape).exponent
  {
    hide DecimalString, Pow10, MantissaDigits;
    tail := shape.sign;
    var exponent := "";
    if shape.exponent > 0 {
      var powE := Pow10(shape.exponent - 1);
      var spanE := 9 * powE;
      QuotientNat(counter, span);
      exponent := DecimalString(counter / span % spanE + powE);
    }
    assert exponent == ExponentDigits(counter, shape);
    tail := tail + exponent;
  }

  method WriteBlurred(text: string) returns (out: string)
    ensures out == Blurred(text)
  {
    out := "";
    var digitsSeen := false;
    for k := 0 to |text|
      invariant out == Blurred(text)[..k]
      invariant digitsSeen <==> exists j :: 0 <= j < k && IsDecimalDigit(text[j])
    {
      if IsDecimalDigit(text[k]) {
        out := out + (if digitsSeen then "0" else "1");
        digitsSeen := true;
      } else {
        out := out + [text[k]];
      }
    }
  }
}

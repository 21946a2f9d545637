/**
 The constant folder's exact arithmetic (foldDecimalArithmetic and decimalLit in
 sqlglot/simplify.go): two literals in, one literal out.
 */
module DecimalFold {
  import opened Options
  import opened Numerals
  import opened Decimals
  import opened DecimalDivision
  import opened DecimalText
  import BigDecimals

  datatype Operator = Plus | Minus | Star | Slash | Other

  /** A number literal, perhaps under Neg nodes. */
  datatype Number = Literal(text: string) | Neg(operand: Number)

  const MAX_DIGITS: nat := 40

  /** decimalOf: Neg flips the sign of what it holds. */
  function DecimalOf(e: Number): Option<Dec> {
    match e
    case Literal(text) => ParseBigDecimal(text)
    case Neg(operand) =>
      var d :- DecimalOf(operand);
      Some(Dec(-d.unscaled, d.scale))
  }

  /** decimalLit: the sign is a Neg node, and a whole number still shows a point. */
  function DecimalLit(d: Dec): Number {
    if d.unscaled < 0 then Neg(Literal(LiteralText(Dec(-d.unscaled, d.scale))))
    else Literal(LiteralText(d))
  }

  function LiteralText(d: Dec): string {
    if d.scale == 0 then ToString(d) + ".0" else ToString(d)
  }

  function Compute(op: Operator, a: Dec, b: Dec): Option<Dec> {
    match op
    case Plus => Some(Add(a, b))
    case Minus => Some(Sub(a, b))
    case Star => Some(Mul(a, b))
    case Slash => Div(a, b, DECIMAL_PRECISION)
    case Other => None
  }

  /** foldDecimalArithmetic. */
  function Fold(op: Operator, a: Number, b: Number): Option<Number> {
    var da :- DecimalOf(a);
    var db :- DecimalOf(b);
    var result :- Compute(op, da, db);
    if DigitCount(Abs(result.unscaled)) > MAX_DIGITS then None else Some(DecimalLit(result))
  }

  // ------------------------------------------------------------------- theorems

  /** ".0" is one more digit of both kinds. */
  lemma PointZeroReads(d: Dec)
    requires d.unscaled >= 0 && d.scale == 0
    ensures ParseBigDecimal(ToString(d) + ".0") == Some(Dec(10 * d.unscaled, 1))
  {
    DecimalStringReads(d.unscaled);
    hide DecimalString, ParseBigDecimal;
    var digits := DecimalString(d.unscaled);
    assert ToString(d) == digits;
    WholeWithPoint(digits, d.unscaled);
  }

  lemma WholeWithPoint(digits: string, v: nat)
    requires digits != "" && Digits(digits) && Value(digits, DECIMAL) == v
    ensures ParseBigDecimal(digits + ".0") == Some(Dec(10 * v, 1))
  {
    hide ParseBigDecimal, Value;
    var n := Numeral("", digits, true, "0", "", "");
    AppendDigit(digits, '0', DECIMAL);
    assert n.whole + n.fraction == digits + ['0'];
    SpellingParses(n);
    assert Spelling(n) == digits + ".0";
  }

  /** The literal decimalLit writes stands for exactly the value it was given. */
  lemma LiteralReadsBack(d: Dec)
    ensures DecimalOf(DecimalLit(d)).Some? && ValueOf(DecimalOf(DecimalLit(d)).value) == ValueOf(d)
  {
    hide ToString, ParseBigDecimal, Ten, Times;
    var m := Dec(Abs(d.unscaled), d.scale);
    if d.scale == 0 {
      PointZeroReads(m);
      ScaleUp(d.unscaled, 1, 0);
      assert Pow10(1) == 10;
    } else {
      StringRoundTrip(m);
    }
  }

  /** What the folded literal must be worth. */
  ghost predicate IsResult(op: Operator, a: Dec, b: Dec, r: real) {
    match op
    case Plus => r == ValueOf(a) + ValueOf(b)
    case Minus => r == ValueOf(a) - ValueOf(b)
    case Star => r == Times(ValueOf(a), ValueOf(b))
    case Slash => Times(r, ValueOf(b)) == ValueOf(a) || IsRoundedQuotient(a, b, r)
    case Other => false
  }

  ghost predicate IsRoundedQuotient(a: Dec, b: Dec, r: real) {
    exists c: int, e: int ::
      IsRounded(c, e, ValueOf(a), ValueOf(b), DECIMAL_PRECISION) && r == Times(c as real, Ten(e))
  }

  lemma ComputedIsResult(op: Operator, a: Dec, b: Dec)
    requires Compute(op, a, b).Some?
    ensures IsResult(op, a, b, ValueOf(Compute(op, a, b).value))
  {
    hide Ten, Times, ValueOf, Add, Sub, Mul, Div, StopOf, RemainderAt, IsRounded;
    SumsAndProductsAreExact(a, b);
    if op.Slash? {
      DivByZero(a, b, DECIMAL_PRECISION);
      if a.unscaled == 0 {
        ZeroQuotient(a, b);
      } else if RemainderAt(a, b, StopOf(a, b, DECIMAL_PRECISION)) == 0 {
        DivIsExact(a, b, DECIMAL_PRECISION);
      } else {
        DivRounds(a, b, DECIMAL_PRECISION);
      }
    }
  }

  lemma ZeroQuotient(a: Dec, b: Dec)
    requires a.unscaled == 0
    ensures ValueOf(a) == 0.0 && ValueOf(Dec(0, 0)) == 0.0 && Times(0.0, ValueOf(b)) == 0.0
  {
    hide Ten;
  }

  /**
   The fold answers exactly when both operands are numbers, the operation has a
   result and that result is short enough; its literal is then worth the exact
   sum, difference or product, or the quotient, exact or rounded half-even to
   28 digits.
   */
  lemma FoldIsRight(op: Operator, a: Number, b: Number)
    ensures Fold(op, a, b).Some? <==>
              && DecimalOf(a).Some? && DecimalOf(b).Some?
              && Compute(op, DecimalOf(a).value, DecimalOf(b).value).Some?
              && DigitCount(Abs(Compute(op, DecimalOf(a).value, DecimalOf(b).value).value.unscaled)) <= MAX_DIGITS
    ensures Fold(op, a, b).Some? ==>
              var r := DecimalOf(Fold(op, a, b).value);
              r.Some? && IsResult(op, DecimalOf(a).value, DecimalOf(b).value, ValueOf(r.value))
  {
    hide Compute, IsResult, DecimalOf, DecimalLit, ValueOf, DigitCount;
    if Fold(op, a, b).Some? {
      var da, db := DecimalOf(a).value, DecimalOf(b).value;
      ComputedIsResult(op, da, db);
      LiteralReadsBack(Compute(op, da, db).value);
    }
  }

  // ------------------------------------------------------------------ as it runs

  method ReadOperand(cache: BigDecimals.Pow10Cache, e: Number) returns (r: Option<BigDecimals.BigDecimal>)
    requires cache.Valid()
    modifies cache
    ensures cache.Valid()
    ensures r.Some? <==> DecimalOf(e).Some?
    ensures r.Some? ==> fresh(r.value.unscaled) && r.value.Model() == DecimalOf(e).value
  {
    hide ParseBigDecimal;
    match e
    case Literal(text) =>
      r := BigDecimals.ParseDecimal(cache, text);
    case Neg(operand) =>
      var d := ReadOperand(cache, operand);
      if d.None? {
        return None;
      }
      var negated := new BigDecimals.BigInt(0);
      negated.Neg(d.value.unscaled);
      var n := new BigDecimals.BigDecimal(negated, d.value.scale);
      r := Some(n);
  }

  method WriteLiteral(d: BigDecimals.BigDecimal) returns (e: Number)
    ensures e == DecimalLit(d.Model())
    decreases d.unscaled.value < 0
  {
    hide ToString;
    if d.unscaled.value < 0 {
      var magnitude := new BigDecimals.BigInt(0);
      magnitude.Abs(d.unscaled);
      var positive := new BigDecimals.BigDecimal(magnitude, d.scale);
      var literal := WriteLiteral(positive);
      return Neg(literal);
    }
    var text := BigDecimals.WriteString(d);
    if d.scale == 0 {
      text := text + ".0";
    }
    return Literal(text);
  }

  /** One fold over the shared table: whatever the table held before, the answer is Fold's, and the table stays valid
      for the next. */
  method FoldDecimalArithmetic(cache: BigDecimals.Pow10Cache, op: Operator, a: Number, b: Number)
    returns (r: Option<Number>)
    requires cache.Valid()
    modifies cache
    ensures cache.Valid()
    ensures r == Fold(op, a, b)
  {
    hide DecimalOf, Add, Sub, Mul, Div, DecimalLit, DecimalString;
    var da := ReadOperand(cache, a);
    if da.None? {
      return None;
    }
    var db := ReadOperand(cache, b);
    if db.None? {
      return None;
    }
    var result: BigDecimals.BigDecimal;
    match op {
      case Plus => result := BigDecimals.Add(cache, da.value, db.value);
      case Minus => result := BigDecimals.Sub(cache, da.value, db.value);
      case Star => result := BigDecimals.Mul(da.value, db.value);
      case Slash =>
        var quotient := BigDecimals.Div(cache, da.value, db.value, DECIMAL_PRECISION);
        if quotient.None? {
          return None;
        }
        result := quotient.value;
      case Other =>
        return None;
    }
    if |DecimalString(Abs(result.unscaled.value))| > MAX_DIGITS {
      return None;
    }
    var literal := WriteLiteral(result);
    r := Some(literal);
  }
}

/**
 The form of what the date folds build (sqlglot/date_trunc.go and
 date_arith.go), which its meaning alone does not show: on what its bounds are,
 of which type, and that it may be written without parentheses it has not got.
 */
module TruncLaws {
  import opened Options
  import opened Calendar
  import opened DateArith
  import DateText
  import opened DateTrunc
  import opened DateRanges
  import opened SqlExpr
  import opened DateFold
  import opened TruncFold
  import opened TruncInFold

  /** A string cast to a type. */
  predicate IsDateLiteral(e: Expr, typeName: string) {
    e.Cast? && e.to == typeName && e.operand.Literal? && e.operand.isString
  }

  /** Comparisons of l with dates of one type, joined by AND and OR, perhaps in parentheses. */
  predicate IsBoundsOn(e: Expr, l: Expr, typeName: string) {
    match e
    case Paren(inner) => IsBoundsOn(inner, l, typeName)
    case Connector(_, left, right) => IsBoundsOn(left, l, typeName) && IsBoundsOn(right, l, typeName)
    case Compare(_, left, right) => left == l && IsDateLiteral(right, typeName)
    case _ => false
  }

  /** Written under this parent it would be read back as it is: AND and OR stand in parentheses of their own wherever
      they do not stand alone, or among their own kind. */
  predicate IsPlaced(e: Expr, parent: Parent) {
    match e
    case Paren(inner) => IsPlaced(inner, NoParent)
    case Connector(c, left, right) =>
      && parent != NotParent && (parent.ConnectorParent? ==> parent.connector == c)
      && IsPlaced(left, ConnectorParent(c)) && IsPlaced(right, ConnectorParent(c))
    case _ => true
  }

  lemma ParenthesizedIsPlaced(e: Expr, parent: Parent)
    requires IsPlaced(e, NoParent)
    ensures IsPlaced(ParenthesizeNestedConnector(e, parent), parent)
  {
  }

  lemma ParenthesesKeepBounds(e: Expr, parent: Parent, l: Expr, typeName: string)
    requires IsBoundsOn(e, l, typeName)
    ensures IsBoundsOn(ParenthesizeNestedConnector(e, parent), l, typeName)
  {
  }

  lemma OneBound(cmp: CompareClass, l: Expr, bound: Instant, typeName: string)
    ensures var e := Compare(cmp, l, DateValueLiteral(bound, typeName));
            IsBoundsOn(e, l, typeName) && forall p :: IsPlaced(e, p)
  {
    hide DateText.FormatDate, DateText.FormatDateTime;
  }

  lemma Joined(c: ConnectorClass, a: Expr, b: Expr, l: Expr, typeName: string)
    requires IsBoundsOn(a, l, typeName) && IsBoundsOn(b, l, typeName)
    requires IsPlaced(a, ConnectorParent(c)) && IsPlaced(b, ConnectorParent(c))
    ensures IsBoundsOn(Connector(c, a, b), l, typeName)
    ensures IsPlaced(Connector(c, a, b), NoParent) && IsPlaced(Connector(c, a, b), ConnectorParent(c))
  {
  }

  lemma InParentheses(a: Expr, l: Expr, typeName: string)
    requires IsBoundsOn(a, l, typeName) && IsPlaced(a, NoParent)
    ensures IsBoundsOn(Paren(a), l, typeName) && forall p :: IsPlaced(Paren(a), p)
  {
  }

  lemma TwoBounds(c: ConnectorClass, x: CompareClass, y: CompareClass, l: Expr, r: DateRange, typeName: string)
    ensures var e := Connector(c, Compare(x, l, DateValueLiteral(r.low, typeName)),
                               Compare(y, l, DateValueLiteral(r.high, typeName)));
            IsBoundsOn(e, l, typeName) && IsPlaced(e, NoParent)
  {
    hide IsBoundsOn, IsPlaced, DateValueLiteral;
    OneBound(x, l, r.low, typeName);
    OneBound(y, l, r.high, typeName);
    Joined(c, Compare(x, l, DateValueLiteral(r.low, typeName)), Compare(y, l, DateValueLiteral(r.high, typeName)), l, typeName);
  }

  lemma ConditionForm(op: CompareClass, l: Expr, unit: Unit, date: Instant, typeName: string, parent: Parent,
                      dialect: string)
    requires RangeCondition(op, l, unit, date, typeName, parent, dialect).Some?
    ensures var r := RangeCondition(op, l, unit, date, typeName, parent, dialect).value;
            IsBoundsOn(r, l, typeName) && IsPlaced(r, parent)
  {
    hide IsBoundsOn, IsPlaced, DateValueLiteral, DateTruncCeil, DateTruncNextFloor, DateTruncRange,
      ParenthesizeNestedConnector;
    if op == EQ || op == NEQ {
      var range := DateTruncRange(date, unit, dialect).value;
      var (c, x, y) := if op == EQ then (And, GTE, LT) else (Or, LT, GTE);
      var e := Connector(c, Compare(x, l, DateValueLiteral(range.low, typeName)),
                         Compare(y, l, DateValueLiteral(range.high, typeName)));
      TwoBounds(c, x, y, l, range, typeName);
      ParenthesizedIsPlaced(e, parent);
      ParenthesesKeepBounds(e, parent, l, typeName);
    } else {
      var r := RangeCondition(op, l, unit, date, typeName, parent, dialect).value;
      var bound := if op == LT || op == GTE then DateTruncCeil(date, unit, dialect).value
                   else DateTruncNextFloor(date, unit, dialect).value;
      OneBound(r.cmp, l, bound, typeName);
    }
  }

  /** A rewritten comparison speaks of the same expression and of dates of the same type, and stands where it is put. */
  lemma ComparisonForm(e: Expr, parent: Parent, dialect: string)
    requires FoldDateTruncComparison(e, parent, dialect).Some?
    ensures DateTruncOf(e.operand, dialect).Some? && ExtractDateValue(e.right).Some?
    ensures var r := FoldDateTruncComparison(e, parent, dialect).value;
            && IsBoundsOn(r, DateTruncOf(e.operand, dialect).value.0, ExtractDateValue(e.right).value.1)
            && IsPlaced(r, parent)
  {
    hide IsBoundsOn, IsPlaced, DateTruncOf, ExtractDateValue, RangeCondition;
    var (l, unit) := DateTruncOf(e.operand, dialect).value;
    var (date, typeName) := ExtractDateValue(e.right).value;
    ConditionForm(e.cmp, l, unit, date, typeName, parent, dialect);
  }

  lemma RangeForm(l: Expr, r: DateRange, typeName: string)
    ensures IsBoundsOn(DateTruncRangeAnd(l, r, typeName), l, typeName)
    ensures IsPlaced(DateTruncRangeAnd(l, r, typeName), NoParent)
  {
    hide IsBoundsOn, IsPlaced, DateValueLiteral;
    TwoBounds(And, GTE, LT, l, r, typeName);
  }

  lemma {:induction false} OrForm(l: Expr, ranges: seq<DateRange>, typeName: string)
    requires ranges != []
    ensures var e := OrOfRanges(l, ranges, typeName);
            IsBoundsOn(e, l, typeName) && IsPlaced(e, NoParent) && IsPlaced(e, ConnectorParent(Or))
  {
    hide IsBoundsOn, IsPlaced, DateTruncRangeAnd;
    var n := |ranges| - 1;
    var condition := Paren(DateTruncRangeAnd(l, ranges[n], typeName));
    RangeForm(l, ranges[n], typeName);
    InParentheses(DateTruncRangeAnd(l, ranges[n], typeName), l, typeName);
    if n == 0 {
    } else {
      OrForm(l, ranges[..n], typeName);
      Joined(Or, OrOfRanges(l, ranges[..n], typeName), condition, l, typeName);
    }
  }

  /** So does a folded list, of the type of its first member. */
  lemma InForm(e: Expr, parent: Parent, merged: seq<DateRange>, r: Expr, dialect: string)
    requires IsInFold(e, parent, dialect, merged, r)
    ensures IsBoundsOn(r, DateTruncOf(e.operand, dialect).value.0, ExtractDateValue(e.members[0]).value.1)
    ensures IsPlaced(r, parent)
  {
    var l, typeName := DateTruncOf(e.operand, dialect).value.0, ExtractDateValue(e.members[0]).value.1;
    hide DateTruncOf, ExtractDateValue, IsMerged, MemberRanges, IsBoundsOn, IsPlaced, DateTruncRangeAnd,
      ParenthesizeNestedConnector;
    if |merged| == 1 {
      var one := DateTruncRangeAnd(l, merged[0], typeName);
      RangeForm(l, merged[0], typeName);
      ParenthesizedIsPlaced(one, parent);
      ParenthesesKeepBounds(one, parent, l, typeName);
    } else {
      OrForm(l, merged, typeName);
      ParenthesizedIsPlaced(OrOfRanges(l, merged, typeName), parent);
      ParenthesesKeepBounds(OrOfRanges(l, merged, typeName), parent, l, typeName);
    }
  }

  /** A folded truncation, and a folded step, is a literal of the type of its date. */
  lemma LiteralForm(e: Expr, dialect: string)
    ensures FoldDateTruncLiteral(e, dialect).Some? ==>
              && DateTruncOf(e, dialect).Some? && ExtractDateValue(DateTruncOf(e, dialect).value.0).Some?
              && IsDateLiteral(FoldDateTruncLiteral(e, dialect).value,
                               ExtractDateValue(DateTruncOf(e, dialect).value.0).value.1)
  {
    hide DateTruncOf, ExtractDateValue, DateTruncFloor;
  }

  lemma StepForm(t: Instant, typeName: string, unitName: string, amount: int)
    ensures FoldDateResult(t, typeName, unitName, amount).Some? ==>
              IsDateLiteral(FoldDateResult(t, typeName, unitName, amount).value, typeName)
  {
    hide AddCalendarInterval, UnitNamed;
  }

  /** A date is written without a clock, and every other type with one. */
  lemma WrittenLength(t: Instant, typeName: string)
    ensures IsDateLiteral(DateValueLiteral(t, typeName), typeName)
    ensures DateValueLiteral(t, "DATE").operand.text == DateText.FormatDate(t)
    ensures typeName != "DATE" ==> DateValueLiteral(t, typeName).operand.text == DateText.FormatDateTime(t)
  {
  }
}

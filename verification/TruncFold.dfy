/**
 Rewriting a comparison or an IN list over a truncation into range conditions
 on the truncated expression itself, and folding a truncated literal
 (sqlglot/date_trunc.go). A rewrite is judged against the three-valued `Eval`.
 */
module TruncFold {
  import opened Options
  import opened MachineInts
  import opened Calendar
  import opened DateArith
  import opened DateText
  import opened DateTrunc
  import opened YearLimits
  import opened DateRanges
  import opened SqlExpr
  import opened DateFold

  /** What parenthesizeNestedConnector looks at in a parent. */
  datatype Parent = NoParent | NotParent | ConnectorParent(connector: ConnectorClass) | OtherParent

  /** parenthesizeNestedConnector. */
  function ParenthesizeNestedConnector(e: Expr, parent: Parent): Expr {
    if !e.Connector? then e
    else match parent
      case NotParent => Paren(e)
      case ConnectorParent(c) => if c != e.connector then Paren(e) else e
      case _ => e
  }

  /** truncUnit: a named week start only when it is the dialect's own. */
  function TruncUnit(unitArg: Expr, dialect: string): Option<Unit> {
    if unitArg.WeekStart? then
      var day := Upper(Name(unitArg.operand));
      if WeekdayNamed(day) != GoMod(GoMod(WeekOffset(dialect), 7) + 7, 7) + 1 then None else Some(Week)
    else
      var unit :- UnitNamed(Upper(Name(unitArg)));
      if Truncates(unit) then Some(unit) else None
  }

  /** dateTruncOf. */
  function DateTruncOf(e: Expr, dialect: string): Option<(Expr, Unit)> {
    if !e.Trunc? || e.operand.Absent? || e.unit.Absent? then None
    else
      var unit :- TruncUnit(e.unit, dialect);
      Some((e.operand, unit))
  }

  /** foldDateTruncLiteral. */
  function FoldDateTruncLiteral(e: Expr, dialect: string): Option<Expr> {
    var (date, unit) :- DateTruncOf(e, dialect);
    var (t, typeName) :- ExtractDateValue(date);
    var floor :- DateTruncFloor(t, unit, dialect);
    Some(DateValueLiteral(floor, typeName))
  }

  /** dateTruncRangeAnd. */
  function DateTruncRangeAnd(l: Expr, r: DateRange, typeName: string): Expr {
    Connector(And, Compare(GTE, l, DateValueLiteral(r.low, typeName)),
              Compare(LT, l, DateValueLiteral(r.high, typeName)))
  }

  /** The condition foldDateTruncComparison's switch builds for each operator. */
  function RangeCondition(op: CompareClass, l: Expr, unit: Unit, date: Instant, typeName: string,
                          parent: Parent, dialect: string): Option<Expr> {
    match op
    case LT =>
      var bound :- DateTruncCeil(date, unit, dialect);
      Some(Compare(LT, l, DateValueLiteral(bound, typeName)))
    case GT =>
      var bound :- DateTruncNextFloor(date, unit, dialect);
      Some(Compare(GTE, l, DateValueLiteral(bound, typeName)))
    case LTE =>
      var bound :- DateTruncNextFloor(date, unit, dialect);
      Some(Compare(LT, l, DateValueLiteral(bound, typeName)))
    case GTE =>
      var bound :- DateTruncCeil(date, unit, dialect);
      Some(Compare(GTE, l, DateValueLiteral(bound, typeName)))
    case EQ =>
      var range :- DateTruncRange(date, unit, dialect);
      Some(ParenthesizeNestedConnector(DateTruncRangeAnd(l, range, typeName), parent))
    case NEQ =>
      var range :- DateTruncRange(date, unit, dialect);
      Some(ParenthesizeNestedConnector(
             Connector(Or, Compare(LT, l, DateValueLiteral(range.low, typeName)),
                       Compare(GTE, l, DateValueLiteral(range.high, typeName))), parent))
  }

  /** foldDateTruncComparison. */
  function FoldDateTruncComparison(e: Expr, parent: Parent, dialect: string): Option<Expr> {
    if !e.Compare? || e.operand.Absent? || e.right.Absent? then None
    else
      var (l, unit) :- DateTruncOf(e.operand, dialect);
      var (date, typeName) :- ExtractDateValue(e.right);
      RangeCondition(e.cmp, l, unit, date, typeName, parent, dialect)
  }

  // ------------------------------------------------------------------ meanings

  lemma ParenthesesKeepMeaning(e: Expr, parent: Parent, row: Row, dialect: string)
    ensures Eval(ParenthesizeNestedConnector(e, parent), row, dialect) == Eval(e, row, dialect)
  {
    hide Eval;
    ParenEvaluates(e, row, dialect);
  }

  lemma WeekdayFloorIsFloor(t: Instant, dialect: string)
    ensures WeekdayFloor(t, WeekStartDay(dialect)) == FloorOf(t, Week, dialect)
  {
    hide FloorOf;
    WeekBack(t, dialect);
  }

  /** A unit truncUnit accepts truncates as the written unit means; a week start it accepts is the weekday the floors
      land on. */
  lemma AcceptedUnitTruncates(unitArg: Expr, v: SqlValue, dialect: string)
    requires TruncUnit(unitArg, dialect).Some? && Comparable(v)
    ensures var unit := TruncUnit(unitArg, dialect).value;
            && Truncates(unit)
            && TruncValue(v, unitArg, dialect) == (if v.Null? then Null else TimeValue(FloorOf(v.time, unit, dialect)))
            && (unitArg.WeekStart? && v.TimeValue? ==>
                  IsoWeekday(FloorOf(v.time, unit, dialect).day) == WeekdayNamed(Upper(Name(unitArg.operand))))
  {
    hide FloorOf, WeekdayFloor, UnitNamed, WeekdayNamed;
    if v.TimeValue? && unitArg.WeekStart? {
      WeekdayFloorIsFloor(v.time, dialect);
      WeekFloorsOnWeekStart(v.time, dialect);
    }
  }

  /** The value a truncation node has in terms of what it truncates. */
  lemma TruncEvaluates(e: Expr, row: Row, dialect: string)
    requires DateTruncOf(e, dialect).Some?
    ensures var (l, unit) := DateTruncOf(e, dialect).value;
            var v := Eval(l, row, dialect);
            && Truncates(unit)
            && Eval(e, row, dialect)
               == (if v.Null? then Null else if v.TimeValue? then TimeValue(FloorOf(v.time, unit, dialect)) else Undefined)
  {
    hide FloorOf, UnitNamed, WeekdayNamed, Truncates;
    var v := Eval(e.operand, row, dialect);
    if Comparable(v) {
      AcceptedUnitTruncates(e.unit, v, dialect);
    } else {
      AcceptedUnitTruncates(e.unit, Null, dialect);
    }
  }

  /** A condition on l alone, as a predicate on instants lifted to SQL values. */
  function Lifted(v: SqlValue, holds: bool): SqlValue {
    if v.Null? then Null else if v.TimeValue? then BoolValue(holds) else Undefined
  }

  /** Comparing l with a written midnight. */
  lemma BoundEvaluates(op: CompareClass, l: Expr, bound: Instant, typeName: string, row: Row, dialect: string)
    requires IsTemporal(typeName) && Midnight(bound)
    ensures var v := Eval(l, row, dialect);
            Eval(Compare(op, l, DateValueLiteral(bound, typeName)), row, dialect)
            == if FourDigitYear(bound) then Lifted(v, v.TimeValue? && CompareTimes(op, v.time, bound)) else Undefined
  {
    hide Eval, CivilOf, DateValueLiteral, IsTemporal;
    CompareEvaluates(op, l, DateValueLiteral(bound, typeName), row, dialect);
    LiteralValue(bound, typeName, row, dialect);
  }

  /** The operator and the bound that LT, GTE, GT and LTE are rewritten to. */
  function Boundary(op: CompareClass, date: Instant, unit: Unit, dialect: string): (CompareClass, Instant)
    requires Truncates(unit) && op != EQ && op != NEQ
  {
    if op == LT then (LT, DateTruncCeil(date, unit, dialect).value)
    else if op == GTE then (GTE, DateTruncCeil(date, unit, dialect).value)
    else if op == GT then (GTE, NextOf(date, unit, dialect))
    else (LT, NextOf(date, unit, dialect))
  }

  /** The bounds a comparison is rewritten to. */
  function Bounds(op: CompareClass, date: Instant, unit: Unit, dialect: string): seq<Instant>
    requires Truncates(unit)
  {
    if op != EQ && op != NEQ then [Boundary(op, date, unit, dialect).1]
    else
      match DateTruncRange(date, unit, dialect)
      case Some(r) => [r.low, r.high]
      case None => []
  }

  predicate AllFourDigit(ts: seq<Instant>) {
    forall t :: t in ts ==> FourDigitYear(t)
  }

  /** l >= low AND l < high is membership in the range. */
  lemma RangeAndEvaluates(l: Expr, r: DateRange, typeName: string, row: Row, dialect: string)
    requires IsTemporal(typeName) && Midnight(r.low) && Midnight(r.high)
    ensures var v := Eval(l, row, dialect);
            Eval(DateTruncRangeAnd(l, r, typeName), row, dialect)
            == if FourDigitYear(r.low) && FourDigitYear(r.high) then Lifted(v, v.TimeValue? && InRange(v.time, r))
               else Undefined
  {
    hide Eval, FourDigitYear, DateValueLiteral, IsTemporal, Before;
    BoundEvaluates(GTE, l, r.low, typeName, row, dialect);
    BoundEvaluates(LT, l, r.high, typeName, row, dialect);
    ConnectorEvaluates(And, Compare(GTE, l, DateValueLiteral(r.low, typeName)),
                       Compare(LT, l, DateValueLiteral(r.high, typeName)), row, dialect);
  }

  lemma OutsideRangeEvaluates(l: Expr, r: DateRange, typeName: string, row: Row, dialect: string)
    requires IsTemporal(typeName) && Midnight(r.low) && Midnight(r.high) && NonEmpty(r)
    ensures var v := Eval(l, row, dialect);
            Eval(Connector(Or, Compare(LT, l, DateValueLiteral(r.low, typeName)),
                           Compare(GTE, l, DateValueLiteral(r.high, typeName))), row, dialect)
            == if FourDigitYear(r.low) && FourDigitYear(r.high) then Lifted(v, v.TimeValue? && !InRange(v.time, r))
               else Undefined
  {
    hide Eval, FourDigitYear, DateValueLiteral, IsTemporal;
    BoundEvaluates(LT, l, r.low, typeName, row, dialect);
    BoundEvaluates(GTE, l, r.high, typeName, row, dialect);
    ConnectorEvaluates(Or, Compare(LT, l, DateValueLiteral(r.low, typeName)),
                       Compare(GTE, l, DateValueLiteral(r.high, typeName)), row, dialect);
  }

  /** What the comparison means: the floor of l against the date. */
  lemma ComparisonEvaluates(e: Expr, row: Row, dialect: string)
    requires e.Compare? && DateTruncOf(e.operand, dialect).Some? && ExtractDateValue(e.right).Some?
    ensures var (l, unit) := DateTruncOf(e.operand, dialect).value;
            var v := Eval(l, row, dialect);
            var date := ExtractDateValue(e.right).value.0;
            && Truncates(unit)
            && Eval(e, row, dialect)
               == Lifted(v, v.TimeValue? && CompareTimes(e.cmp, FloorOf(v.time, unit, dialect), date))
  {
    hide Eval, FloorOf, ExtractDateValue, DateTruncOf, Truncates;
    CompareEvaluates(e.cmp, e.operand, e.right, row, dialect);
    TruncEvaluates(e.operand, row, dialect);
    ExtractedIsValue(e.right, row, dialect);
  }

  lemma BoundsAreMidnights(date: Instant, unit: Unit, dialect: string)
    requires Truncates(unit)
    ensures DateTruncCeil(date, unit, dialect).Some? && Midnight(DateTruncCeil(date, unit, dialect).value)
    ensures DateTruncNextFloor(date, unit, dialect) == Some(NextOf(date, unit, dialect))
    ensures Midnight(NextOf(date, unit, dialect))
  {
    hide AddCalendarInterval, Starts;
    CeilIsFirstStartFrom(date, unit, dialect);
    NextIsFirstStartAfter(date, unit, dialect);
  }

  lemma BoundaryIsBuilt(op: CompareClass, l: Expr, unit: Unit, date: Instant, typeName: string,
                        parent: Parent, dialect: string)
    requires Truncates(unit) && op != EQ && op != NEQ
    ensures var (built, bound) := Boundary(op, date, unit, dialect);
            && Midnight(bound)
            && RangeCondition(op, l, unit, date, typeName, parent, dialect)
               == Some(Compare(built, l, DateValueLiteral(bound, typeName)))
  {
    hide DateValueLiteral, FloorOf, AddCalendarInterval, DateTruncFloor;
    BoundsAreMidnights(date, unit, dialect);
    hide DateTruncCeil, DateTruncNextFloor, NextOf, DateTruncRange, Truncates;
    var c := RangeCondition(op, l, unit, date, typeName, parent, dialect);
    match op {
      case LT => assert c == Some(Compare(LT, l, DateValueLiteral(DateTruncCeil(date, unit, dialect).value, typeName)));
      case GT => assert c == Some(Compare(GTE, l, DateValueLiteral(NextOf(date, unit, dialect), typeName)));
      case LTE => assert c == Some(Compare(LT, l, DateValueLiteral(NextOf(date, unit, dialect), typeName)));
      case GTE => assert c == Some(Compare(GTE, l, DateValueLiteral(DateTruncCeil(date, unit, dialect).value, typeName)));
    }
    hide RangeCondition;
  }

  lemma BoundaryIsOnlyBound(op: CompareClass, unit: Unit, date: Instant, dialect: string)
    requires Truncates(unit) && op != EQ && op != NEQ
    ensures AllFourDigit(Bounds(op, date, unit, dialect))
       <==> FourDigitYear(Boundary(op, date, unit, dialect).1)
  {
    hide Boundary, FourDigitYear, DateTruncRange, Truncates;
    var bound := Boundary(op, date, unit, dialect).1;
    assert bound in [bound];
  }

  lemma BoundaryCompares(op: CompareClass, l: Instant, date: Instant, unit: Unit, dialect: string)
    requires Truncates(unit) && op != EQ && op != NEQ
    ensures var (built, bound) := Boundary(op, date, unit, dialect);
            CompareTimes(built, l, bound) == CompareTimes(op, FloorOf(l, unit, dialect), date)
  {
    hide FloorOf, NextOf, DateTruncCeil, Before;
    FloorComparisons(l, date, unit, dialect);
  }

  lemma BoundaryConditionEvaluates(op: CompareClass, l: Expr, unit: Unit, date: Instant, typeName: string,
                                   parent: Parent, row: Row, dialect: string)
    requires IsTemporal(typeName) && Truncates(unit) && op != EQ && op != NEQ
    ensures var v := Eval(l, row, dialect);
            var c := RangeCondition(op, l, unit, date, typeName, parent, dialect);
            && c.Some?
            && Eval(c.value, row, dialect)
               == if AllFourDigit(Bounds(op, date, unit, dialect))
                  then Lifted(v, v.TimeValue? && CompareTimes(op, FloorOf(v.time, unit, dialect), date))
                  else Undefined
  {
    hide *;
    var v := Eval(l, row, dialect);
    BoundaryIsBuilt(op, l, unit, date, typeName, parent, dialect);
    BoundaryIsOnlyBound(op, unit, date, dialect);
    var (built, bound) := Boundary(op, date, unit, dialect);
    BoundEvaluates(built, l, bound, typeName, row, dialect);
    if v.TimeValue? {
      BoundaryCompares(op, v.time, date, unit, dialect);
    }
  }

  lemma RangeIsOnlyBounds(op: CompareClass, unit: Unit, date: Instant, dialect: string)
    requires Truncates(unit) && (op == EQ || op == NEQ) && DateTruncRange(date, unit, dialect).Some?
    ensures var r := DateTruncRange(date, unit, dialect).value;
            AllFourDigit(Bounds(op, date, unit, dialect)) <==> FourDigitYear(r.low) && FourDigitYear(r.high)
  {
    hide FourDigitYear, DateTruncRange, Truncates;
    var r := DateTruncRange(date, unit, dialect).value;
    assert r.low in [r.low, r.high] && r.high in [r.low, r.high];
  }

  lemma EqualityConditionEvaluates(op: CompareClass, l: Expr, unit: Unit, date: Instant, typeName: string,
                                   parent: Parent, row: Row, dialect: string)
    requires IsTemporal(typeName) && Truncates(unit) && (op == EQ || op == NEQ)
    requires RangeCondition(op, l, unit, date, typeName, parent, dialect).Some?
    ensures var v := Eval(l, row, dialect);
            Eval(RangeCondition(op, l, unit, date, typeName, parent, dialect).value, row, dialect)
            == if AllFourDigit(Bounds(op, date, unit, dialect))
               then Lifted(v, v.TimeValue? && CompareTimes(op, FloorOf(v.time, unit, dialect), date))
               else Undefined
  {
    var v := Eval(l, row, dialect);
    hide Eval, FourDigitYear, DateValueLiteral, IsTemporal, FloorOf, InRange, Truncates, Bounds, AllFourDigit;
    hide DateTruncRange;
    var r := DateTruncRange(date, unit, dialect).value;
    RangeIsOnlyBounds(op, unit, date, dialect);
    RangeIsPreimage(if v.TimeValue? then v.time else date, date, unit, dialect);
    var condition := RangeCondition(op, l, unit, date, typeName, NoParent, dialect).value;
    ParenthesesKeepMeaning(condition, parent, row, dialect);
    if op == EQ {
      RangeAndEvaluates(l, r, typeName, row, dialect);
    } else {
      OutsideRangeEvaluates(l, r, typeName, row, dialect);
    }
  }

  /** The rewritten condition means the same comparison, wherever its bounds can be written. */
  lemma RewriteEvaluates(e: Expr, parent: Parent, row: Row, dialect: string)
    requires FoldDateTruncComparison(e, parent, dialect).Some?
    ensures var (l, unit) := DateTruncOf(e.operand, dialect).value;
            var v := Eval(l, row, dialect);
            var date := ExtractDateValue(e.right).value.0;
            && Truncates(unit)
            && Eval(FoldDateTruncComparison(e, parent, dialect).value, row, dialect)
               == if AllFourDigit(Bounds(e.cmp, date, unit, dialect))
                  then Lifted(v, v.TimeValue? && CompareTimes(e.cmp, FloorOf(v.time, unit, dialect), date))
                  else Undefined
  {
    var (l, unit) := DateTruncOf(e.operand, dialect).value;
    var (date, typeName) := ExtractDateValue(e.right).value;
    hide RangeCondition, IsTemporal, FloorOf, Truncates, Bounds, AllFourDigit, DateTruncOf;
    TruncEvaluates(e.operand, row, dialect);
    ExtractedIsValue(e.right, row, dialect);
    hide ExtractDateValue;
    if e.cmp == EQ || e.cmp == NEQ {
      EqualityConditionEvaluates(e.cmp, l, unit, date, typeName, parent, row, dialect);
    } else {
      BoundaryConditionEvaluates(e.cmp, l, unit, date, typeName, parent, row, dialect);
    }
  }

  /** The dates whose bounds can be written: before the last unit of the year 9999, or, where the bound is a ceiling,
      not after its first day. */
  predicate BoundFits(op: CompareClass, date: Instant, unit: Unit, dialect: string)
    requires Truncates(unit)
  {
    if op == LT || op == GTE then !Before(LastFloor(unit, dialect), date) else Before(date, LastFloor(unit, dialect))
  }

  lemma BoundsFit(op: CompareClass, date: Instant, unit: Unit, dialect: string)
    requires Truncates(unit) && FourDigitYear(date)
    requires op == EQ || op == NEQ ==> DateTruncRange(date, unit, dialect).Some?
    ensures AllFourDigit(Bounds(op, date, unit, dialect)) <==> BoundFits(op, date, unit, dialect)
  {
    hide FourDigitYear, Truncates, AllFourDigit, LastFloor, DateTruncCeil, NextOf, Bounds, Boundary, Before;
    hide DateTruncRange;
    NextFits(date, unit, dialect);
    CeilFits(date, unit, dialect);
    if op == EQ || op == NEQ {
      RangeBounds(date, unit, dialect);
      RangeIsOnlyBounds(op, unit, date, dialect);
    } else {
      BoundaryIs(op, date, unit, dialect);
      BoundaryIsOnlyBound(op, unit, date, dialect);
    }
  }

  lemma BoundaryIs(op: CompareClass, date: Instant, unit: Unit, dialect: string)
    requires Truncates(unit) && op != EQ && op != NEQ && DateTruncCeil(date, unit, dialect).Some?
    ensures Boundary(op, date, unit, dialect).1
         == if op == LT || op == GTE then DateTruncCeil(date, unit, dialect).value else NextOf(date, unit, dialect)
  {
    hide DateTruncCeil, NextOf;
  }

  lemma RangeBounds(date: Instant, unit: Unit, dialect: string)
    requires DateTruncRange(date, unit, dialect).Some?
    ensures Truncates(unit) && DateTruncRange(date, unit, dialect).value == DateRange(date, NextOf(date, unit, dialect))
    ensures FloorOf(date, unit, dialect) == date
  {
    hide DateTruncFloor, AddCalendarInterval;
  }

  lemma {:induction false} ExtractedYears(e: Expr)
    requires ExtractDateValue(e).Some?
    ensures FourDigitYear(ExtractDateValue(e).value.0)
  {
    hide FourDigitYear, ParseDateText, IsTemporal;
    var inner := e.operand;
    if IsStringLiteral(inner) {
      ReadYears(Name(inner));
      SameDay(ParseDateText(Name(inner)).value);
    } else {
      ExtractedYears(inner);
      SameDay(ExtractDateValue(inner).value.0);
    }
  }

  lemma SameDay(t: Instant)
    ensures FourDigitYear(DayOnly(t)) <==> FourDigitYear(t)
  {
  }

  /** The rewrite keeps the comparison's three-valued truth in every row, NULL included, exactly for dates before the
      last unit of the year 9999, or not after its first day for LT and GTE (or the comparison had no meaning to keep). */
  lemma ComparisonFoldExactIff(e: Expr, parent: Parent, row: Row, dialect: string)
    requires FoldDateTruncComparison(e, parent, dialect).Some?
    ensures DateTruncOf(e.operand, dialect).Some? && ExtractDateValue(e.right).Some?
    ensures var unit := DateTruncOf(e.operand, dialect).value.1;
            var date := ExtractDateValue(e.right).value.0;
            && Truncates(unit)
            && (Eval(FoldDateTruncComparison(e, parent, dialect).value, row, dialect) == Eval(e, row, dialect)
                <==> BoundFits(e.cmp, date, unit, dialect) || Eval(e, row, dialect).Undefined?)
  {
    RewriteEvaluates(e, parent, row, dialect);
    ComparisonEvaluates(e, row, dialect);
    if e.cmp == EQ || e.cmp == NEQ {
      EqualityHasRange(e, parent, dialect);
    }
    hide Bounds, AllFourDigit, FloorOf, CompareTimes, Eval, BoundFits, ExtractDateValue, DateTruncRange, Truncates;
    ExtractedYears(e.right);
    BoundsFit(e.cmp, ExtractDateValue(e.right).value.0, DateTruncOf(e.operand, dialect).value.1, dialect);
  }

  lemma EqualityHasRange(e: Expr, parent: Parent, dialect: string)
    requires FoldDateTruncComparison(e, parent, dialect).Some? && (e.cmp == EQ || e.cmp == NEQ)
    ensures DateTruncRange(ExtractDateValue(e.right).value.0, DateTruncOf(e.operand, dialect).value.1, dialect).Some?
  {
    hide DateTruncRange, ExtractDateValue, DateTruncOf, DateValueLiteral, DateTruncCeil, DateTruncNextFloor;
  }

  lemma RangeConditionDeclines(op: CompareClass, l: Expr, unit: Unit, date: Instant, typeName: string,
                               parent: Parent, dialect: string)
    requires Truncates(unit)
    ensures RangeCondition(op, l, unit, date, typeName, parent, dialect).None?
       <==> (op == EQ || op == NEQ) && DateTruncRange(date, unit, dialect).None?
  {
    if op != EQ && op != NEQ {
      BoundaryIsBuilt(op, l, unit, date, typeName, parent, dialect);
    }
    hide DateTruncRange, DateTruncCeil, DateTruncNextFloor, DateValueLiteral, Boundary;
  }

  lemma RangelessDates(date: Instant, unit: Unit, dialect: string)
    requires Truncates(unit)
    ensures DateTruncRange(date, unit, dialect).None? <==> forall l: Instant :: FloorOf(l, unit, dialect) != date
  {
    hide DateTruncFloor, AddCalendarInterval;
    if DateTruncRange(date, unit, dialect).None? {
      forall l: Instant
        ensures FloorOf(l, unit, dialect) != date
      {
        NoRangeMeansNoFloor(l, date, unit, dialect);
      }
    } else {
      assert FloorOf(date, unit, dialect) == date;
    }
  }

  /** It declines only EQ and NEQ, and those exactly when nothing can truncate to the date. */
  lemma ComparisonFoldDeclines(e: Expr, parent: Parent, dialect: string)
    requires e.Compare? && DateTruncOf(e.operand, dialect).Some? && ExtractDateValue(e.right).Some?
    ensures var unit := DateTruncOf(e.operand, dialect).value.1;
            var date := ExtractDateValue(e.right).value.0;
            && Truncates(unit)
            && (FoldDateTruncComparison(e, parent, dialect).None?
                <==> (e.cmp == EQ || e.cmp == NEQ) && forall l: Instant :: FloorOf(l, unit, dialect) != date)
  {
    var (l, unit) := DateTruncOf(e.operand, dialect).value;
    var (date, typeName) := ExtractDateValue(e.right).value;
    TruncEvaluates(e.operand, map[], dialect);
    assert !e.operand.Absent? && !e.right.Absent?;
    hide RangeCondition, DateTruncOf, ExtractDateValue, FloorOf, Truncates, DateTruncRange;
    RangeConditionDeclines(e.cmp, l, unit, date, typeName, parent, dialect);
    RangelessDates(date, unit, dialect);
  }

  /** DATE_TRUNC('YEAR', column) > a date of the year 9999, any of them: the bound is written in five digits and cannot
      be read. */
  lemma BoundPastYear9999(c: Civil, name: string, v: Instant, dialect: string)
    requires ValidCivil(c) && c.year == 9999
    ensures var e := Compare(GT, Trunc(DateTrunc, Column(name), Var("YEAR")), DateValueLiteral(MidnightOf(c), "DATE"));
            var row := map[name := TimeValue(v)];
            && FoldDateTruncComparison(e, NoParent, dialect).Some?
            && Eval(e, row, dialect).BoolValue?
            && Eval(FoldDateTruncComparison(e, NoParent, dialect).value, row, dialect).Undefined?
  {
    assert Date(MidnightOf(c)).year == 9999 by {
      CivilOfDayNumber(c);
    }
    assert IsTemporal("DATE") && Truncates(Year);
    hide *;
    var date := DateValueLiteral(MidnightOf(c), "DATE");
    var l := Trunc(DateTrunc, Column(name), Var("YEAR"));
    var row := map[name := TimeValue(v)];
    YearOfColumn(name, v, dialect);
    DateReadsBack(c);
    PastTheYear(MidnightOf(c), dialect);
    ComparisonOf(GT, l, date, dialect);
    BoundaryConditionEvaluates(GT, Column(name), Year, MidnightOf(c), "DATE", NoParent, row, dialect);
    ComparisonEvaluates(Compare(GT, l, date), row, dialect);
  }

  lemma ComparisonOf(op: CompareClass, trunc: Expr, date: Expr, dialect: string)
    requires DateTruncOf(trunc, dialect).Some? && ExtractDateValue(date).Some?
    ensures var (l, unit) := DateTruncOf(trunc, dialect).value;
            var (t, typeName) := ExtractDateValue(date).value;
            FoldDateTruncComparison(Compare(op, trunc, date), NoParent, dialect)
            == RangeCondition(op, l, unit, t, typeName, NoParent, dialect)
  {
    NotAbsent(date);
    hide ExtractDateValue, RangeCondition, TruncUnit;
  }

  lemma YearOfColumn(name: string, v: Instant, dialect: string)
    ensures DateTruncOf(Trunc(DateTrunc, Column(name), Var("YEAR")), dialect) == Some((Column(name), Year))
    ensures Eval(Column(name), map[name := TimeValue(v)], dialect) == TimeValue(v)
  {
    assert Upper("YEAR") == "YEAR";
  }

  lemma PastTheYear(date: Instant, dialect: string)
    requires Date(date).year == 9999
    ensures !AllFourDigit(Bounds(GT, date, Year, dialect))
  {
    hide AddMonthsClamped, CivilOf;
    BoundaryIsOnlyBound(GT, Year, date, dialect);
    var f := FloorOf(date, Year, dialect);
    CivilOfDayNumber(Civil(9999, 1, 1));
    MonthIndexMoves(f, 12);
  }

  /** Truncating a literal keeps its value but for the WEEK of a date before the first week of the year 0. */
  lemma LiteralFoldExactIff(e: Expr, row: Row, dialect: string)
    requires FoldDateTruncLiteral(e, dialect).Some?
    ensures var (date, unit) := DateTruncOf(e, dialect).value;
            && Truncates(unit) && ExtractDateValue(date).Some?
            && var t := ExtractDateValue(date).value.0;
            && var folded := Eval(FoldDateTruncLiteral(e, dialect).value, row, dialect);
            && Eval(e, row, dialect) == TimeValue(FloorOf(t, unit, dialect))
            && (folded == Eval(e, row, dialect) <==> !(unit == Week && t.day < FirstWeek(dialect)))
            && (folded != Eval(e, row, dialect) ==> folded.Undefined?)
  {
    var (date, unit) := DateTruncOf(e, dialect).value;
    hide DateTruncOf, ExtractDateValue, DateTruncFloor, DateValueLiteral, FourDigitYear, Truncates, IsTemporal;
    hide FirstWeek;
    TruncEvaluates(e, row, dialect);
    ExtractedIsValue(date, row, dialect);
    var (t, typeName) := ExtractDateValue(date).value;
    FloorIsLastStart(t, unit, dialect);
    LiteralValue(FloorOf(t, unit, dialect), typeName, row, dialect);
    ExtractedYears(date);
    FloorFits(t, unit, dialect);
  }

  /** DATE_TRUNC('WEEK', date) for the first days of the year 0, of which 1 January is a Saturday: the week is written
      with the year -1, and cannot be read. */
  lemma WeekBeforeYear0(t: Instant, row: Row, dialect: string)
    requires Midnight(t) && FIRST_DAY <= t.day < FirstWeek(dialect)
    ensures var e := Trunc(DateTrunc, DateValueLiteral(t, "DATE"), Var("WEEK"));
            && FoldDateTruncLiteral(e, dialect).Some? && Eval(e, row, dialect).TimeValue?
            && Eval(FoldDateTruncLiteral(e, dialect).value, row, dialect).Undefined?
  {
    FourDigitDay(t);
    assert FourDigitYear(t) && DayOnly(t) == t && IsTemporal("DATE");
    hide *;
    var e := Trunc(DateTrunc, DateValueLiteral(t, "DATE"), Var("WEEK"));
    MidnightReadsBack(t);
    WeekOf(DateValueLiteral(t, "DATE"), dialect);
    FoldsWhereItReads(e, dialect);
    LiteralFoldExactIff(e, row, dialect);
  }

  lemma MidnightReadsBack(t: Instant)
    requires Midnight(t) && FourDigitYear(t)
    ensures ExtractDateValue(DateValueLiteral(t, "DATE")) == Some((t, "DATE"))
  {
    hide FourDigitYear, ExtractDateValue, DateValueLiteral;
    LiteralReadsBack(t, "DATE");
  }

  lemma FoldsWhereItReads(e: Expr, dialect: string)
    requires DateTruncOf(e, dialect).Some? && ExtractDateValue(DateTruncOf(e, dialect).value.0).Some?
    ensures FoldDateTruncLiteral(e, dialect).Some?
  {
  }

  lemma WeekOf(date: Expr, dialect: string)
    requires ExtractDateValue(date).Some?
    ensures DateTruncOf(Trunc(DateTrunc, date, Var("WEEK")), dialect) == Some((date, Week))
  {
    NotAbsent(date);
    assert Upper("WEEK") == "WEEK";
    hide ExtractDateValue;
  }
}

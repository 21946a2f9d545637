/**
 `DATE_TRUNC(unit, l) IN (...)` as an OR of merged ranges on l
 (foldDateTruncIn in sqlglot/date_trunc.go).
 */
module TruncInFold {
  import opened Options
  import opened Calendar
  import opened DateArith
  import opened DateText
  import opened DateTrunc
  import opened YearLimits
  import opened DateRanges
  import opened SqlExpr
  import opened DateFold
  import opened TruncFold

  predicate AllDates(members: seq<Expr>) {
    forall i :: 0 <= i < |members| ==> ExtractDateValue(members[i]).Some?
  }

  /** The ranges of the members that are floors, in order; the others contribute none. */
  function MemberRanges(members: seq<Expr>, unit: Unit, dialect: string): seq<DateRange>
    requires AllDates(members)
  {
    if members == [] then []
    else
      var last := members[|members| - 1];
      var before := MemberRanges(members[..|members| - 1], unit, dialect);
      match DateTruncRange(ExtractDateValue(last).value.0, unit, dialect)
      case Some(r) => before + [r]
      case None => before
  }

  /** One parenthesised AND a range, joined by OR from the left. */
  function OrOfRanges(l: Expr, ranges: seq<DateRange>, typeName: string): Expr
    requires ranges != []
  {
    var n := |ranges| - 1;
    var condition := Paren(DateTruncRangeAnd(l, ranges[n], typeName));
    if n == 0 then condition else Connector(Or, OrOfRanges(l, ranges[..n], typeName), condition)
  }

  function InCondition(l: Expr, merged: seq<DateRange>, typeName: string, parent: Parent): Expr
    requires merged != []
  {
    if |merged| == 1 then ParenthesizeNestedConnector(DateTruncRangeAnd(l, merged[0], typeName), parent)
    else ParenthesizeNestedConnector(OrOfRanges(l, merged, typeName), parent)
  }

  /** An IN list of date literals over a truncation this port floors. */
  predicate IsTruncIn(e: Expr, dialect: string) {
    && e.In? && !e.operand.Absent? && DateTruncOf(e.operand, dialect).Some?
    && e.members != [] && AllDates(e.members)
  }

  function RangesOf(e: Expr, dialect: string): seq<DateRange>
    requires IsTruncIn(e, dialect)
  {
    MemberRanges(e.members, DateTruncOf(e.operand, dialect).value.1, dialect)
  }

  /** r is the condition built from a merge of e's ranges, under the first member's type. */
  ghost predicate IsInFold(e: Expr, parent: Parent, dialect: string, merged: seq<DateRange>, r: Expr) {
    && IsTruncIn(e, dialect)
    && merged != [] && IsMerged(merged, RangesOf(e, dialect))
    && r == InCondition(DateTruncOf(e.operand, dialect).value.0, merged, ExtractDateValue(e.members[0]).value.1, parent)
  }

  method OrRanges(l: Expr, merged: seq<DateRange>, typeName: string) returns (result: Expr)
    requires merged != []
    ensures result == OrOfRanges(l, merged, typeName)
  {
    hide DateTruncRangeAnd;
    result := Absent;
    for i := 0 to |merged|
      invariant i == 0 ==> result == Absent
      invariant i > 0 ==> result == OrOfRanges(l, merged[..i], typeName)
    {
      var condition := Paren(DateTruncRangeAnd(l, merged[i], typeName));
      assert merged[..i + 1][..i] == merged[..i];
      if i == 0 {
        result := condition;
      } else {
        result := Connector(Or, result, condition);
      }
    }
    assert merged[..|merged|] == merged;
  }

  /** foldDateTruncIn: it declines unless every member is a date literal and some member is a floor. */
  method FoldDateTruncIn(e: Expr, parent: Parent, dialect: string) returns (r: Option<Expr>)
    ensures r.Some? <==> IsTruncIn(e, dialect) && RangesOf(e, dialect) != []
    ensures r.Some? ==> exists merged :: IsInFold(e, parent, dialect, merged, r.value)
  {
    hide ExtractDateValue, DateTruncOf, DateTruncRange, DateTruncRangeAnd, IsMerged, ParenthesizeNestedConnector;
    if !e.In? || e.operand.Absent? {
      return None;
    }
    var truncOf := DateTruncOf(e.operand, dialect);
    if truncOf.None? || |e.members| == 0 {
      return None;
    }
    var (l, unit) := truncOf.value;
    var ranges: seq<DateRange> := [];
    var typeName := "";
    for i := 0 to |e.members|
      invariant AllDates(e.members[..i])
      invariant ranges == MemberRanges(e.members[..i], unit, dialect)
      invariant i > 0 ==> typeName == ExtractDateValue(e.members[0]).value.1
    {
      var read := ExtractDateValue(e.members[i]);
      assert e.members[..i + 1][..i] == e.members[..i];
      if read.None? {
        return None;
      }
      if i == 0 {
        typeName := read.value.1;
      }
      var range := DateTruncRange(read.value.0, unit, dialect);
      if range.Some? {
        ranges := ranges + [range.value];
      }
    }
    assert e.members[..|e.members|] == e.members;
    if |ranges| == 0 {
      return None;
    }
    var merged := MergeDateRanges(ranges);
    if |merged| == 1 {
      r := Some(ParenthesizeNestedConnector(DateTruncRangeAnd(l, merged[0], typeName), parent));
    } else {
      var ored := OrRanges(l, merged, typeName);
      r := Some(ParenthesizeNestedConnector(ored, parent));
    }
    assert IsInFold(e, parent, dialect, merged, r.value);
  }

  // ------------------------------------------------------------------- meaning

  /** Some member of the list is the instant. */
  predicate IsMember(t: Instant, members: seq<Expr>)
    requires AllDates(members)
  {
    exists i :: 0 <= i < |members| && ExtractDateValue(members[i]).value.0 == t
  }

  /** The off-floor members are dropped for good reason: only the ranges' instants truncate into the list. */
  lemma {:induction false} RangesAreMembership(l: Instant, members: seq<Expr>, unit: Unit, dialect: string)
    requires Truncates(unit) && AllDates(members)
    ensures Covered(l, MemberRanges(members, unit, dialect)) <==> IsMember(FloorOf(l, unit, dialect), members)
  {
    hide FloorOf, Truncates, DateTruncRange, ExtractDateValue, InRange;
    if members == [] {
    } else {
      var n := |members| - 1;
      var d := ExtractDateValue(members[n]).value.0;
      RangesAreMembership(l, members[..n], unit, dialect);
      MemberSplits(FloorOf(l, unit, dialect), members);
      match DateTruncRange(d, unit, dialect) {
        case Some(r) =>
          RangeIsPreimage(l, d, unit, dialect);
          CoverSplits(l, MemberRanges(members[..n], unit, dialect), [r]);
        case None =>
          NoRangeMeansNoFloor(l, d, unit, dialect);
      }
    }
  }

  lemma MemberSplits(t: Instant, members: seq<Expr>)
    requires members != [] && AllDates(members)
    ensures var n := |members| - 1;
            IsMember(t, members) <==> IsMember(t, members[..n]) || ExtractDateValue(members[n]).value.0 == t
  {
    hide ExtractDateValue;
    var n := |members| - 1;
    if IsMember(t, members[..n]) {
      var i :| 0 <= i < n && ExtractDateValue(members[..n][i]).value.0 == t;
      assert ExtractDateValue(members[i]).value.0 == t;
    }
    if IsMember(t, members) && ExtractDateValue(members[n]).value.0 != t {
      var i :| 0 <= i < |members| && ExtractDateValue(members[i]).value.0 == t;
      assert ExtractDateValue(members[..n][i]).value.0 == t;
    }
  }

  /** Every range of the list is a non-empty one between midnights. */
  lemma {:induction false} RangesAreProper(members: seq<Expr>, unit: Unit, dialect: string)
    requires Truncates(unit) && AllDates(members)
    ensures forall r :: r in MemberRanges(members, unit, dialect) ==> NonEmpty(r) && Midnight(r.low) && Midnight(r.high)
  {
    hide Truncates, DateTruncRange, ExtractDateValue;
    if members == [] {
    } else {
      var n := |members| - 1;
      var d := ExtractDateValue(members[n]).value.0;
      RangesAreProper(members[..n], unit, dialect);
      if DateTruncRange(d, unit, dialect).Some? {
        RangeIsPreimage(d, d, unit, dialect);
      }
    }
  }

  predicate AllWritable(ranges: seq<DateRange>) {
    forall r :: r in ranges ==> FourDigitYear(r.low) && FourDigitYear(r.high)
  }

  predicate AllMidnights(ranges: seq<DateRange>) {
    forall r :: r in ranges ==> Midnight(r.low) && Midnight(r.high)
  }

  /** The OR of the ranges holds of exactly what they cover. */
  lemma LiftedOr(v: SqlValue, a: bool, p: bool, b: bool, q: bool)
    ensures Connect(Or, if a then Lifted(v, p) else Undefined, if b then Lifted(v, q) else Undefined)
         == if a && b then Lifted(v, p || q) else Undefined
  {
  }

  lemma {:induction false} OrEvaluates(l: Expr, ranges: seq<DateRange>, typeName: string, row: Row, dialect: string)
    requires ranges != [] && IsTemporal(typeName) && AllMidnights(ranges)
    ensures var v := Eval(l, row, dialect);
            Eval(OrOfRanges(l, ranges, typeName), row, dialect)
            == if AllWritable(ranges) then Lifted(v, v.TimeValue? && Covered(v.time, ranges)) else Undefined
  {
    hide Eval, DateTruncRangeAnd, FourDigitYear, Covered, InRange, IsTemporal;
    var n := |ranges| - 1;
    var v := Eval(l, row, dialect);
    var front, last := ranges[..n], ranges[n];
    var conjunction := DateTruncRangeAnd(l, last, typeName);
    assert ranges == front + [last];
    RangeAndEvaluates(l, last, typeName, row, dialect);
    ParenEvaluates(conjunction, row, dialect);
    if v.TimeValue? {
      CoverSplits(v.time, front, [last]);
      CoverSplits(v.time, [], [last]);
    }
    var writable := FourDigitYear(last.low) && FourDigitYear(last.high);
    assert AllWritable(ranges) <==> AllWritable(front) && writable;
    if n == 0 {
      assert [] + [last] == ranges;
    } else {
      OrEvaluates(l, front, typeName, row, dialect);
      ConnectorEvaluates(Or, OrOfRanges(l, front, typeName), Paren(conjunction), row, dialect);
      hide Connect, Lifted, AllWritable;
      LiftedOr(v, AllWritable(front), v.TimeValue? && Covered(v.time, front),
               writable, v.TimeValue? && InRange(v.time, last));
    }
  }

  lemma InConditionEvaluates(l: Expr, merged: seq<DateRange>, typeName: string, parent: Parent, row: Row, dialect: string)
    requires merged != [] && IsTemporal(typeName) && AllMidnights(merged)
    ensures var v := Eval(l, row, dialect);
            Eval(InCondition(l, merged, typeName, parent), row, dialect)
            == if AllWritable(merged) then Lifted(v, v.TimeValue? && Covered(v.time, merged)) else Undefined
  {
    hide Eval, DateTruncRangeAnd, Covered, ParenthesizeNestedConnector, IsTemporal;
    OrEvaluates(l, merged, typeName, row, dialect);
    if |merged| == 1 {
      var one := DateTruncRangeAnd(l, merged[0], typeName);
      ParenthesesKeepMeaning(one, parent, row, dialect);
      ParenEvaluates(one, row, dialect);
    } else {
      ParenthesesKeepMeaning(OrOfRanges(l, merged, typeName), parent, row, dialect);
    }
  }

  /** x IN (d1, ..., dn) over instants is membership. */
  lemma {:induction false} InValueIsMembership(v: SqlValue, members: seq<Expr>, values: seq<SqlValue>)
    requires AllDates(members) && |values| == |members|
    requires forall i :: 0 <= i < |values| ==> values[i] == TimeValue(ExtractDateValue(members[i]).value.0)
    ensures members != [] || !v.Null? ==> InValue(v, values) == Lifted(v, v.TimeValue? && IsMember(v.time, members))
    ensures members == [] && v.Null? ==> InValue(v, values) == BoolValue(false)
  {
    hide ExtractDateValue;
    if members == [] {
    } else {
      var rest := members[1..];
      InValueIsMembership(v, rest, values[1..]);
      if v.TimeValue? {
        assert IsMember(v.time, members) <==> values[0] == v || IsMember(v.time, rest) by {
          HeadOrRest(v.time, members);
        }
      }
    }
  }

  lemma HeadOrRest(t: Instant, members: seq<Expr>)
    requires members != [] && AllDates(members)
    ensures IsMember(t, members) <==> ExtractDateValue(members[0]).value.0 == t || IsMember(t, members[1..])
  {
    hide ExtractDateValue;
    if IsMember(t, members[1..]) {
      var i :| 0 <= i < |members| - 1 && ExtractDateValue(members[1..][i]).value.0 == t;
      assert ExtractDateValue(members[i + 1]).value.0 == t;
    }
    if IsMember(t, members) && ExtractDateValue(members[0]).value.0 != t {
      var i :| 0 <= i < |members| && ExtractDateValue(members[i]).value.0 == t;
      assert ExtractDateValue(members[1..][i - 1]).value.0 == t;
    }
  }

  /** What the IN list means: the floor of l is a member. */
  lemma InEvaluates(e: Expr, row: Row, dialect: string)
    requires IsTruncIn(e, dialect)
    ensures var (l, unit) := DateTruncOf(e.operand, dialect).value;
            var v := Eval(l, row, dialect);
            && Truncates(unit)
            && Eval(e, row, dialect)
               == Lifted(v, v.TimeValue? && IsMember(FloorOf(v.time, unit, dialect), e.members))
  {
    var members := e.members;
    var values := seq(|members|, i requires 0 <= i < |members| => Eval(members[i], row, dialect));
    assert Eval(e, row, dialect) == InValue(Eval(e.operand, row, dialect), values);
    hide Eval, ExtractDateValue, DateTruncOf, FloorOf, InValue, Truncates;
    TruncEvaluates(e.operand, row, dialect);
    forall i | 0 <= i < |members|
      ensures values[i] == TimeValue(ExtractDateValue(members[i]).value.0)
    {
      ExtractedIsValue(members[i], row, dialect);
    }
    InValueIsMembership(Eval(e.operand, row, dialect), members, values);
  }

  lemma MergedAreMidnights(merged: seq<DateRange>, members: seq<Expr>, unit: Unit, dialect: string)
    requires Truncates(unit) && AllDates(members) && IsMerged(merged, MemberRanges(members, unit, dialect))
    ensures AllMidnights(merged)
  {
    hide Covered, Gapped, Truncates;
    RangesAreProper(members, unit, dialect);
    hide MemberRanges;
  }

  // ------------------------------------------------------------ which lists fit

  /** No floor among the members begins the last unit of the year 9999 or lies after it. */
  predicate MembersFit(members: seq<Expr>, unit: Unit, dialect: string)
    requires AllDates(members) && Truncates(unit)
  {
    forall i :: 0 <= i < |members| ==> MemberFits(ExtractDateValue(members[i]).value.0, unit, dialect)
  }

  predicate MemberFits(date: Instant, unit: Unit, dialect: string)
    requires Truncates(unit)
  {
    FloorOf(date, unit, dialect) == date ==> Before(date, LastFloor(unit, dialect))
  }

  /** The end of a merged range is covered by none. */
  lemma EndsAreOpen(a: seq<DateRange>, i: nat)
    requires Gapped(a) && (forall r :: r in a ==> NonEmpty(r)) && i < |a|
    ensures !Covered(a[i].high, a)
  {
    forall j | 0 <= j < |a| ensures !InRange(a[i].high, a[j]) {
      if i < j {
        GappedOrder(a, i, j);
      } else if j < i {
        GappedOrder(a, j, i);
        assert NonEmpty(a[i]);
      }
    }
  }

  /** Every range of the input lies inside one merged range. */
  lemma InsideOne(r: DateRange, merged: seq<DateRange>, ranges: seq<DateRange>) returns (i: nat)
    requires IsMerged(merged, ranges) && r in ranges && forall x :: x in ranges ==> NonEmpty(x)
    ensures i < |merged| && !Before(r.low, merged[i].low) && !Before(merged[i].high, r.high)
  {
    assert NonEmpty(r) && InRange(r.low, r);
    assert Covered(r.low, ranges) && Covered(r.low, merged);
    var m :| m in merged && InRange(r.low, m);
    i :| 0 <= i < |merged| && merged[i] == m;
    EndsAreOpen(merged, i);
    assert !Covered(m.high, ranges);
    assert !InRange(m.high, r);
  }

  /** Merging does not change whether all bounds can be written. */
  lemma MergedWritable(merged: seq<DateRange>, ranges: seq<DateRange>)
    requires IsMerged(merged, ranges) && forall x :: x in ranges ==> NonEmpty(x)
    ensures AllWritable(merged) <==> AllWritable(ranges)
  {
    hide FourDigitYear, Covered, Gapped;
    if AllWritable(merged) {
      forall r | r in ranges ensures FourDigitYear(r.low) && FourDigitYear(r.high) {
        var i := InsideOne(r, merged, ranges);
        assert merged[i] in merged && NonEmpty(r);
        FourDigitDay(r.low);
        FourDigitDay(r.high);
        FourDigitDay(merged[i].low);
        FourDigitDay(merged[i].high);
      }
    }
  }

  lemma {:induction false} RangesWritable(members: seq<Expr>, unit: Unit, dialect: string)
    requires AllDates(members) && Truncates(unit)
    ensures AllWritable(MemberRanges(members, unit, dialect)) <==> MembersFit(members, unit, dialect)
  {
    hide Truncates, ExtractDateValue, DateTruncRange, FourDigitYear, MemberFits;
    if members == [] {
    } else {
      var n := |members| - 1;
      var d := ExtractDateValue(members[n]).value.0;
      RangesWritable(members[..n], unit, dialect);
      ExtractedYears(members[n]);
      RangeWritable(d, unit, dialect);
      assert MembersFit(members, unit, dialect) <==> MembersFit(members[..n], unit, dialect) && MemberFits(d, unit, dialect);
    }
  }

  lemma RangeWritable(d: Instant, unit: Unit, dialect: string)
    requires Truncates(unit) && FourDigitYear(d)
    ensures MemberFits(d, unit, dialect)
       <==> match DateTruncRange(d, unit, dialect) {
              case Some(r) => FourDigitYear(r.low) && FourDigitYear(r.high)
              case None => true
            }
  {
    hide FourDigitYear, Truncates, LastFloor;
    NextFits(d, unit, dialect);
    if DateTruncRange(d, unit, dialect).Some? {
      RangeBounds(d, unit, dialect);
    } else {
      NoRangeMeansNoFloor(d, d, unit, dialect);
    }
  }

  /** The folded IN list has the three-valued truth of the written one in every row, NULL included, exactly when no
      member that is a floor begins the last unit of the year 9999 (or the list had no meaning to keep). */
  lemma InFoldExactIff(e: Expr, parent: Parent, merged: seq<DateRange>, r: Expr, row: Row, dialect: string)
    requires IsInFold(e, parent, dialect, merged, r)
    ensures var unit := DateTruncOf(e.operand, dialect).value.1;
            && Truncates(unit)
            && (Eval(r, row, dialect) == Eval(e, row, dialect)
                <==> MembersFit(e.members, unit, dialect) || Eval(e, row, dialect).Undefined?)
  {
    var (l, unit) := DateTruncOf(e.operand, dialect).value;
    var v := Eval(l, row, dialect);
    var typeName := ExtractDateValue(e.members[0]).value.1;
    hide Eval, ExtractDateValue, DateTruncOf, FloorOf, Truncates, InCondition, IsMember, AllWritable, IsTemporal;
    hide MembersFit;
    assert merged != [] && AllDates(e.members);
    InEvaluates(e, row, dialect);
    ExtractedIsValue(e.members[0], row, dialect);
    MergedAreMidnights(merged, e.members, unit, dialect);
    RangesAreProper(e.members, unit, dialect);
    RangesWritable(e.members, unit, dialect);
    hide MemberRanges, IsMerged;
    MergedWritable(merged, MemberRanges(e.members, unit, dialect));
    InConditionEvaluates(l, merged, typeName, parent, row, dialect);
    if v.TimeValue? {
      CoveredAlike(v.time, merged, MemberRanges(e.members, unit, dialect));
      RangesAreMembership(v.time, e.members, unit, dialect);
    }
  }

  lemma CoveredAlike(t: Instant, merged: seq<DateRange>, ranges: seq<DateRange>)
    requires IsMerged(merged, ranges)
    ensures Covered(t, merged) <==> Covered(t, ranges)
  {
  }

  /** DATE_TRUNC('YEAR', column) IN (DATE '9999-01-01'), by LastYear: folded as every such list is, to a range that
      would end in the year 10000. */
  lemma ListInYear9999(name: string, v: Instant, parent: Parent, dialect: string)
    ensures var t := LastFloor(Year, dialect);
            var e := In(Trunc(DateTrunc, Column(name), Var("YEAR")), [DateValueLiteral(t, "DATE")]);
            var row := map[name := TimeValue(v)];
            && IsTruncIn(e, dialect) && RangesOf(e, dialect) != []
            && forall merged, r :: IsInFold(e, parent, dialect, merged, r) ==> Eval(r, row, dialect) != Eval(e, row, dialect)
  {
    assert Truncates(Year);
    hide *;
    LastFloorReads(dialect);
    YearOfColumn(name, v, dialect);
    var e := In(Trunc(DateTrunc, Column(name), Var("YEAR")), [DateValueLiteral(LastFloor(Year, dialect), "DATE")]);
    ListOfOne(e, LastFloor(Year, dialect), Year, dialect);
    UnfitListChanges(e, parent, map[name := TimeValue(v)], dialect);
  }

  lemma UnfitListChanges(e: Expr, parent: Parent, row: Row, dialect: string)
    requires IsTruncIn(e, dialect) && Eval(DateTruncOf(e.operand, dialect).value.0, row, dialect).TimeValue?
    requires Truncates(DateTruncOf(e.operand, dialect).value.1)
    requires !MembersFit(e.members, DateTruncOf(e.operand, dialect).value.1, dialect)
    ensures forall merged, r :: IsInFold(e, parent, dialect, merged, r) ==> Eval(r, row, dialect) != Eval(e, row, dialect)
  {
    hide Eval, ExtractDateValue, DateTruncOf, FloorOf, IsInFold, MembersFit, Truncates;
    InEvaluates(e, row, dialect);
    forall merged, r | IsInFold(e, parent, dialect, merged, r) ensures Eval(r, row, dialect) != Eval(e, row, dialect) {
      InFoldExactIff(e, parent, merged, r, row, dialect);
    }
  }

  lemma LastFloorReads(dialect: string)
    ensures FloorOf(LastFloor(Year, dialect), Year, dialect) == LastFloor(Year, dialect)
    ensures ExtractDateValue(DateValueLiteral(LastFloor(Year, dialect), "DATE")) == Some((LastFloor(Year, dialect), "DATE"))
  {
    hide CivilOf, DayNumber, FloorOf, LastFloor, ExtractDateValue, DateValueLiteral;
    LastYear(dialect);
    LastDay();
    CivilOfDayNumber(Civil(9999, 1, 1));
    MidnightReadsBack(LastFloor(Year, dialect));
  }

  lemma ListOfOne(e: Expr, t: Instant, unit: Unit, dialect: string)
    requires e.In? && |e.members| == 1 && !e.operand.Absent?
    requires DateTruncOf(e.operand, dialect).Some? && DateTruncOf(e.operand, dialect).value.1 == unit
    requires ExtractDateValue(e.members[0]).Some? && ExtractDateValue(e.members[0]).value.0 == t
    requires Truncates(unit) && FloorOf(t, unit, dialect) == t == LastFloor(unit, dialect)
    ensures IsTruncIn(e, dialect) && RangesOf(e, dialect) != [] && !MembersFit(e.members, unit, dialect)
  {
    hide ExtractDateValue, DateTruncOf, FloorOf, LastFloor, Truncates, DateTruncRange;
    FloorsHaveRanges(t, unit, dialect);
    assert !MemberFits(ExtractDateValue(e.members[0]).value.0, unit, dialect);
  }

  lemma FloorsHaveRanges(t: Instant, unit: Unit, dialect: string)
    requires Truncates(unit) && FloorOf(t, unit, dialect) == t
    ensures DateTruncRange(t, unit, dialect).Some?
  {
    hide FloorOf, Truncates;
    if DateTruncRange(t, unit, dialect).None? {
      NoRangeMeansNoFloor(t, t, unit, dialect);
    }
  }

  lemma LastYear(dialect: string)
    ensures LastFloor(Year, dialect) == MidnightOf(Civil(9999, 1, 1))
    ensures FloorOf(MidnightOf(Civil(9999, 1, 1)), Year, dialect) == MidnightOf(Civil(9999, 1, 1))
  {
    hide CivilOf, DayNumber, DateTruncFloor, PeriodStart;
    LastDay();
    CivilOfDayNumber(Civil(9999, 1, 1));
    PeriodFloorValue(Time(PAST_DAY - 1, 0), Year, dialect);
    PeriodFloorValue(MidnightOf(Civil(9999, 1, 1)), Year, dialect);
    YearStarts(Civil(9999, 12, 31));
    YearStarts(Civil(9999, 1, 1));
  }

  lemma LastDay()
    ensures CivilOf(PAST_DAY - 1) == Civil(9999, 12, 31)
  {
    hide CivilOf;
    CivilOfDayNumber(Civil(9999, 12, 31));
  }

  lemma YearStarts(c: Civil)
    requires ValidCivil(c)
    ensures PeriodStart(c, Year) == Civil(c.year, 1, 1)
  {
  }

  /** The floors of a unit among two lists of dates are the same. */
  ghost predicate SameFloors(a: seq<Expr>, b: seq<Expr>, unit: Unit, dialect: string)
    requires AllDates(a) && AllDates(b) && Truncates(unit)
  {
    forall t: Instant :: FloorOf(t, unit, dialect) == t ==> (IsMember(t, a) <==> IsMember(t, b))
  }

  /** The floors among the members are just what the ranges know of them. */
  lemma CoverKnowsFloors(a: seq<Expr>, b: seq<Expr>, unit: Unit, dialect: string)
    requires AllDates(a) && AllDates(b) && Truncates(unit)
    ensures SameCover(MemberRanges(a, unit, dialect), MemberRanges(b, unit, dialect))
       <==> SameFloors(a, b, unit, dialect)
  {
    hide FloorOf, Truncates, MemberRanges, IsMember, Covered, NextOf;
    forall l: Instant
      ensures FloorOf(FloorOf(l, unit, dialect), unit, dialect) == FloorOf(l, unit, dialect)
      ensures Covered(l, MemberRanges(a, unit, dialect)) <==> IsMember(FloorOf(l, unit, dialect), a)
      ensures Covered(l, MemberRanges(b, unit, dialect)) <==> IsMember(FloorOf(l, unit, dialect), b)
    {
      RangesAreMembership(l, a, unit, dialect);
      RangesAreMembership(l, b, unit, dialect);
      FloorsPartition(l, l, unit, dialect);
    }
  }

  /** Whatever order or repetition the members come in, and whatever dates off the floors are among them, lists of one
      unit fold to the same ranges exactly when they have the same floors. */
  lemma InFoldIsCanonical(a: Expr, b: Expr, dialect: string, pa: Parent, pb: Parent,
                          ma: seq<DateRange>, mb: seq<DateRange>, ra: Expr, rb: Expr)
    requires IsInFold(a, pa, dialect, ma, ra) && IsInFold(b, pb, dialect, mb, rb)
    requires DateTruncOf(a.operand, dialect).value.1 == DateTruncOf(b.operand, dialect).value.1
    ensures var unit := DateTruncOf(a.operand, dialect).value.1;
            Truncates(unit) && (ma == mb <==> SameFloors(a.members, b.members, unit, dialect))
  {
    hide Eval, ExtractDateValue, InCondition, Covered, Truncates, SameFloors, MemberRanges;
    TruncEvaluates(a.operand, map[], dialect);
    var unit := DateTruncOf(a.operand, dialect).value.1;
    hide DateTruncOf;
    RangesAreProper(a.members, unit, dialect);
    RangesAreProper(b.members, unit, dialect);
    CoverKnowsFloors(a.members, b.members, unit, dialect);
    if SameFloors(a.members, b.members, unit, dialect) {
      MergedIsCanonical(ma, mb);
    }
  }
}

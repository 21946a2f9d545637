/**
 What the units of an interval are (monthUnits and durationUnits in
 sqlglot/date_arith.go), said on the clock and by their names, and which
 expressions foldDateArithmetic takes for a date and an interval.
 */
module UnitLaws {
  import opened Options
  import opened Arithmetic
  import opened Numerals
  import opened MachineInts
  import opened Calendar
  import opened DateArith
  import opened SqlExpr
  import opened DateFold

  // ------------------------------------------------------------------- the units

  /** Seconds from the first midnight, by the calendar and the clock face. */
  function SecondsOf(t: Instant): int {
    86400 * t.day + 3600 * HourOf(t) + 60 * MinuteOf(t) + SecondOf(t)
  }

  lemma SecondsRead(t: Instant)
    ensures Nanos(t) == 1_000_000_000 * SecondsOf(t) + t.clock % 1_000_000_000
  {
    ClockParts(t);
  }

  /** n seconds on, the clock and the calendar together show n seconds more, and the fraction stays. */
  lemma SecondsAreSeconds(t: Instant, n: int)
    ensures var r := Step(t, Second, n);
            && SecondsOf(r) == SecondsOf(t) + n && r.clock % 1_000_000_000 == t.clock % 1_000_000_000
            && (FitsInt64(n * 1_000_000_000) ==> AddCalendarInterval(t, Second, n) == r)
  {
    var r := Step(t, Second, n);
    AddNanosAdds(t, n * 1_000_000_000);
    SecondsRead(t);
    SecondsRead(r);
    hide HourOf, MinuteOf, SecondOf;
    DivModIs(Nanos(r), 1_000_000_000, SecondsOf(t) + n, t.clock % 1_000_000_000);
    DivModIs(Nanos(r), 1_000_000_000, SecondsOf(r), r.clock % 1_000_000_000);
  }

  /** A minute is 60 seconds, an hour 60 minutes, a day 24 hours, a week 7 days, and the calendar moves as it should. */
  lemma DurationsAreSeconds(t: Instant, n: int)
    ensures Step(t, Minute, n) == Step(t, Second, 60 * n)
    ensures Step(t, Hour, n) == Step(t, Minute, 60 * n)
    ensures Step(t, Day, n) == Step(t, Hour, 24 * n) == Time(t.day + n, t.clock)
    ensures Step(t, Week, n) == Step(t, Day, 7 * n) == Time(t.day + 7 * n, t.clock)
  {
    WholeDays(t, n);
    WholeDays(t, 7 * n);
    hide AddNanos;
  }

  lemma WholeDays(t: Instant, n: int)
    ensures Step(t, Day, n) == Time(t.day + n, t.clock)
  {
    DivModIs(t.clock + n * NANOS_PER_DAY, NANOS_PER_DAY, n, t.clock);
  }

  /** So they are in the machine, wrap-around and all. */
  lemma MachineDurations(t: Instant, n: int)
    ensures AddCalendarInterval(t, Minute, n) == AddCalendarInterval(t, Second, 60 * n)
    ensures AddCalendarInterval(t, Hour, n) == AddCalendarInterval(t, Minute, 60 * n)
    ensures AddCalendarInterval(t, Day, n) == AddCalendarInterval(t, Hour, 24 * n)
    ensures AddCalendarInterval(t, Week, n) == AddCalendarInterval(t, Day, 7 * n)
  {
    hide Wrap64, AddNanos;
  }

  /** A year is 12 months and a quarter 3, and a month is the next one. */
  lemma CalendarUnits(t: Instant, n: int)
    ensures Step(t, Year, n) == Step(t, Month, 12 * n) && Step(t, Quarter, n) == Step(t, Month, 3 * n)
    ensures AddCalendarInterval(t, Year, n) == AddCalendarInterval(t, Month, 12 * n)
    ensures AddCalendarInterval(t, Quarter, n) == AddCalendarInterval(t, Month, 3 * n)
    ensures MonthIndex(Date(Step(t, Month, n))) == MonthIndex(Date(t)) + n
    ensures FitsInt64(n) ==> MonthIndex(Date(AddCalendarInterval(t, Month, n))) == MonthIndex(Date(t)) + n
  {
    hide AddMonthsClamped, ShiftMonths, CivilOf, DayNumber, Wrap64, MonthLength;
    MonthIndexMoves(t, n);
    AddMonthsIsShift(t, n);
    CivilOfDayNumber(ShiftMonths(Date(t), n));
    assert DropFraction(Time(DayNumber(ShiftMonths(Date(t), n)), t.clock)).day == DayNumber(ShiftMonths(Date(t), n));
  }

  // ------------------------------------------------------------------- by name

  /** The units by their names, in the instant that a fold writes; no other name is a unit. */
  lemma NamedUnits(t: Instant, typeName: string, name: string, n: int)
    ensures name == "MINUTE" ==> FoldDateResult(t, typeName, name, n) == FoldDateResult(t, typeName, "SECOND", 60 * n)
    ensures name == "HOUR" ==> FoldDateResult(t, typeName, name, n) == FoldDateResult(t, typeName, "MINUTE", 60 * n)
    ensures name == "DAY" ==> FoldDateResult(t, typeName, name, n) == FoldDateResult(t, typeName, "HOUR", 24 * n)
    ensures name == "WEEK" ==> FoldDateResult(t, typeName, name, n) == FoldDateResult(t, typeName, "DAY", 7 * n)
    ensures name == "QUARTER" ==> FoldDateResult(t, typeName, name, n) == FoldDateResult(t, typeName, "MONTH", 3 * n)
    ensures name == "YEAR" ==> FoldDateResult(t, typeName, name, n) == FoldDateResult(t, typeName, "MONTH", 12 * n)
    ensures name !in ["SECOND", "MINUTE", "HOUR", "DAY", "WEEK", "MONTH", "QUARTER", "YEAR"] ==>
              FoldDateResult(t, typeName, name, n).None?
  {
    MachineDurations(t, n);
    CalendarUnits(t, n);
    hide AddCalendarInterval, Step, DateValueLiteral, CivilOf;
  }

  /** SECOND moves the clock by seconds, and MONTH the calendar by months. */
  lemma NamedSteps(t: Instant, typeName: string, n: int)
    requires FitsInt64(n * 1_000_000_000)
    ensures FoldDateResult(t, typeName, "SECOND", n).Some? ==>
              exists r :: FoldDateResult(t, typeName, "SECOND", n).value == DateValueLiteral(r, typeName)
                          && SecondsOf(r) == SecondsOf(t) + n && 1 <= Date(r).year <= 9999
    ensures FoldDateResult(t, typeName, "MONTH", n).Some? ==>
              exists r :: FoldDateResult(t, typeName, "MONTH", n).value == DateValueLiteral(r, typeName)
                          && MonthIndex(Date(r)) == MonthIndex(Date(t)) + n && 1 <= Date(r).year <= 9999
  {
    SecondsAreSeconds(t, n);
    CalendarUnits(t, n);
    hide AddCalendarInterval, Step, DateValueLiteral, CivilOf, SecondsOf;
    assert UnitNamed("SECOND") == Some(Second) && UnitNamed("MONTH") == Some(Month);
  }

  // ------------------------------------------------------------ what is folded

  /** An integer that fits the machine, or one under a minus sign. */
  predicate IsAmount(e: Expr, n: int) {
    || ((e.Literal? || e.Var?) && ReadInteger(Name(e)) == Some(n) && FitsInt64(n))
    || (e.Neg? && (e.operand.Literal? || e.operand.Var?)
        && ReadInteger(Name(e.operand)) == Some(-n) && FitsInt64(-n))
  }

  /** Integers are figures, perhaps after a sign, and nothing else. */
  lemma IntegersRead(digits: string, s: string)
    requires digits != "" && AllDigits(digits, DECIMAL)
    ensures ReadInteger(digits) == ReadInteger("+" + digits) == Some(Value(digits, DECIMAL))
    ensures ReadInteger("-" + digits) == Some(-Value(digits, DECIMAL))
    ensures ReadInteger(s).Some? ==>
              exists d: string :: d != "" && AllDigits(d, DECIMAL) && (s == d || s == "+" + d || s == "-" + d)
  {
    assert IsDigit(digits[0], DECIMAL);
    assert ("+" + digits)[1..] == digits && ("-" + digits)[1..] == digits;
    hide Value;
    if ReadInteger(s).Some? && (s[0] == '-' || s[0] == '+') {
      assert s == [s[0]] + s[1..];
    }
  }

  lemma AmountRead(e: Expr, n: int)
    requires IsAmount(e, n)
    ensures IntervalAmount(e) == Some(Wrap64(n))
  {
    hide ReadInteger, Wrap64;
    var inner := if e.Neg? then e.operand else e;
    assert IsIntegerLiteral(inner);
    if e.Neg? {
      NegationWraps(-n);
    }
  }

  lemma AmountsRead(e: Expr) returns (n: int)
    requires IntervalAmount(e).Some?
    ensures IsAmount(e, n)
  {
    hide ReadInteger, Wrap64;
    var inner := if e.Neg? then e.operand else e;
    var m := Atoi(TextOf(inner)).value;
    NoInteger();
    n := if e.Neg? then -m else m;
  }

  lemma NoInteger()
    ensures ReadInteger("").None?
  {
  }

  lemma SignedAmount(amount: Expr, n: int)
    requires IsAmount(amount, n)
    ensures IntervalAmount(amount).Some? && !amount.Absent? && IntervalAmount(amount).value == Wrap64(n)
    ensures Wrap64(-IntervalAmount(amount).value) == Wrap64(-n)
  {
    AmountRead(amount, n);
    NegationWraps(n);
    hide Wrap64, IntervalAmount, ReadInteger;
  }

  lemma IntervalRead(amount: Expr, unit: Expr)
    requires IntervalAmount(amount).Some? && !amount.Absent? && !unit.Absent?
    ensures IntervalOf(Interval(amount, unit)) == Some((Upper(Name(unit)), IntervalAmount(amount).value))
    ensures ExtractDateValue(Interval(amount, unit)).None?
  {
    hide Upper, Name, IntervalAmount;
  }

  lemma IntervalOnTheRight(op: ArithClass, date: Expr, interval: Expr, t: Instant, typeName: string, name: string, n: int)
    requires ExtractDateValue(date) == Some((t, typeName)) && IntervalOf(interval) == Some((name, n))
    ensures FoldDateArithmetic(Arith(op, date, interval))
         == FoldDateResult(t, typeName, name, if op == Add then n else Wrap64(-n))
  {
    NotAbsent(date);
    IsInterval(interval);
    hide ExtractDateValue, FoldDateResult, Wrap64, IntervalOf, IntervalAmount, Upper, Name;
  }

  lemma IsInterval(interval: Expr)
    requires IntervalOf(interval).Some?
    ensures interval.Interval?
  {
    hide IntervalAmount, Upper, Name;
  }

  lemma IntervalOnTheLeft(date: Expr, interval: Expr)
    requires ExtractDateValue(interval).None? && IntervalOf(interval).Some? && ExtractDateValue(date).Some?
    ensures var (t, typeName) := ExtractDateValue(date).value;
            var (name, n) := IntervalOf(interval).value;
            FoldDateArithmetic(Arith(Add, interval, date)) == FoldDateResult(t, typeName, name, n)
  {
    NotAbsent(date);
    hide ExtractDateValue, FoldDateResult, IntervalAmount, Upper, Name;
  }

  /** An interval is added on either side of a date, and taken from it on the right. */
  lemma IntervalsFold(date: Expr, amount: Expr, unit: Expr, n: int)
    requires ExtractDateValue(date).Some? && IsAmount(amount, n) && !unit.Absent?
    ensures var (t, typeName) := ExtractDateValue(date).value;
            var name, interval := Upper(Name(unit)), Interval(amount, unit);
            && FoldDateArithmetic(Arith(Add, date, interval)) == FoldDateResult(t, typeName, name, Wrap64(n))
            && FoldDateArithmetic(Arith(Add, interval, date)) == FoldDateResult(t, typeName, name, Wrap64(n))
            && FoldDateArithmetic(Arith(Sub, date, interval)) == FoldDateResult(t, typeName, name, Wrap64(-n))
            && FoldDateArithmetic(Arith(Sub, interval, date)).None?
  {
    hide ExtractDateValue, FoldDateResult, FoldDateArithmetic, IntervalAmount, Wrap64, Upper, Name, IntervalOf, IsAmount;
    var (t, typeName) := ExtractDateValue(date).value;
    SignedAmount(amount, n);
    IntervalRead(amount, unit);
    IntervalOnTheRight(Add, date, Interval(amount, unit), t, typeName, Upper(Name(unit)), Wrap64(n));
    IntervalOnTheRight(Sub, date, Interval(amount, unit), t, typeName, Upper(Name(unit)), Wrap64(n));
    IntervalOnTheLeft(date, Interval(amount, unit));
    NoDateFromInterval(amount, unit, date);
  }

  lemma NoDateFromInterval(amount: Expr, unit: Expr, date: Expr)
    ensures FoldDateArithmetic(Arith(Sub, Interval(amount, unit), date)).None?
  {
  }

  /** The four calls add or take away by their names, and DATE_ADD counts days where it does not say. */
  lemma CallsFold(shift: ShiftClass, date: Expr, amount: Expr, unit: Expr, n: int)
    requires ExtractDateValue(date).Some? && IsAmount(amount, n)
    ensures var (t, typeName) := ExtractDateValue(date).value;
            var signed := if shift == DateSub || shift == DatetimeSub then -n else n;
            && (!unit.Absent? ==> FoldDateArithmetic(DateShift(shift, date, amount, unit))
                                  == FoldDateResult(t, typeName, Upper(Name(unit)), Wrap64(signed)))
            && FoldDateArithmetic(DateShift(shift, date, amount, Absent))
               == if shift == DateAdd then FoldDateResult(t, typeName, "DAY", Wrap64(n)) else None
  {
    NotAbsent(date);
    assert Upper("DAY") == "DAY";
    hide ExtractDateValue, FoldDateResult, IntervalAmount, Upper, Wrap64, IsAmount, FoldDateArithmetic, Name;
    SignedAmount(amount, n);
    CallWithUnit(shift, date, amount, unit);
    CallWithoutUnit(shift, date, amount);
    assert Name(Var("DAY")) == "DAY" by {
      NameOfWord();
    }
  }

  lemma NameOfWord()
    ensures Name(Var("DAY")) == "DAY"
  {
  }

  lemma CallWithUnit(shift: ShiftClass, date: Expr, amount: Expr, unit: Expr)
    requires ExtractDateValue(date).Some? && IntervalAmount(amount).Some? && !amount.Absent? && !date.Absent?
    ensures !unit.Absent? ==>
              var (t, typeName) := ExtractDateValue(date).value;
              var n := IntervalAmount(amount).value;
              FoldDateArithmetic(DateShift(shift, date, amount, unit))
              == FoldDateResult(t, typeName, Upper(Name(unit)),
                                if shift == DateSub || shift == DatetimeSub then Wrap64(-n) else n)
  {
    hide ExtractDateValue, FoldDateResult, IntervalAmount, Upper, Wrap64, Name;
  }

  lemma CallWithoutUnit(shift: ShiftClass, date: Expr, amount: Expr)
    requires ExtractDateValue(date).Some? && IntervalAmount(amount).Some? && !amount.Absent? && !date.Absent?
    ensures var (t, typeName) := ExtractDateValue(date).value;
            FoldDateArithmetic(DateShift(shift, date, amount, Absent))
            == if shift == DateAdd then FoldDateResult(t, typeName, Upper(Name(Var("DAY"))), IntervalAmount(amount).value)
               else None
  {
    hide ExtractDateValue, FoldDateResult, IntervalAmount, Upper, Wrap64, Name;
  }

  /** e is one of these. */
  predicate IsStepOf(e: Expr, date: Expr, unit: Expr, amount: Expr) {
    || e == Arith(Add, date, Interval(amount, unit)) || e == Arith(Add, Interval(amount, unit), date)
    || e == Arith(Sub, date, Interval(amount, unit))
    || (e.DateShift? && e == DateShift(e.shift, date, amount, unit))
    || (e == DateShift(DateAdd, date, amount, Absent) && unit == Var("DAY"))
  }

  /** And nothing else is folded. */
  lemma OnlyStepsFold(e: Expr) returns (date: Expr, unit: Expr, amount: Expr, n: int)
    requires FoldDateArithmetic(e).Some?
    ensures IsStepOf(e, date, unit, amount) && !unit.Absent? && IsAmount(amount, n)
    ensures ExtractDateValue(date).Some?
  {
    hide ExtractDateValue, FoldDateResult, Upper, Name, Wrap64, IsAmount, IntervalAmount;
    match e {
      case Arith(op, left, right) =>
        if ExtractDateValue(left).Some? {
          date, unit, amount := left, right.unit, right.operand;
        } else {
          date, unit, amount := right, left.unit, left.operand;
        }
      case DateShift(shift, d, right, u) =>
        date, amount := d, right;
        unit := if shift == DateAdd && u.Absent? then Var("DAY") else u;
    }
    n := AmountsRead(amount);
  }

  /** Nor is a step to a year that cannot be written. */
  lemma StepsInRange(t: Instant, typeName: string, unitName: string, n: int)
    requires UnitNamed(unitName).Some?
    ensures FoldDateResult(t, typeName, unitName, n).Some? <==>
              1 <= Date(AddCalendarInterval(t, UnitNamed(unitName).value, n)).year <= 9999
  {
    hide UnitNamed, AddCalendarInterval, CivilOf, DateValueLiteral;
  }
}

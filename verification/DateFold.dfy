/**
 Reading a date literal, writing one back, and folding date plus or minus an
 interval (sqlglot/date_arith.go). A fold is judged against `Eval`: the folded
 literal must have the value the written expression has.
 */
module DateFold {
  import opened Options
  import opened Arithmetic
  import opened MachineInts
  import opened Numerals
  import opened Calendar
  import opened DateArith
  import opened DateText
  import opened SqlExpr

  predicate IsStringLiteral(e: Expr) {
    e.Literal? && e.isString
  }

  /** extractDateValue: a cast chain's value and its outermost type. */
  function ExtractDateValue(e: Expr): Option<(Instant, string)>
    decreases e, 0
  {
    match e
    case Cast(operand, to) =>
      if !IsTemporal(to) then None
      else
        var t :- InnerDate(operand);
        Some((if to == "DATE" then DayOnly(t) else t, to))
    case TsOrDsToDate(operand, format) =>
      if !format.Absent? then None
      else
        var t :- InnerDate(operand);
        Some((DayOnly(t), "DATE"))
    case _ => None
  }

  /** What a cast reads: a string's text, or the value of another date expression. */
  function InnerDate(inner: Expr): Option<Instant>
    decreases inner, 1
  {
    if IsStringLiteral(inner) then ParseDateText(Name(inner))
    else if inner.Cast? || inner.TsOrDsToDate? then
      var (t, _) :- ExtractDateValue(inner);
      Some(t)
    else None
  }

  /** dateValueLiteral. */
  function DateValueLiteral(t: Instant, typeName: string): Expr {
    Cast(Literal(if typeName != "DATE" then FormatDateTime(t) else FormatDate(t), true), typeName)
  }

  /** isIntegerLiteral. */
  predicate IsIntegerLiteral(e: Expr) {
    if e.Neg? then IsIntegerLiteral(e.operand) else Atoi(TextOf(e)).Some?
  }

  /** intervalAmount. */
  function IntervalAmount(e: Expr): Option<int> {
    var inner := if e.Neg? then e.operand else e;
    if inner.Absent? || !IsIntegerLiteral(inner) then None
    else
      var n :- Atoi(TextOf(inner));
      Some(if e.Neg? then Wrap64(-n) else n)
  }

  /** intervalOf. */
  function IntervalOf(e: Expr): Option<(string, int)> {
    if !e.Interval? || e.operand.Absent? || e.unit.Absent? then None
    else
      var amount :- IntervalAmount(e.operand);
      Some((Upper(Name(e.unit)), amount))
  }

  /** foldDateResult. */
  function FoldDateResult(date: Instant, typeName: string, unitName: string, amount: int): Option<Expr> {
    var unit :- UnitNamed(unitName);
    var result := AddCalendarInterval(date, unit, amount);
    if Date(result).year < 1 || Date(result).year > 9999 then None
    else Some(DateValueLiteral(result, typeName))
  }

  /** foldDateIntervalBinary: an interval may lead an Add, never a Sub. */
  function FoldDateIntervalBinary(e: Expr): Option<Expr>
    requires e.Arith?
  {
    if e.operand.Absent? || e.right.Absent? then None
    else
      match ExtractDateValue(e.operand)
      case Some((date, typeName)) =>
        var (unitName, amount) :- IntervalOf(e.right);
        FoldDateResult(date, typeName, unitName, if e.op == Sub then Wrap64(-amount) else amount)
      case None =>
        if e.op != Add then None
        else
          var (date, typeName) :- ExtractDateValue(e.right);
          var (unitName, amount) :- IntervalOf(e.operand);
          FoldDateResult(date, typeName, unitName, amount)
  }

  /** supplyDefaultDay, as the node it leaves behind. */
  function SupplyDefaultDay(e: Expr): Expr
    requires e.DateShift?
  {
    if e.shift != DateAdd || !e.unit.Absent? then e else e.(unit := Var("DAY"))
  }

  /** foldDateAddFamily. */
  function FoldDateAddFamily(e: Expr): Option<Expr>
    requires e.DateShift?
  {
    if e.operand.Absent? || e.right.Absent? || e.unit.Absent? then None
    else
      var amount :- IntervalAmount(e.right);
      var (date, typeName) :- ExtractDateValue(e.operand);
      var sub := e.shift == DateSub || e.shift == DatetimeSub;
      FoldDateResult(date, typeName, Upper(Name(e.unit)), if sub then Wrap64(-amount) else amount)
  }

  /** foldDateArithmetic. */
  function FoldDateArithmetic(e: Expr): Option<Expr> {
    match e
    case Arith(_, _, _) => FoldDateIntervalBinary(e)
    case DateShift(_, _, _, _) => FoldDateAddFamily(SupplyDefaultDay(e))
    case _ => None
  }

  // ------------------------------------------------------------------- reading

  /** A literal date has the value extractDateValue reads from it, in every row; a DATE is a midnight. */
  lemma {:induction false} ExtractedIsValue(e: Expr, row: Row, dialect: string)
    requires ExtractDateValue(e).Some?
    ensures Eval(e, row, dialect) == TimeValue(ExtractDateValue(e).value.0)
    ensures IsTemporal(ExtractDateValue(e).value.1)
    ensures ExtractDateValue(e).value.1 == "DATE" ==> Midnight(ExtractDateValue(e).value.0)
  {
    hide ParseDateText;
    if IsStringLiteral(e.operand) {
    } else {
      ExtractedIsValue(e.operand, row, dialect);
    }
  }

  /** A chain of temporal casts down to one string. */
  predicate IsCastChain(e: Expr) {
    match e
    case Cast(operand, to) => IsTemporal(to) && (IsStringLiteral(operand) || IsCastChain(operand))
    case TsOrDsToDate(operand, format) => format.Absent? && (IsStringLiteral(operand) || IsCastChain(operand))
    case _ => false
  }

  /** extractDateValue reads exactly the cast chains that have a value. */
  lemma {:induction false} ExtractReadsCastChains(e: Expr, row: Row, dialect: string)
    ensures ExtractDateValue(e).Some? <==> IsCastChain(e) && Eval(e, row, dialect).TimeValue?
    ensures IsCastChain(e) ==> Eval(e, row, dialect).TimeValue? || Eval(e, row, dialect).Undefined?
  {
    hide ParseDateText;
    if !(e.Cast? || e.TsOrDsToDate?) || IsStringLiteral(e.operand) {
    } else {
      ExtractReadsCastChains(e.operand, row, dialect);
      if ExtractDateValue(e.operand).Some? {
        ExtractedIsValue(e.operand, row, dialect);
      }
    }
  }

  // ------------------------------------------------------------------- writing

  /** The part of an instant its written form holds. */
  function Written(t: Instant, typeName: string): Instant {
    if typeName == "DATE" then DayOnly(t) else DropFraction(t)
  }

  /** A written date reads back to its written part and its own type exactly when its year has four digits. */
  lemma LiteralReadsBack(t: Instant, typeName: string)
    requires IsTemporal(typeName)
    ensures ExtractDateValue(DateValueLiteral(t, typeName))
         == if FourDigitYear(t) then Some((Written(t, typeName), typeName)) else None
  {
    hide FormatDate, FormatDateTime, ParseDateText;
    DateRoundTrip(t);
    DateTimeRoundTrip(t);
  }

  lemma LiteralValue(t: Instant, typeName: string, row: Row, dialect: string)
    requires IsTemporal(typeName)
    ensures Eval(DateValueLiteral(t, typeName), row, dialect)
         == if FourDigitYear(t) then TimeValue(Written(t, typeName)) else Undefined
  {
    hide FormatDate, FormatDateTime, ParseDateText;
    DateRoundTrip(t);
    DateTimeRoundTrip(t);
  }

  // ------------------------------------------------------------------- amounts

  /** The machine amount is the written one, wrapped. */
  lemma AmountIsWritten(e: Expr)
    requires IntervalAmount(e).Some?
    ensures WrittenAmount(e).Some? && IntervalAmount(e).value == Wrap64(WrittenAmount(e).value)
  {
  }

  lemma NegationWraps(n: int)
    ensures Wrap64(-Wrap64(n)) == Wrap64(-n)
  {
    WrapOfProduct(n, -1);
    assert Wrap64(n) * -1 == -Wrap64(n) && n * -1 == -n;
  }

  // --------------------------------------------------------------- fold results

  /** When a fold's literal has the value of the step it replaces: the product fits an int64,
      no fraction of a second is lost, and a DATE moves by whole days. */
  predicate StepSurvives(t: Instant, typeName: string, unit: Unit, amount: int) {
    && FitsInt64(amount * Factor(unit))
    && WholeSeconds(t)
    && (typeName == "DATE" && !CountsMonths(unit) ==> amount * NanosPer(unit) % NANOS_PER_DAY == 0)
  }

  lemma DurationsAreSeconds(unit: Unit, n: int)
    ensures n * NanosPer(unit) % NANOS_PER_SECOND == 0
  {
    var perUnit := match unit
      case Week => 604800
      case Day => 86400
      case Hour => 3600
      case Minute => 60
      case Second => 1
      case _ => 0;
    assert NanosPer(unit) == NANOS_PER_SECOND * perUnit;
    MulAssoc(n, NANOS_PER_SECOND, perUnit);
    DivModIs(n * NanosPer(unit), NANOS_PER_SECOND, n * perUnit, 0);
  }

  lemma AddNanosClock(t: Instant, nanos: int)
    ensures nanos % NANOS_PER_SECOND == 0 ==> (WholeSeconds(AddNanos(t, nanos)) <==> WholeSeconds(t))
    ensures Midnight(t) ==> (Midnight(AddNanos(t, nanos)) <==> nanos % NANOS_PER_DAY == 0)
  {
    if nanos % NANOS_PER_SECOND == 0 {
      var total := t.clock + nanos;
      var q, r := total / NANOS_PER_DAY, total % NANOS_PER_DAY;
      DivModIs(r, NANOS_PER_SECOND,
               t.clock / NANOS_PER_SECOND + nanos / NANOS_PER_SECOND - 86400 * q, t.clock % NANOS_PER_SECOND);
    }
  }

  /** What the step does to the clock: whole seconds stay, and a midnight stays one under whole days. */
  lemma StepClock(t: Instant, unit: Unit, n: int)
    ensures WholeSeconds(Step(t, unit, n)) <==> WholeSeconds(t)
    ensures Midnight(t) ==>
              (Midnight(Step(t, unit, n)) <==> CountsMonths(unit) || n * NanosPer(unit) % NANOS_PER_DAY == 0)
  {
    hide DayNumber, CivilOf, ShiftMonths;
    DurationsAreSeconds(unit, n);
    AddNanosClock(t, n * NanosPer(unit));
  }

  lemma WrittenIsAll(t: Instant, typeName: string)
    ensures Written(t, typeName) == t <==> WholeSeconds(t) && (typeName == "DATE" ==> Midnight(t))
  {
  }

  /** When the machine step is the exact one, to the instant rather than to the second. */
  lemma StepExactOnWholeSeconds(t: Instant, unit: Unit, amount: int)
    requires WholeSeconds(t) && FitsInt64(amount * Factor(unit))
    ensures AddCalendarInterval(t, unit, amount) == Step(t, unit, amount)
  {
    hide DayNumber, CivilOf, ShiftMonths, AddMonthsClamped;
    if CountsMonths(unit) {
      AddMonthsIsShift(t, amount * MonthsPer(unit));
    }
  }

  /** The machine step, written, is the exact step exactly when it survives. */
  lemma WrittenStepExactIff(t: Instant, typeName: string, unit: Unit, amount: int)
    requires typeName == "DATE" ==> Midnight(t)
    ensures Written(AddCalendarInterval(t, unit, amount), typeName) == Step(t, unit, amount)
       <==> StepSurvives(t, typeName, unit, amount)
  {
    var got, exact := AddCalendarInterval(t, unit, amount), Step(t, unit, amount);
    hide AddCalendarInterval, Step, Factor, NanosPer, FitsInt64;
    if !FitsInt64(amount * Factor(unit)) {
      WrappedStepIsFar(t, unit, amount);
    } else {
      StepClock(t, unit, amount);
      WrittenIsAll(exact, typeName);
      if WholeSeconds(t) {
        StepExactOnWholeSeconds(t, unit, amount);
      }
      assert WholeSeconds(Written(got, typeName));
    }
  }

  /** foldDateResult against the exact step: equal exactly when the step survives being written. */
  lemma FoldResultExactIff(t: Instant, typeName: string, unitName: string, amount: int, row: Row, dialect: string)
    requires IsTemporal(typeName) && (typeName == "DATE" ==> Midnight(t))
    requires FoldDateResult(t, typeName, unitName, Wrap64(amount)).Some?
    ensures UnitNamed(unitName).Some?
    ensures Eval(FoldDateResult(t, typeName, unitName, Wrap64(amount)).value, row, dialect)
            == ShiftValue(TimeValue(t), UnitNamed(unitName), Some(amount))
       <==> StepSurvives(t, typeName, UnitNamed(unitName).value, amount)
  {
    hide UnitNamed, CivilOf, AddCalendarInterval, Step, DateValueLiteral, StepSurvives, Written, Wrap64;
    var unit := UnitNamed(unitName).value;
    var got := AddCalendarInterval(t, unit, amount);
    AmountMayWrap(t, unit, amount);
    LiteralValue(got, typeName, row, dialect);
    WrittenStepExactIff(t, typeName, unit, amount);
    WrittenKeepsDay(got, typeName);
  }

  lemma WrittenKeepsDay(t: Instant, typeName: string)
    ensures Date(Written(t, typeName)) == Date(t)
  {
    hide CivilOf;
  }

  /** Without wrap-around the fold declines exactly the steps that leave the years 1 to 9999. */
  lemma FoldDeclinesOutOfRange(t: Instant, typeName: string, unitName: string, amount: int)
    requires UnitNamed(unitName).Some? && FitsInt64(amount) && FitsInt64(amount * Factor(UnitNamed(unitName).value))
    ensures FoldDateResult(t, typeName, unitName, amount).None?
       <==> ShiftValue(TimeValue(t), UnitNamed(unitName), Some(amount)).Undefined?
  {
    var unit := UnitNamed(unitName).value;
    hide UnitNamed, CivilOf, AddCalendarInterval, Step, DateValueLiteral, Factor, FitsInt64, Wrap64;
    StepExactIff(t, unit, amount);
    assert AddCalendarInterval(t, unit, amount).day == Step(t, unit, amount).day;
  }

  // ------------------------------------------------------------ the whole fold

  /** The date, unit name and exact signed amount a foldable node is made of. */
  function Operands(e: Expr): (Expr, string, Option<int>) {
    match e
    case Arith(op, left, right) =>
      if ExtractDateValue(left).Some? && right.Interval? then
        (left, Upper(Name(right.unit)),
         if op == Sub then Negated(WrittenAmount(right.operand)) else WrittenAmount(right.operand))
      else if left.Interval? then (right, Upper(Name(left.unit)), WrittenAmount(left.operand))
      else (Absent, "", None)
    case DateShift(shift, date, right, unit) =>
      (date, Upper(Name(SupplyDefaultDay(e).unit)),
       if shift == DateSub || shift == DatetimeSub then Negated(WrittenAmount(right)) else WrittenAmount(right))
    case _ => (Absent, "", None)
  }

  ghost predicate FoldsTo(e: Expr, row: Row, dialect: string) {
    var (date, unitName, amount) := Operands(e);
    && amount.Some? && ExtractDateValue(date).Some?
    && var (t, typeName) := ExtractDateValue(date).value;
    && FoldDateArithmetic(e) == FoldDateResult(t, typeName, unitName, Wrap64(amount.value))
    && Eval(e, row, dialect) == ShiftValue(TimeValue(t), UnitNamed(unitName), amount)
  }

  lemma ArithFoldsTo(e: Expr, row: Row, dialect: string)
    requires e.Arith? && FoldDateArithmetic(e).Some?
    ensures FoldsTo(e, row, dialect)
  {
    hide FoldDateResult, UnitNamed, ShiftValue, WrittenAmount, IntervalAmount, ReadInteger, ExtractDateValue, Wrap64;
    ExtractedIsValue(Operands(e).0, row, dialect);
    var interval := if ExtractDateValue(e.operand).Some? then e.right else e.operand;
    AmountIsWritten(interval.operand);
    NegationWraps(WrittenAmount(interval.operand).value);
  }

  lemma ShiftFoldsTo(e: Expr, row: Row, dialect: string)
    requires e.DateShift? && FoldDateArithmetic(e).Some?
    ensures FoldsTo(e, row, dialect)
  {
    DefaultDayNamed();
    hide FoldDateResult, UnitNamed, ShiftValue, WrittenAmount, IntervalAmount, ReadInteger, ExtractDateValue, Wrap64;
    ExtractedIsValue(e.operand, row, dialect);
    AmountIsWritten(e.right);
    NegationWraps(WrittenAmount(e.right).value);
  }

  lemma DefaultDayNamed()
    ensures UnitNamed(Upper("DAY")) == Some(Day)
  {
    assert Upper("DAY") == "DAY";
  }

  lemma FoldIsResult(e: Expr, row: Row, dialect: string)
    requires FoldDateArithmetic(e).Some?
    ensures FoldsTo(e, row, dialect)
  {
    if e.Arith? {
      ArithFoldsTo(e, row, dialect);
    } else {
      ShiftFoldsTo(e, row, dialect);
    }
  }

  /** foldDateArithmetic keeps the meaning of date plus or minus an interval, in every row,
      exactly when the step survives being written back. */
  lemma FoldArithmeticExactIff(e: Expr, row: Row, dialect: string)
    requires FoldDateArithmetic(e).Some?
    ensures var (date, unitName, amount) := Operands(e);
            && ExtractDateValue(date).Some? && UnitNamed(unitName).Some? && amount.Some?
            && var (t, typeName) := ExtractDateValue(date).value;
               (Eval(FoldDateArithmetic(e).value, row, dialect) == Eval(e, row, dialect)
                <==> StepSurvives(t, typeName, UnitNamed(unitName).value, amount.value))
  {
    hide FoldDateArithmetic, Operands, FoldDateResult, UnitNamed, ShiftValue, StepSurvives;
    FoldIsResult(e, row, dialect);
    var (date, unitName, amount) := Operands(e);
    ExtractedIsValue(date, row, dialect);
    var (t, typeName) := ExtractDateValue(date).value;
    FoldResultExactIff(t, typeName, unitName, amount.value, row, dialect);
  }

  // ------------------------------------------------------- where steps are lost

  /** date + INTERVAL 'amount' unit. */
  function PlusInterval(date: Expr, amount: nat, unitName: string): Expr {
    Arith(Add, date, Interval(Literal(DecimalString(amount), true), Var(unitName)))
  }

  lemma IntegerText(n: nat)
    requires FitsInt64(n)
    ensures IntervalAmount(Literal(DecimalString(n), true)) == WrittenAmount(Literal(DecimalString(n), true)) == Some(n)
  {
    DecimalStringReads(n);
    var s := DecimalString(n);
    assert IsDigit(s[0], DECIMAL);
    hide DecimalString;
    assert ReadInteger(s) == Some(n);
  }

  lemma IntervalRead(amount: nat, unitName: string)
    requires FitsInt64(amount) && Upper(unitName) == unitName
    ensures var interval := Interval(Literal(DecimalString(amount), true), Var(unitName));
            && IntervalOf(interval) == Some((unitName, amount)) && Upper(Name(interval.unit)) == unitName
            && WrittenAmount(interval.operand) == Some(amount)
  {
    IntegerText(amount);
    hide DecimalString, IntervalAmount, WrittenAmount, Upper;
  }

  lemma PlusIntervalResult(date: Expr, amount: nat, unitName: string)
    requires ExtractDateValue(date).Some? && FitsInt64(amount) && Upper(unitName) == unitName
    ensures var e := PlusInterval(date, amount, unitName);
            var (t, typeName) := ExtractDateValue(date).value;
            && FoldDateArithmetic(e) == FoldDateResult(t, typeName, unitName, amount)
            && Operands(e) == (date, unitName, Some(amount))
  {
    hide ExtractDateValue, FoldDateResult, Upper, Name, DecimalString, IntervalAmount, WrittenAmount, IntervalOf, FitsInt64;
    IntervalRead(amount, unitName);
    NotAbsent(date);
  }

  lemma PlusIntervalFolds(date: Expr, amount: nat, unitName: string, row: Row, dialect: string)
    requires ExtractDateValue(date).Some? && FitsInt64(amount) && Upper(unitName) == unitName
    ensures var e := PlusInterval(date, amount, unitName);
            var (t, typeName) := ExtractDateValue(date).value;
            && FoldDateArithmetic(e) == FoldDateResult(t, typeName, unitName, amount)
            && (FoldDateArithmetic(e).Some? ==>
                  && UnitNamed(unitName).Some?
                  && (Eval(FoldDateArithmetic(e).value, row, dialect) == Eval(e, row, dialect)
                      <==> StepSurvives(t, typeName, UnitNamed(unitName).value, amount)))
  {
    hide *;
    var e := PlusInterval(date, amount, unitName);
    PlusIntervalResult(date, amount, unitName);
    if FoldDateArithmetic(e).Some? {
      FoldArithmeticExactIff(e, row, dialect);
    }
  }

  lemma NotAbsent(date: Expr)
    requires ExtractDateValue(date).Some?
    ensures !date.Absent?
  {
  }

  lemma DateReadsBack(c: Civil)
    requires ValidCivil(c) && 0 <= c.year <= 9999
    ensures ExtractDateValue(DateValueLiteral(MidnightOf(c), "DATE")) == Some((MidnightOf(c), "DATE"))
  {
    hide CivilOf, DayNumber, ExtractDateValue, DateValueLiteral;
    CivilOfDayNumber(c);
    LiteralReadsBack(MidnightOf(c), "DATE");
  }

  /** A DATE moved by two hours is folded to the DATE itself, whatever the date. */
  lemma HoursOnADateAreLost(c: Civil, row: Row, dialect: string)
    requires ValidCivil(c) && 1 <= c.year <= 9999
    ensures var date := DateValueLiteral(MidnightOf(c), "DATE");
            var e := PlusInterval(date, 2, "HOUR");
            FoldDateArithmetic(e) == Some(date) && Eval(date, row, dialect) != Eval(e, row, dialect)
  {
    hide CivilOf, DayNumber, Eval, ExtractDateValue, FoldDateArithmetic, PlusInterval, DateValueLiteral;
    CivilOfDayNumber(c);
    DateReadsBack(c);
    HoursLost(MidnightOf(c));
    assert Upper("HOUR") == "HOUR";
    hide FoldDateResult, StepSurvives, Upper;
    PlusIntervalFolds(DateValueLiteral(MidnightOf(c), "DATE"), 2, "HOUR", row, dialect);
  }

  lemma HoursLost(t: Instant)
    requires Midnight(t) && WritableYear(t)
    ensures FoldDateResult(t, "DATE", "HOUR", 2) == Some(DateValueLiteral(t, "DATE")) && !StepSurvives(t, "DATE", Hour, 2)
  {
    hide CivilOf, DateValueLiteral;
    var moved := AddCalendarInterval(t, Hour, 2);
    assert moved.day == t.day;
    DatesAreDays(moved, t);
  }

  lemma DatesAreDays(a: Instant, b: Instant)
    requires a.day == b.day
    ensures DateValueLiteral(a, "DATE") == DateValueLiteral(b, "DATE")
  {
    hide CivilOf, FormatYear, Padded;
  }

  /** A datetime with half a second in it is folded a year on, and loses the half. */
  lemma FractionIsLost(c: Civil, row: Row, dialect: string)
    requires ValidCivil(c) && 1 <= c.year <= 9998
    ensures var date := Cast(Literal(FormatDateTime(MidnightOf(c)) + ".5", true), "DATETIME");
            var e := PlusInterval(date, 1, "YEAR");
            && ExtractDateValue(date) == Some((Time(DayNumber(c), NANOS_PER_SECOND / 2), "DATETIME"))
            && FoldDateArithmetic(e).Some? && Eval(FoldDateArithmetic(e).value, row, dialect) != Eval(e, row, dialect)
  {
    hide CivilOf, DayNumber, Eval, FoldDateArithmetic, PlusInterval, ParseDateText, FormatDateTime;
    HalfIsRead(c);
    var date := Cast(Literal(FormatDateTime(MidnightOf(c)) + ".5", true), "DATETIME");
    var t := Time(DayNumber(c), NANOS_PER_SECOND / 2);
    assert ExtractDateValue(date) == Some((t, "DATETIME"));
    hide ExtractDateValue;
    CivilOfDayNumber(c);
    HalfLost(t);
    assert Upper("YEAR") == "YEAR";
    hide FoldDateResult, StepSurvives, Upper;
    PlusIntervalFolds(date, 1, "YEAR", row, dialect);
  }

  lemma HalfLost(t: Instant)
    requires 1 <= Date(t).year <= 9998 && t.clock == NANOS_PER_SECOND / 2
    ensures FoldDateResult(t, "DATETIME", "YEAR", 1).Some? && !StepSurvives(t, "DATETIME", Year, 1)
  {
    hide CivilOf, AddMonthsClamped, DateValueLiteral;
    MonthIndexMoves(t, 12);
  }

  lemma HalfIsRead(c: Civil)
    requires ValidCivil(c) && 1 <= c.year <= 9998
    ensures ParseDateText(FormatDateTime(MidnightOf(c)) + ".5") == Some(Time(DayNumber(c), NANOS_PER_SECOND / 2))
  {
    hide CivilOf, DayNumber, FormatDateTime, ParseDateText;
    CivilOfDayNumber(c);
    assert AllDigits("5", DECIMAL) && Value("5", DECIMAL) == 5;
    assert Pow10(8) == 100_000_000;
    FractionIsRead(MidnightOf(c), "5");
    assert "." + "5" == ".5";
  }

  /** INTERVAL '200000' DAY, added to a DATE between the years 38 and 9999, is folded to the DATE 13504 days before it:
      the product passes 2^63 nanoseconds. */
  lemma LongStepGoesBack(t: Instant, row: Row, dialect: string)
    requires Midnight(t) && 13504 <= t.day < 3652059
    ensures var e := PlusInterval(DateValueLiteral(t, "DATE"), 200000, "DAY");
            && FoldDateArithmetic(e) == Some(DateValueLiteral(Time(t.day - 13504, t.clock), "DATE"))
            && Eval(FoldDateArithmetic(e).value, row, dialect) != Eval(e, row, dialect)
  {
    hide CivilOf, Eval, ExtractDateValue, FoldDateArithmetic, PlusInterval, DateValueLiteral;
    FourDigitDays(t.day);
    LiteralReadsBack(t, "DATE");
    DaysWrap(t);
    assert Upper("DAY") == "DAY";
    hide FoldDateResult, StepSurvives, Upper;
    PlusIntervalFolds(DateValueLiteral(t, "DATE"), 200000, "DAY", row, dialect);
  }

  lemma DaysWrap(t: Instant)
    requires Midnight(t) && 13504 <= t.day < 3652059
    ensures FoldDateResult(t, "DATE", "DAY", 200000) == Some(DateValueLiteral(Time(t.day - 13504, t.clock), "DATE"))
    ensures !StepSurvives(t, "DATE", Day, 200000)
  {
    hide CivilOf, DateValueLiteral;
    assert Wrap64(200000 * NanosPer(Day)) == -1_166_744_073_709_551_616;
    hide Wrap64;
    assert AddNanos(t, -1_166_744_073_709_551_616).day == t.day - 13504;
    DatesAreDays(AddCalendarInterval(t, Day, 200000), Time(t.day - 13504, t.clock));
    FourDigitDays(t.day - 13504);
  }
}

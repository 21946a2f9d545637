/**
 Truncation (sqlglot/date_trunc.go): the floor of an instant in a unit, the
 ceiling, the next floor and the half-open range of a floor. `IsFloor` and
 `IsNextStart` say what these are without computing them: units start on
 certain days, a floor is the last start not after the instant, and the next
 floor is the first start after that.
 */
module DateTrunc {
  import opened Options
  import opened Arithmetic
  import opened MachineInts
  import opened Calendar
  import opened DateArith

  /** weekOffset: days the dialect's week starts before Monday, negated. */
  function WeekOffset(dialect: string): (r: int)
    ensures -1 <= r <= 0
  {
    if dialect == "tsql" || dialect == "bigquery" then -1 else 0
  }

  /** truncUnits. */
  predicate Truncates(unit: Unit) {
    unit == Year || unit == Quarter || unit == Month || unit == Week || unit == Day
  }

  /** Go's Weekday, Sunday 0 to Saturday 6. */
  function GoWeekday(t: Instant): int {
    IsoWeekday(t.day) % 7
  }

  /** dateTruncFloor. */
  function DateTruncFloor(t: Instant, unit: Unit, dialect: string): (r: Option<Instant>)
    ensures r.Some? <==> Truncates(unit)
  {
    match unit
    case Year => Some(MidnightOf(Civil(Date(t).year, 1, 1)))
    case Quarter => Some(MidnightOf(Civil(Date(t).year, GoDiv(Date(t).month - 1, 3) * 3 + 1, 1)))
    case Month => Some(MidnightOf(Civil(Date(t).year, Date(t).month, 1)))
    case Week =>
      var mondayZero := (GoWeekday(t) + 6) % 7;
      var back := GoMod(GoMod(mondayZero - WeekOffset(dialect), 7) + 7, 7);
      Some(Time(DayOnly(t).day - back, 0))
    case Day => Some(DayOnly(t))
    case _ => None
  }

  /** dateTruncCeil. */
  function DateTruncCeil(t: Instant, unit: Unit, dialect: string): Option<Instant> {
    match DateTruncFloor(t, unit, dialect)
    case None => None
    case Some(floor) => if floor == t then Some(t) else Some(AddCalendarInterval(floor, unit, 1))
  }

  /** dateTruncNextFloor. */
  function DateTruncNextFloor(t: Instant, unit: Unit, dialect: string): Option<Instant> {
    match DateTruncFloor(t, unit, dialect)
    case None => None
    case Some(floor) => Some(AddCalendarInterval(floor, unit, 1))
  }

  /** A half-open span of instants. */
  datatype DateRange = DateRange(low: Instant, high: Instant)

  /** dateTruncRange: nothing when the date is not a floor itself. */
  function DateTruncRange(date: Instant, unit: Unit, dialect: string): Option<DateRange> {
    match DateTruncFloor(date, unit, dialect)
    case None => None
    case Some(floor) =>
      if floor == date then Some(DateRange(floor, AddCalendarInterval(floor, unit, 1))) else None
  }

  // ------------------------------------------------------------ what they are

  /** The ISO weekday a week of the dialect begins on. */
  function WeekStartDay(dialect: string): (w: int)
    ensures 1 <= w <= 7
  {
    WeekOffset(dialect) % 7 + 1
  }

  /** Whether a unit begins with this day; weekStart only matters to weeks. */
  predicate Starts(day: int, unit: Unit, weekStart: int) {
    match unit
    case Week => IsoWeekday(day) == weekStart
    case Day => true
    case _ => CountsMonths(unit) && CivilOf(day).day == 1 && MonthIndex(CivilOf(day)) % MonthsPer(unit) == 0
  }

  ghost predicate IsFloor(f: Instant, t: Instant, unit: Unit, weekStart: int) {
    && Midnight(f) && Starts(f.day, unit, weekStart) && f.day <= t.day
    && forall g :: f.day < g <= t.day ==> !Starts(g, unit, weekStart)
  }

  ghost predicate IsNextStart(n: Instant, f: Instant, unit: Unit, weekStart: int) {
    && Midnight(n) && Starts(n.day, unit, weekStart) && f.day < n.day
    && forall g :: f.day < g < n.day ==> !Starts(g, unit, weekStart)
  }

  function FloorOf(t: Instant, unit: Unit, dialect: string): Instant
    requires Truncates(unit)
  {
    DateTruncFloor(t, unit, dialect).value
  }

  function NextOf(t: Instant, unit: Unit, dialect: string): Instant
    requires Truncates(unit)
  {
    DateTruncNextFloor(t, unit, dialect).value
  }

  // --------------------------------------------------------- calendar periods

  /** Between the first of a period and a day of its last month no other period starts. */
  lemma NoStartWithin(f: Civil, day: int, unit: Unit, g: int, weekStart: int)
    requires CountsMonths(unit) && ValidCivil(f) && f.day == 1
    requires MonthIndex(f) % MonthsPer(unit) == 0
    requires MonthIndex(CivilOf(day)) < MonthIndex(f) + MonthsPer(unit)
    requires DayNumber(f) < g <= day
    ensures !Starts(g, unit, weekStart)
  {
    var c := CivilOf(g);
    hide CivilOf, DayNumber;
    DayNumberOfCivilOf(g);
    DayNumberOfCivilOf(day);
    DayNumberOrder(f, c);
    DayNumberOrder(CivilOf(day), c);
    assert MonthIndex(f) <= MonthIndex(c) <= MonthIndex(CivilOf(day));
    if c.day == 1 {
      var p := MonthsPer(unit);
      DivModIs(MonthIndex(c), p, MonthIndex(f) / p, MonthIndex(c) - MonthIndex(f));
    }
  }

  function PeriodStart(c: Civil, unit: Unit): (f: Civil)
    requires ValidCivil(c) && CountsMonths(unit)
    ensures ValidCivil(f)
  {
    Civil(c.year, (c.month - 1) / MonthsPer(unit) * MonthsPer(unit) + 1, 1)
  }

  lemma PeriodStartIndex(c: Civil, unit: Unit)
    requires ValidCivil(c) && CountsMonths(unit)
    ensures var f := PeriodStart(c, unit);
            && MonthIndex(f) % MonthsPer(unit) == 0
            && MonthIndex(f) <= MonthIndex(c) < MonthIndex(f) + MonthsPer(unit)
  {
    var p := MonthsPer(unit);
    var k := (c.month - 1) / p;
    assert MonthIndex(PeriodStart(c, unit)) == p * ((12 / p) * c.year + k);
    DivModIs(MonthIndex(PeriodStart(c, unit)), p, (12 / p) * c.year + k, 0);
  }

  lemma PeriodFloorValue(t: Instant, unit: Unit, dialect: string)
    requires CountsMonths(unit)
    ensures DateTruncFloor(t, unit, dialect) == Some(MidnightOf(PeriodStart(Date(t), unit)))
  {
    hide CivilOf, DayNumber;
  }

  lemma PeriodFloor(t: Instant, unit: Unit, dialect: string)
    requires CountsMonths(unit)
    ensures IsFloor(FloorOf(t, unit, dialect), t, unit, WeekStartDay(dialect))
  {
    var f := PeriodStart(Date(t), unit);
    PeriodFloorValue(t, unit, dialect);
    hide CivilOf, DayNumber, DateTruncFloor;
    PeriodStartIndex(Date(t), unit);
    hide PeriodStart;
    CivilOfDayNumber(f);
    DayNumberOfCivilOf(t.day);
    DayNumberOrder(Date(t), f);
    forall g | DayNumber(f) < g <= t.day
      ensures !Starts(g, unit, WeekStartDay(dialect))
    {
      NoStartWithin(f, t.day, unit, g, WeekStartDay(dialect));
    }
  }

  lemma NextPeriod(f: Civil, unit: Unit)
    requires CountsMonths(unit) && ValidCivil(f) && f.day == 1
    ensures var n := ShiftMonths(f, MonthsPer(unit));
            && n.day == 1 && MonthIndex(n) == MonthIndex(f) + MonthsPer(unit)
            && AddCalendarInterval(MidnightOf(f), unit, 1) == MidnightOf(n)
  {
    hide CivilOf, DayNumber, AddMonthsClamped, MonthLength;
    var p := MonthsPer(unit);
    CivilOfDayNumber(f);
    AddMonthsIsShift(MidnightOf(f), p);
    assert Wrap64(1 * p) == p;
  }

  lemma OnePeriodOn(index: int, unit: Unit)
    requires CountsMonths(unit)
    ensures (index + MonthsPer(unit)) % MonthsPer(unit) == index % MonthsPer(unit)
  {
    var p := MonthsPer(unit);
    DivModIs(index + p, p, index / p + 1, index % p);
  }

  lemma PeriodNext(f: Civil, unit: Unit, weekStart: int)
    requires CountsMonths(unit) && ValidCivil(f) && f.day == 1
    requires MonthIndex(f) % MonthsPer(unit) == 0
    ensures IsNextStart(AddCalendarInterval(MidnightOf(f), unit, 1), MidnightOf(f), unit, weekStart)
  {
    var n := ShiftMonths(f, MonthsPer(unit));
    NextPeriod(f, unit);
    hide *;
    PeriodFollows(f, n, unit, weekStart);
  }

  lemma PeriodFollows(f: Civil, n: Civil, unit: Unit, weekStart: int)
    requires CountsMonths(unit) && ValidCivil(f) && ValidCivil(n) && f.day == n.day == 1
    requires MonthIndex(f) % MonthsPer(unit) == 0
    requires MonthIndex(n) == MonthIndex(f) + MonthsPer(unit)
    ensures IsNextStart(MidnightOf(n), MidnightOf(f), unit, weekStart)
  {
    hide CivilOf, DayNumber, MonthLength;
    CivilOfDayNumber(n);
    DayNumberOrder(f, n);
    OnePeriodOn(MonthIndex(f), unit);
    forall g | DayNumber(f) < g < DayNumber(n)
      ensures !Starts(g, unit, weekStart)
    {
      DayNumberOfCivilOf(g);
      DayNumberOrder(CivilOf(g), n);
      NextPeriodBeyond(f, n, unit, g, weekStart);
    }
  }

  lemma NextPeriodBeyond(f: Civil, n: Civil, unit: Unit, g: int, weekStart: int)
    requires CountsMonths(unit) && ValidCivil(f) && ValidCivil(n) && f.day == n.day == 1
    requires MonthIndex(f) % MonthsPer(unit) == 0
    requires MonthIndex(n) == MonthIndex(f) + MonthsPer(unit)
    requires DayNumber(f) < g && CivilBefore(CivilOf(g), n)
    ensures !Starts(g, unit, weekStart)
  {
    hide CivilOf, DayNumber, Starts;
    assert MonthIndex(CivilOf(g)) < MonthIndex(n);
    NoStartWithin(f, g, unit, g, weekStart);
  }

  // -------------------------------------------------------------------- weeks

  lemma GoModWraps(x: int)
    ensures GoMod(GoMod(x, 7) + 7, 7) == x % 7
  {
  }

  lemma MondayIsZero(day: int)
    ensures (IsoWeekday(day) % 7 + 6) % 7 == day % 7
  {
  }

  /** The floor of a week, in days back from the day. */
  lemma WeekBack(t: Instant, dialect: string)
    ensures FloorOf(t, Week, dialect) == Time(t.day - (t.day % 7 - WeekOffset(dialect)) % 7, 0)
  {
    hide GoMod, IsoWeekday;
    MondayIsZero(t.day);
    GoModWraps(t.day % 7 - WeekOffset(dialect));
  }

  /** Counting back to a weekday lands on it, and on no later day of the week. */
  lemma BackToWeekday(day: int, offset: int)
    ensures var f := day - (day % 7 - offset) % 7;
            f <= day < f + 7 && f % 7 == offset % 7 && forall g :: f <= g <= day && g % 7 == offset % 7 ==> g == f
  {
    var f := day - (day % 7 - offset) % 7;
    forall g | f <= g <= day && g % 7 == offset % 7 ensures g == f {
      SameWeekday(f, g);
    }
  }

  lemma SameWeekday(f: int, g: int)
    requires f <= g < f + 7 && f % 7 == g % 7
    ensures f == g
  {
  }

  lemma WeekFloor(t: Instant, dialect: string)
    ensures IsFloor(FloorOf(t, Week, dialect), t, Week, WeekStartDay(dialect))
  {
    hide FloorOf, WeekOffset;
    WeekBack(t, dialect);
    BackToWeekday(t.day, WeekOffset(dialect));
  }

  lemma WeekNext(f: Instant, weekStart: int)
    requires Midnight(f) && Starts(f.day, Week, weekStart)
    ensures IsNextStart(AddCalendarInterval(f, Week, 1), f, Week, weekStart)
  {
    var n := AddCalendarInterval(f, Week, 1);
    assert n == Time(f.day + 7, 0);
    var q, r := f.day / 7, f.day % 7;
    DivModIs(f.day + 7, 7, q + 1, r);
    forall g | f.day < g < n.day
      ensures !Starts(g, Week, weekStart)
    {
      if g < 7 * (q + 1) {
        DivModIs(g, 7, q, g - 7 * q);
      } else {
        DivModIs(g, 7, q + 1, g - 7 * (q + 1));
      }
    }
  }

  // ----------------------------------------------------------- floor theorems

  /** dateTruncFloor is the last start of the unit that is not after t. */
  lemma FloorIsLastStart(t: Instant, unit: Unit, dialect: string)
    requires Truncates(unit)
    ensures IsFloor(FloorOf(t, unit, dialect), t, unit, WeekStartDay(dialect))
  {
    if unit == Week {
      WeekFloor(t, dialect);
    } else if unit != Day {
      PeriodFloor(t, unit, dialect);
    }
  }

  lemma PeriodNextOf(t: Instant, unit: Unit, dialect: string)
    requires CountsMonths(unit)
    ensures IsNextStart(NextOf(t, unit, dialect), FloorOf(t, unit, dialect), unit, WeekStartDay(dialect))
  {
    hide CivilOf, DayNumber, AddCalendarInterval, Starts;
    PeriodFloorValue(t, unit, dialect);
    PeriodStartIndex(Date(t), unit);
    hide DateTruncFloor;
    PeriodNext(PeriodStart(Date(t), unit), unit, WeekStartDay(dialect));
  }

  /** One unit past the floor is the first start after it. */
  lemma NextIsFirstStartAfter(t: Instant, unit: Unit, dialect: string)
    requires Truncates(unit)
    ensures IsNextStart(NextOf(t, unit, dialect), FloorOf(t, unit, dialect), unit, WeekStartDay(dialect))
    ensures Before(t, NextOf(t, unit, dialect))
  {
    hide CivilOf, DayNumber;
    FloorIsLastStart(t, unit, dialect);
    if unit == Day {
    } else if unit == Week {
      hide DateTruncFloor;
      WeekNext(FloorOf(t, unit, dialect), WeekStartDay(dialect));
    } else {
      hide FloorOf, NextOf, Starts;
      PeriodNextOf(t, unit, dialect);
    }
  }

  /** A start separates the instants the way it separates their floors. */
  lemma StartSeparatesFloors(l: Instant, s: Instant, unit: Unit, dialect: string)
    requires Truncates(unit) && Midnight(s) && Starts(s.day, unit, WeekStartDay(dialect))
    ensures Before(l, s) <==> Before(FloorOf(l, unit, dialect), s)
  {
    hide FloorOf, Starts;
    FloorIsLastStart(l, unit, dialect);
  }

  /** The floors partition time: each is below its instants, idempotent, monotone, and the next one is the first
      beyond. */
  lemma FloorsPartition(a: Instant, b: Instant, unit: Unit, dialect: string)
    requires Truncates(unit)
    ensures var (f, n) := (FloorOf(a, unit, dialect), NextOf(a, unit, dialect));
            && !Before(a, f) && Before(a, n)
            && FloorOf(f, unit, dialect) == f
            && FloorOf(n, unit, dialect) == n
            && (!Before(b, a) ==> !Before(FloorOf(b, unit, dialect), f))
            && (FloorOf(b, unit, dialect) == f <==> !Before(b, f) && Before(b, n))
  {
    var f, n := FloorOf(a, unit, dialect), NextOf(a, unit, dialect);
    hide FloorOf, NextOf, Starts;
    FloorIsLastStart(a, unit, dialect);
    FloorIsLastStart(b, unit, dialect);
    FloorIsLastStart(f, unit, dialect);
    FloorIsLastStart(n, unit, dialect);
    NextIsFirstStartAfter(a, unit, dialect);
    StartSeparatesFloors(b, f, unit, dialect);
    StartSeparatesFloors(b, n, unit, dialect);
    assert FloorOf(n, unit, dialect).day == n.day;
  }

  /** A week's floor lands on the dialect's own week start: Sunday for T-SQL and BigQuery, else Monday. */
  lemma WeekFloorsOnWeekStart(t: Instant, dialect: string)
    ensures IsoWeekday(FloorOf(t, Week, dialect).day)
         == if dialect == "tsql" || dialect == "bigquery" then 7 else 1
  {
    WeekFloor(t, dialect);
  }

  /** dateTruncCeil is the first start not before t. */
  lemma CeilIsFirstStartFrom(t: Instant, unit: Unit, dialect: string)
    requires Truncates(unit)
    ensures DateTruncCeil(t, unit, dialect).Some?
    ensures var c := DateTruncCeil(t, unit, dialect).value;
            && Midnight(c) && Starts(c.day, unit, WeekStartDay(dialect)) && !Before(c, t)
            && forall g :: Starts(g, unit, WeekStartDay(dialect)) && g < c.day ==> Before(Time(g, 0), t)
  {
    var w := WeekStartDay(dialect);
    var f, c := FloorOf(t, unit, dialect), DateTruncCeil(t, unit, dialect).value;
    hide Starts, AddCalendarInterval, DateTruncFloor;
    FloorIsLastStart(t, unit, dialect);
    NextIsFirstStartAfter(t, unit, dialect);
    forall g | Starts(g, unit, w) && g < c.day
      ensures Before(Time(g, 0), t)
    {
      if f == t {
      } else {
        assert c == NextOf(t, unit, dialect);
        assert g <= f.day;
      }
    }
  }

  /** LT and its complement GTE compare with the ceiling; LTE and its complement GT with the next floor. */
  lemma FloorComparisons(l: Instant, d: Instant, unit: Unit, dialect: string)
    requires Truncates(unit)
    ensures Before(FloorOf(l, unit, dialect), d) <==> Before(l, DateTruncCeil(d, unit, dialect).value)
    ensures Before(d, FloorOf(l, unit, dialect)) <==> !Before(l, NextOf(d, unit, dialect))
  {
    var w := WeekStartDay(dialect);
    var f := FloorOf(l, unit, dialect);
    var c, n := DateTruncCeil(d, unit, dialect).value, NextOf(d, unit, dialect);
    FloorIsLastStart(l, unit, dialect);
    CeilIsFirstStartFrom(d, unit, dialect);
    FloorIsLastStart(d, unit, dialect);
    NextIsFirstStartAfter(d, unit, dialect);
    StartSeparatesFloors(l, c, unit, dialect);
    StartSeparatesFloors(l, n, unit, dialect);
    hide FloorOf, NextOf, Starts, DateTruncCeil;
    assert Before(f, c) ==> Before(Time(f.day, 0), d);
    assert Before(f, d) ==> Before(f, c);
    assert !Before(f, n) ==> Before(d, f);
  }

  ghost predicate InRange(l: Instant, r: DateRange) {
    !Before(l, r.low) && Before(l, r.high)
  }

  /** The range of a floor holds exactly the instants that truncate to it ... */
  lemma RangeIsPreimage(l: Instant, d: Instant, unit: Unit, dialect: string)
    requires DateTruncRange(d, unit, dialect).Some?
    ensures var r := DateTruncRange(d, unit, dialect).value;
            && (FloorOf(l, unit, dialect) == d <==> InRange(l, r))
            && Midnight(r.low) && Midnight(r.high) && Before(r.low, r.high)
  {
    hide Starts, AddCalendarInterval, DateTruncFloor;
    FloorsPartition(d, l, unit, dialect);
    FloorIsLastStart(d, unit, dialect);
    NextIsFirstStartAfter(d, unit, dialect);
  }

  /** ... and a date has no range exactly when nothing truncates to it. */
  lemma NoRangeMeansNoFloor(l: Instant, d: Instant, unit: Unit, dialect: string)
    requires Truncates(unit) && DateTruncRange(d, unit, dialect).None?
    ensures FloorOf(l, unit, dialect) != d
  {
    hide AddCalendarInterval, DateTruncFloor;
    FloorsPartition(l, d, unit, dialect);
  }
}

/**
 Calendar steps (sqlglot/date_arith.go): months clamp to the last day of the
 month they land in, every other unit is a fixed duration held in int64
 nanoseconds. The Go code is modelled with its truncating division and its
 64-bit product; `Step` is the calendar step those are meant to compute.
 */
module DateArith {
  import opened Arithmetic
  import opened MachineInts
  import opened Calendar

  datatype Unit = Year | Quarter | Month | Week | Day | Hour | Minute | Second

  // ------------------------------------------------------------------ clocks

  const MINUTE_NANOS: int := 60 * NANOS_PER_SECOND
  const HOUR_NANOS: int := 3600 * NANOS_PER_SECOND

  function HourOf(t: Instant): (h: int)
    ensures 0 <= h < 24
  {
    t.clock / HOUR_NANOS
  }

  function MinuteOf(t: Instant): (m: int)
    ensures 0 <= m < 60
  {
    t.clock % HOUR_NANOS / MINUTE_NANOS
  }

  function SecondOf(t: Instant): (s: int)
    ensures 0 <= s < 60
  {
    t.clock % MINUTE_NANOS / NANOS_PER_SECOND
  }

  function ClockAt(h: int, m: int, s: int): (clock: int)
    ensures 0 <= h < 24 && 0 <= m < 60 && 0 <= s < 60 ==> 0 <= clock <= NANOS_PER_DAY - NANOS_PER_SECOND
  {
    h * HOUR_NANOS + m * MINUTE_NANOS + s * NANOS_PER_SECOND
  }

  predicate WholeSeconds(t: Instant) {
    t.clock % NANOS_PER_SECOND == 0
  }

  function DropFraction(t: Instant): (r: Instant)
    ensures WholeSeconds(r)
    ensures r == t <==> WholeSeconds(t)
  {
    Time(t.day, t.clock - t.clock % NANOS_PER_SECOND)
  }

  /** Hour, minute and second together hold everything but the fraction. */
  lemma ClockParts(t: Instant)
    ensures Time(t.day, ClockAt(HourOf(t), MinuteOf(t), SecondOf(t))) == DropFraction(t)
  {
    var h, m, s := HourOf(t), MinuteOf(t), SecondOf(t);
    var minutes := t.clock % HOUR_NANOS;
    var fraction := minutes % MINUTE_NANOS % NANOS_PER_SECOND;
    assert t.clock == h * HOUR_NANOS + m * MINUTE_NANOS + minutes % MINUTE_NANOS;
    DivModIs(t.clock, MINUTE_NANOS, 60 * h + m, minutes % MINUTE_NANOS);
    DivModIs(t.clock, NANOS_PER_SECOND, 3600 * h + 60 * m + s, fraction);
  }

  // --------------------------------------------------------- the source steps

  /** monthUnits: how many calendar months a unit is, 0 for a fixed duration. */
  function MonthsPer(unit: Unit): int {
    match unit
    case Year => 12
    case Quarter => 3
    case Month => 1
    case _ => 0
  }

  /** durationUnits: a fixed unit's nanoseconds, 0 for a calendar unit. */
  function NanosPer(unit: Unit): int {
    match unit
    case Week => 7 * NANOS_PER_DAY
    case Day => NANOS_PER_DAY
    case Hour => HOUR_NANOS
    case Minute => MINUTE_NANOS
    case Second => NANOS_PER_SECOND
    case _ => 0
  }

  predicate CountsMonths(unit: Unit) {
    MonthsPer(unit) != 0
  }

  /** One unit in the machine integer the source multiplies by: months or nanoseconds. */
  function Factor(unit: Unit): (f: int)
    ensures f >= 1
  {
    if CountsMonths(unit) then MonthsPer(unit) else NanosPer(unit)
  }

  /** daysInMonth: the day before the first of the month after. */
  function DaysInMonth(year: int, month: int): int
    requires 1 <= month <= 12
  {
    var next := if month == 12 then Civil(year + 1, 1, 1) else Civil(year, month + 1, 1);
    CivilOf(DayNumber(next) - 1).day
  }

  /** The year and month `months` away, by Go's truncating division put right for a negative remainder. */
  function Landing(date: Civil, months: int): (r: (int, int))
    ensures 1 <= r.1 <= 12
  {
    var total := date.month - 1 + months;
    var newYear, newMonth := date.year + GoDiv(total, 12), GoMod(total, 12);
    if newMonth < 0 then (newYear - 1, newMonth + 13) else (newYear, newMonth + 1)
  }

  /** addMonthsClamped. */
  function AddMonthsClamped(t: Instant, months: int): (r: Instant)
  {
    var (year, month) := Landing(Date(t), months);
    var last := DaysInMonth(year, month);
    var day := if Date(t).day > last then last else Date(t).day;
    DaysInMonthIsLength(year, month);
    ClockParts(t);
    Time(DayNumber(Civil(year, month, day)), ClockAt(HourOf(t), MinuteOf(t), SecondOf(t)))
  }

  /** Time.Add. */
  function AddNanos(t: Instant, nanos: int): Instant {
    var total := t.clock + nanos;
    Time(t.day + total / NANOS_PER_DAY, total % NANOS_PER_DAY)
  }

  /** addCalendarInterval: both products are int64. */
  function AddCalendarInterval(t: Instant, unit: Unit, n: int): Instant {
    if CountsMonths(unit) then AddMonthsClamped(t, Wrap64(n * MonthsPer(unit)))
    else AddNanos(t, Wrap64(n * NanosPer(unit)))
  }

  // -------------------------------------------------------- what they compute

  /** Months counted from the start of year 0. */
  function MonthIndex(c: Civil): int {
    12 * c.year + c.month - 1
  }

  /** The date `months` calendar months away, its day clamped to the month it lands in. */
  function ShiftMonths(c: Civil, months: int): (r: Civil)
    requires ValidCivil(c)
    ensures ValidCivil(r)
  {
    var index := MonthIndex(c) + months;
    var year, month := index / 12, index % 12 + 1;
    Civil(year, month, Min(c.day, MonthLength(year, month)))
  }

  /** The calendar step on unbounded integers, keeping the whole clock. */
  function Step(t: Instant, unit: Unit, n: int): Instant {
    if CountsMonths(unit) then Time(DayNumber(ShiftMonths(Date(t), n * MonthsPer(unit))), t.clock)
    else AddNanos(t, n * NanosPer(unit))
  }

  lemma DaysInMonthIsLength(year: int, month: int)
    requires 1 <= month <= 12
    ensures DaysInMonth(year, month) == MonthLength(year, month)
  {
    hide CivilOf, DaysBeforeYear, DaysBeforeMonth, MonthLength, YearLength;
    var last := Civil(year, month, MonthLength(year, month));
    var next := if month == 12 then Civil(year + 1, 1, 1) else Civil(year, month + 1, 1);
    YearStep(year);
    MonthStep(year, month);
    MonthStep(year + 1, 1);
    assert DayNumber(next) == DayNumber(last) + 1;
    CivilOfDayNumber(last);
  }

  /** Truncating division and the negative-remainder repair give the floor of the month index. */
  lemma LandingIsFloor(date: Civil, months: int)
    ensures var (year, month) := Landing(date, months);
            var index := MonthIndex(date) + months;
            year == index / 12 && month == index % 12 + 1
  {
    var total := date.month - 1 + months;
    var index := MonthIndex(date) + months;
    assert index == 12 * date.year + total;
    if total < 0 {
      assert -total == 12 * ((-total) / 12) + (-total) % 12;
    }
  }

  /** addMonthsClamped is ShiftMonths on the date and keeps the clock down to the second. */
  lemma AddMonthsIsShift(t: Instant, months: int)
    ensures AddMonthsClamped(t, months)
         == DropFraction(Time(DayNumber(ShiftMonths(Date(t), months)), t.clock))
  {
    hide CivilOf, DayNumber, MonthLength, DaysInMonth, HourOf, MinuteOf, SecondOf, ClockAt;
    LandingIsFloor(Date(t), months);
    var (year, month) := Landing(Date(t), months);
    hide Landing;
    DaysInMonthIsLength(year, month);
    ClockParts(t);
  }

  // ------------------------------------------------------------ month theorems

  /** The month index moves by exactly n, whatever its sign; the day clamps; the clock stays to the second. */
  lemma MonthIndexMoves(t: Instant, months: int)
    ensures var r := AddMonthsClamped(t, months);
            && MonthIndex(Date(r)) == MonthIndex(Date(t)) + months
            && Date(r).day == Min(Date(t).day, MonthLength(Date(r).year, Date(r).month))
            && r.clock == DropFraction(t).clock
  {
    AddMonthsIsShift(t, months);
    CivilOfDayNumber(ShiftMonths(Date(t), months));
  }

  lemma ShiftKeepsOrder(a: Civil, b: Civil, months: int)
    requires ValidCivil(a) && ValidCivil(b) && !CivilBefore(b, a)
    ensures !CivilBefore(ShiftMonths(b, months), ShiftMonths(a, months))
  {
    hide MonthLength;
    assert MonthIndex(a) <= MonthIndex(b);
    var ia, ib := MonthIndex(a) + months, MonthIndex(b) + months;
    assert ia / 12 <= ib / 12;
    if ia == ib {
      SameMonthIndex(a, b);
    }
  }

  /** Of two days of one month, both clamped onto the last of the month they land in, the earlier had the later clock.
      */
  predicate Crossed(a: Instant, b: Instant, months: int) {
    && a.day < b.day
    && MonthIndex(Date(a)) == MonthIndex(Date(b))
    && MonthLength((MonthIndex(Date(a)) + months) / 12, (MonthIndex(Date(a)) + months) % 12 + 1) <= Date(a).day
    && DropFraction(b).clock < DropFraction(a).clock
  }

  /** Two dates land on one day exactly when they are dates of one month and both as late as the last of it. */
  lemma LandTogether(a: Civil, b: Civil, months: int)
    requires ValidCivil(a) && ValidCivil(b) && CivilBefore(a, b)
    ensures ShiftMonths(a, months) == ShiftMonths(b, months)
       <==> MonthIndex(a) == MonthIndex(b)
            && MonthLength((MonthIndex(a) + months) / 12, (MonthIndex(a) + months) % 12 + 1) <= a.day
  {
    hide MonthLength;
    if MonthIndex(a) == MonthIndex(b) {
      SameMonthIndex(a, b);
    }
  }

  /** The step keeps the order of two instants exactly when they do not cross. */
  lemma MonthsKeepOrderIff(a: Instant, b: Instant, months: int)
    requires !Before(b, a)
    ensures !Before(AddMonthsClamped(b, months), AddMonthsClamped(a, months)) <==> !Crossed(a, b, months)
  {
    AddMonthsIsShift(a, months);
    AddMonthsIsShift(b, months);
    hide AddMonthsClamped, ShiftMonths, CivilOf, DayNumber, CivilBefore, MonthLength;
    DayNumberOfCivilOf(a.day);
    DayNumberOfCivilOf(b.day);
    var sa, sb := ShiftMonths(Date(a), months), ShiftMonths(Date(b), months);
    DayNumberOrder(Date(a), Date(b));
    DayNumberOrder(Date(b), Date(a));
    ShiftKeepsOrder(Date(a), Date(b), months);
    DayNumberOrder(sb, sa);
    if a.day < b.day {
      LandTogether(Date(a), Date(b), months);
      CivilOfDayNumber(sa);
      CivilOfDayNumber(sb);
    }
  }

  /** So it does on midnights ... */
  lemma AddMonthsMonotone(a: Instant, b: Instant, months: int)
    requires Midnight(a) && Midnight(b) && !Before(b, a)
    ensures !Before(AddMonthsClamped(b, months), AddMonthsClamped(a, months))
  {
    hide AddMonthsClamped, CivilOf, MonthLength;
    MonthsKeepOrderIff(a, b, months);
  }

  /** ... and 30 January 23:00 and 31 January 00:00 change places, one month on. */
  lemma ClockBreaksMonotone(a: Instant, b: Instant)
    requires a == Time(DayNumber(Civil(2023, 1, 30)), 23 * HOUR_NANOS)
    requires b == MidnightOf(Civil(2023, 1, 31))
    ensures Before(a, b) && Before(AddMonthsClamped(b, 1), AddMonthsClamped(a, 1))
  {
    hide AddMonthsClamped, CivilOf, DayNumber;
    CivilOfDayNumber(Civil(2023, 1, 30));
    CivilOfDayNumber(Civil(2023, 1, 31));
    DayNumberOrder(Civil(2023, 1, 30), Civil(2023, 1, 31));
    MonthsKeepOrderIff(a, b, 1);
  }

  lemma SameDate(a: Instant, b: Instant)
    ensures Date(a) == Date(b) <==> a.day == b.day
  {
    DayNumberOfCivilOf(a.day);
    DayNumberOfCivilOf(b.day);
  }

  lemma SameMonthIndex(a: Civil, b: Civil)
    requires ValidCivil(a) && ValidCivil(b) && MonthIndex(a) == MonthIndex(b)
    ensures a.year == b.year && a.month == b.month
  {
  }

  /** Going there and back is the identity exactly when nothing was clamped and no fraction was dropped. */
  lemma MonthsRoundTrip(t: Instant, months: int)
    ensures var landed := Date(AddMonthsClamped(t, months));
            AddMonthsClamped(AddMonthsClamped(t, months), -months) == t
            <==> Date(t).day <= MonthLength(landed.year, landed.month) && WholeSeconds(t)
  {
    hide AddMonthsClamped, CivilOf, MonthLength;
    var there := AddMonthsClamped(t, months);
    var back := AddMonthsClamped(there, -months);
    MonthIndexMoves(t, months);
    MonthIndexMoves(there, -months);
    SameMonthIndex(Date(t), Date(back));
    SameDate(back, t);
  }

  // --------------------------------------------------------- the machine bound

  /** Nanoseconds from the first midnight. */
  function Nanos(t: Instant): int {
    t.day * NANOS_PER_DAY + t.clock
  }

  lemma AddNanosAdds(t: Instant, nanos: int)
    ensures Nanos(AddNanos(t, nanos)) == Nanos(t) + nanos
  {
  }

  /** A product that wraps lands on another day altogether. */
  lemma WrappedStepIsFar(t: Instant, unit: Unit, n: int)
    requires !FitsInt64(n * Factor(unit))
    ensures AddCalendarInterval(t, unit, n).day != Step(t, unit, n).day
  {
    hide CivilOf, DayNumber, AddMonthsClamped, MonthLength;
    var exact := n * Factor(unit);
    var machine := Wrap64(exact);
    assert Cycles(exact) != 0;
    if CountsMonths(unit) {
      AddMonthsIsShift(t, machine);
      CivilOfDayNumber(ShiftMonths(Date(t), machine));
      CivilOfDayNumber(ShiftMonths(Date(t), exact));
      assert MonthIndex(ShiftMonths(Date(t), machine)) != MonthIndex(ShiftMonths(Date(t), exact));
    } else {
      AddNanosAdds(t, machine);
      AddNanosAdds(t, exact);
      assert Nanos(AddNanos(t, exact)) - Nanos(AddNanos(t, machine)) == TWO_64 * Cycles(exact);
    }
  }

  /** The step is the calendar's, to the second, exactly when n units fit the int64 the source multiplies in. */
  lemma StepExactIff(t: Instant, unit: Unit, n: int)
    ensures DropFraction(AddCalendarInterval(t, unit, n)) == DropFraction(Step(t, unit, n))
       <==> FitsInt64(n * Factor(unit))
  {
    hide CivilOf, DayNumber, AddMonthsClamped, ShiftMonths;
    if !FitsInt64(n * Factor(unit)) {
      WrappedStepIsFar(t, unit, n);
    } else if CountsMonths(unit) {
      AddMonthsIsShift(t, n * MonthsPer(unit));
    }
  }

  /** The amount may wrap before it is multiplied: only its exact product counts. */
  lemma AmountMayWrap(t: Instant, unit: Unit, n: int)
    ensures AddCalendarInterval(t, unit, Wrap64(n)) == AddCalendarInterval(t, unit, n)
  {
    hide AddMonthsClamped, AddNanos;
    WrapOfProduct(n, MonthsPer(unit));
    WrapOfProduct(n, NanosPer(unit));
  }

  /** 200000 days past the start of 2000 wrap: the product passes 2^63 nanoseconds. */
  lemma LongDayStepWraps()
    ensures var t := MidnightOf(Civil(2000, 1, 1));
            DropFraction(AddCalendarInterval(t, Day, 200000)) != DropFraction(Step(t, Day, 200000))
  {
    StepExactIff(MidnightOf(Civil(2000, 1, 1)), Day, 200000);
  }
}

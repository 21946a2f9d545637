/**
 What four-digit years do to truncation: which dates have their floors, ceilings
 and next floors in the years 0 to 9999, said of the dates themselves.
 */
module YearLimits {
  import opened Options
  import opened Numerals
  import opened Calendar
  import opened DateArith
  import opened DateText
  import opened DateTrunc

  /** The first day of the year 0, and the first after the year 9999. */
  const FIRST_DAY: int := -366
  const PAST_DAY: int := 3652059

  lemma FourDigitDay(t: Instant)
    ensures FourDigitYear(t) <==> FIRST_DAY <= t.day < PAST_DAY
  {
    hide CivilOf;
    WrittenDays(t.day);
  }

  /** Whatever text reads as a date has a year of four digits. */
  lemma ReadYears(s: string)
    requires ParseDateText(s).Some?
    ensures FourDigitYear(ParseDateText(s).value)
  {
    hide CivilOf, DayNumber, GetNum, ParseClock, SkipSpace, ParseYear;
    ReadYear(s);
    var fields := ParseDateFields(s);
    assert fields.Some? && ValidCivil(fields.value.0);
    CivilOfDayNumber(fields.value.0);
  }

  lemma ReadYear(s: string)
    ensures ParseDateFields(s).Some? ==> 0 <= ParseDateFields(s).value.0.year <= 9999
  {
    hide GetNum;
    if ParseYear(s).Some? {
      ValueBound(s[..4], DECIMAL);
      assert Pow10(4) == 10000;
    }
  }

  /** The last unit to begin by the end of the year 9999. */
  function LastFloor(unit: Unit, dialect: string): Instant
    requires Truncates(unit)
  {
    FloorOf(Time(PAST_DAY - 1, 0), unit, dialect)
  }

  lemma LastUnit(unit: Unit, dialect: string)
    requires Truncates(unit)
    ensures var f, last := LastFloor(unit, dialect), Time(PAST_DAY - 1, 0);
            !Before(last, f) && FloorOf(f, unit, dialect) == f && NextOf(last, unit, dialect).day >= PAST_DAY
  {
    hide FloorOf, NextOf, Truncates, Starts;
    var last := Time(PAST_DAY - 1, 0);
    FloorsPartition(last, last, unit, dialect);
    NextIsFirstStartAfter(last, unit, dialect);
  }

  /** The next floor is still in the year 9999 exactly for the dates before the last unit. */
  lemma NextFits(date: Instant, unit: Unit, dialect: string)
    requires Truncates(unit) && FourDigitYear(date)
    ensures FourDigitYear(NextOf(date, unit, dialect)) <==> Before(date, LastFloor(unit, dialect))
  {
    hide FourDigitYear, FloorOf, NextOf, Truncates, Starts;
    var f, last := LastFloor(unit, dialect), Time(PAST_DAY - 1, 0);
    LastUnit(unit, dialect);
    FourDigitDay(date);
    FourDigitDay(NextOf(date, unit, dialect));
    if Before(date, f) {
      FloorsPartition(date, f, unit, dialect);
    } else {
      InLastUnit(date, unit, dialect);
      SameFloorSameNext(date, last, unit, dialect);
    }
  }

  lemma InLastUnit(date: Instant, unit: Unit, dialect: string)
    requires Truncates(unit) && !Before(date, LastFloor(unit, dialect)) && date.day < PAST_DAY
    ensures FloorOf(date, unit, dialect) == LastFloor(unit, dialect)
  {
    hide FloorOf, NextOf, Truncates, Starts;
    LastUnit(unit, dialect);
    FloorsPartition(Time(PAST_DAY - 1, 0), date, unit, dialect);
  }

  lemma SameFloorSameNext(a: Instant, b: Instant, unit: Unit, dialect: string)
    requires Truncates(unit) && FloorOf(a, unit, dialect) == FloorOf(b, unit, dialect)
    ensures NextOf(a, unit, dialect) == NextOf(b, unit, dialect)
  {
    hide DateTruncFloor, AddCalendarInterval;
  }

  /** The ceiling is, exactly for the dates not after the last unit's first day. */
  lemma CeilFits(date: Instant, unit: Unit, dialect: string)
    requires Truncates(unit) && FourDigitYear(date)
    ensures DateTruncCeil(date, unit, dialect).Some?
    ensures FourDigitYear(DateTruncCeil(date, unit, dialect).value) <==> !Before(LastFloor(unit, dialect), date)
  {
    hide FourDigitYear, FloorOf, NextOf, DateTruncCeil, Truncates, LastFloor;
    var f := LastFloor(unit, dialect);
    FourDigitDay(date);
    CeilIs(date, unit, dialect);
    NextFits(date, unit, dialect);
    LastUnit(unit, dialect);
    if !Before(date, f) {
      InLastUnit(date, unit, dialect);
    }
  }

  lemma CeilIs(date: Instant, unit: Unit, dialect: string)
    requires Truncates(unit)
    ensures DateTruncCeil(date, unit, dialect)
         == Some(if FloorOf(date, unit, dialect) == date then date else NextOf(date, unit, dialect))
  {
    hide DateTruncFloor, AddCalendarInterval;
  }

  /** The first weeks begin on 3 January of the year 0, a Monday, or the day before. */
  function FirstWeek(dialect: string): int {
    if dialect == "tsql" || dialect == "bigquery" then FIRST_DAY + 1 else FIRST_DAY + 2
  }

  /** A floor falls before the year 0 for one unit only, and for the days before that unit's first start. */
  lemma FloorFits(t: Instant, unit: Unit, dialect: string)
    requires Truncates(unit) && FourDigitYear(t)
    ensures FourDigitYear(FloorOf(t, unit, dialect)) <==> !(unit == Week && t.day < FirstWeek(dialect))
  {
    hide FloorOf, FourDigitYear, Truncates, Starts;
    FourDigitDay(t);
    FourDigitDay(FloorOf(t, unit, dialect));
    if unit == Week {
      FirstWeeks(t, dialect);
    } else {
      FloorsFromFirstDay(t, unit, dialect);
    }
  }

  lemma FloorsFromFirstDay(t: Instant, unit: Unit, dialect: string)
    requires Truncates(unit) && unit != Week && FIRST_DAY <= t.day
    ensures FIRST_DAY <= FloorOf(t, unit, dialect).day <= t.day
  {
    hide FloorOf, NextOf, Truncates;
    FirstDayStarts(unit, dialect);
    FloorsPartition(Time(FIRST_DAY, 0), t, unit, dialect);
    FloorsPartition(t, t, unit, dialect);
  }

  lemma FirstWeeks(t: Instant, dialect: string)
    requires FIRST_DAY <= t.day
    ensures FloorOf(t, Week, dialect).day <= t.day
    ensures FloorOf(t, Week, dialect).day >= FIRST_DAY <==> t.day >= FirstWeek(dialect)
  {
    hide FloorOf;
    WeekBack(t, dialect);
  }

  lemma FirstDayStarts(unit: Unit, dialect: string)
    requires Truncates(unit) && unit != Week
    ensures FloorOf(Time(FIRST_DAY, 0), unit, dialect) == Time(FIRST_DAY, 0)
  {
    FirstOfYear();
    hide CivilOf, DayNumber;
    if CountsMonths(unit) {
      FirstMonth(unit, dialect);
    } else {
      assert unit == Day;
    }
  }

  lemma FirstMonth(unit: Unit, dialect: string)
    requires CountsMonths(unit)
    ensures FloorOf(Time(FIRST_DAY, 0), unit, dialect) == Time(FIRST_DAY, 0)
  {
    hide CivilOf, DayNumber, DateTruncFloor, PeriodStart;
    FirstOfYear();
    PeriodFloorValue(Time(FIRST_DAY, 0), unit, dialect);
    assert PeriodStart(Civil(0, 1, 1), unit) == Civil(0, 1, 1) by {
      JanuaryStarts(unit);
    }
  }

  lemma JanuaryStarts(unit: Unit)
    requires CountsMonths(unit)
    ensures PeriodStart(Civil(0, 1, 1), unit) == Civil(0, 1, 1)
  {
  }

  lemma FirstOfYear()
    ensures CivilOf(FIRST_DAY) == Civil(0, 1, 1) && DayNumber(Civil(0, 1, 1)) == FIRST_DAY
  {
    hide CivilOf;
    CivilOfDayNumber(Civil(0, 1, 1));
  }
}

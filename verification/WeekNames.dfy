/**
 The names of weekdays and of the units that dates are truncated to
 (weekStartDays, truncUnits and weekOffset in sqlglot/date_trunc.go), and the
 calendar's own facts, all written out.
 */
module WeekNames {
  import opened Options
  import opened Calendar
  import opened DateArith
  import opened DateTrunc
  import opened SqlExpr
  import opened TruncFold

  /** 1 January 2024 ... */
  lemma NewYear2024(c: Civil)
    requires c.year == 2024 && c.month == 1 && c.day == 1
    ensures ValidCivil(c) && DayNumber(c) == 738885
  {
  }

  /** ... was a Monday, and the weekdays follow each other. */
  lemma WeekdaysFollow(day: int)
    ensures IsoWeekday(738885) == 1
    ensures IsoWeekday(day + 1) == if IsoWeekday(day) == 7 then 1 else IsoWeekday(day) + 1
  {
  }

  /** Thirty days have September, April, June and November; all the rest have 31, but February alone. */
  lemma MonthsOfTheYear(c: Civil)
    ensures ValidCivil(c) <==>
              && 1 <= c.month <= 12 && 1 <= c.day <= 31
              && (c.month in [9, 4, 6, 11] ==> c.day <= 30)
              && (c.month == 2 ==> c.day <= 29)
              && (c.month == 2 && c.day == 29 ==> c.year % 4 == 0 && (c.year % 100 == 0 ==> c.year % 400 == 0))
  {
  }

  /** The weekday a floor of weeks falls on: Sunday in T-SQL and BigQuery, Monday elsewhere. */
  ghost predicate WeeksStartOn(weekday: int, dialect: string) {
    forall t: Instant :: IsoWeekday(FloorOf(t, Week, dialect).day) == weekday
  }

  lemma WeeksStart(dialect: string)
    ensures WeeksStartOn(if dialect == "tsql" || dialect == "bigquery" then 7 else 1, dialect)
    ensures forall w :: WeeksStartOn(w, dialect) ==> w == if dialect == "tsql" || dialect == "bigquery" then 7 else 1
  {
    hide FloorOf, IsoWeekday;
    forall t: Instant
      ensures IsoWeekday(FloorOf(t, Week, dialect).day) == if dialect == "tsql" || dialect == "bigquery" then 7 else 1
    {
      WeekFloorsOnWeekStart(t, dialect);
    }
    assert forall w :: WeeksStartOn(w, dialect) ==> w == IsoWeekday(FloorOf(Time(0, 0), Week, dialect).day);
  }

  /** A week start is taken exactly when the dialect's weeks start on the day it names; no other word is a week start. */
  lemma NamedWeekStarts(day: Expr, dialect: string)
    ensures var name, taken := Upper(Name(day)), TruncUnit(WeekStart(day), dialect) == Some(Week);
            && (name == "MONDAY" ==> (taken <==> WeeksStartOn(1, dialect)))
            && (name == "TUESDAY" ==> (taken <==> WeeksStartOn(2, dialect)))
            && (name == "WEDNESDAY" ==> (taken <==> WeeksStartOn(3, dialect)))
            && (name == "THURSDAY" ==> (taken <==> WeeksStartOn(4, dialect)))
            && (name == "FRIDAY" ==> (taken <==> WeeksStartOn(5, dialect)))
            && (name == "SATURDAY" ==> (taken <==> WeeksStartOn(6, dialect)))
            && (name == "SUNDAY" ==> (taken <==> WeeksStartOn(7, dialect)))
            && (taken || TruncUnit(WeekStart(day), dialect).None?)
    ensures TruncUnit(WeekStart(day), dialect).Some? ==>
              Upper(Name(day)) == if dialect == "tsql" || dialect == "bigquery" then "SUNDAY" else "MONDAY"
  {
    WeeksStart(dialect);
    hide WeeksStartOn, Upper, Name;
  }

  /** Truncation to a named week start goes back to the last day of that name, however the dialect's weeks start. */
  lemma NamedWeeksGoBack(t: Instant, day: Expr, dialect: string)
    ensures var name, v := Upper(Name(day)), TruncValue(TimeValue(t), WeekStart(day), dialect);
            && (v.TimeValue? ==> Midnight(v.time) && v.time.day <= t.day < v.time.day + 7)
            && (name == "MONDAY" ==> v.TimeValue? && IsoWeekday(v.time.day) == 1)
            && (name == "TUESDAY" ==> v.TimeValue? && IsoWeekday(v.time.day) == 2)
            && (name == "WEDNESDAY" ==> v.TimeValue? && IsoWeekday(v.time.day) == 3)
            && (name == "THURSDAY" ==> v.TimeValue? && IsoWeekday(v.time.day) == 4)
            && (name == "FRIDAY" ==> v.TimeValue? && IsoWeekday(v.time.day) == 5)
            && (name == "SATURDAY" ==> v.TimeValue? && IsoWeekday(v.time.day) == 6)
            && (name == "SUNDAY" ==> v.TimeValue? && IsoWeekday(v.time.day) == 7)
            && (v.TimeValue? <==>
                  name in ["MONDAY", "TUESDAY", "WEDNESDAY", "THURSDAY", "FRIDAY", "SATURDAY", "SUNDAY"])
  {
    hide Upper, Name;
    var weekday := WeekdayNamed(Upper(Name(day)));
    if weekday != 0 {
      WeekdayFloorLands(t, weekday);
    }
    hide WeekdayFloor, IsoWeekday;
  }

  lemma WeekdayFloorLands(t: Instant, weekday: int)
    requires 1 <= weekday <= 7
    ensures var f := WeekdayFloor(t, weekday);
            Midnight(f) && f.day <= t.day < f.day + 7 && IsoWeekday(f.day) == weekday
  {
  }

  /** The units a date is truncated to, by name; a truncation by any other is left alone. */
  lemma NamedTruncations(unit: Expr, dialect: string)
    requires !unit.WeekStart?
    ensures var name, read := Upper(Name(unit)), TruncUnit(unit, dialect);
            && (name == "YEAR" ==> read == Some(Year))
            && (name == "QUARTER" ==> read == Some(Quarter))
            && (name == "MONTH" ==> read == Some(Month))
            && (name == "WEEK" ==> read == Some(Week))
            && (name == "DAY" ==> read == Some(Day))
            && (name !in ["YEAR", "QUARTER", "MONTH", "WEEK", "DAY"] ==> read.None?)
  {
    hide Upper, Name;
  }

  /** Names are read in either case. */
  lemma NamesInEitherCase()
    ensures Upper("abcdefghijklmnopqrstuvwxyz") == "ABCDEFGHIJKLMNOPQRSTUVWXYZ"
    ensures forall s: string :: (forall i :: 0 <= i < |s| ==> !('a' <= s[i] <= 'z')) ==> Upper(s) == s
  {
  }

  /** The casts that are read, by their types. */
  lemma NamedCasts(kind: string)
    ensures IsTemporal(kind) <==> kind in ["DATE", "DATETIME", "DATETIME2", "TIMESTAMP", "TIMESTAMPTZ"]
  {
  }
}

/**
 The proleptic Gregorian calendar that Go's `time` package keeps, and the
 instants the date folds work on. Days are numbered from 0 at 0001-01-01,
 a Monday. Month lengths and leap years are those of RFC 3339, section 5.7
 and Appendix C.
 */
module Calendar {
  import opened Arithmetic

  predicate IsLeap(y: int) {
    y % 4 == 0 && (y % 100 != 0 || y % 400 == 0)
  }

  function MonthLength(y: int, m: int): (n: int)
    requires 1 <= m <= 12
    ensures 28 <= n <= 31
  {
    if m == 2 then (if IsLeap(y) then 29 else 28)
    else if m == 4 || m == 6 || m == 9 || m == 11 then 30
    else 31
  }

  function YearLength(y: int): int {
    if IsLeap(y) then 366 else 365
  }

  datatype Civil = Civil(year: int, month: int, day: int)

  predicate ValidCivil(c: Civil) {
    1 <= c.month <= 12 && 1 <= c.day <= MonthLength(c.year, c.month)
  }

  predicate CivilBefore(a: Civil, b: Civil) {
    || a.year < b.year
    || (a.year == b.year && (a.month < b.month || (a.month == b.month && a.day < b.day)))
  }

  /** Days from 0001-01-01 to the first day of year y. */
  function DaysBeforeYear(y: int): int {
    365 * (y - 1) + (y - 1) / 4 - (y - 1) / 100 + (y - 1) / 400
  }

  /** Days from the first day of year y to the first day of its month m; month 13 is the year's end. */
  function DaysBeforeMonth(y: int, m: int): (n: int)
    requires 1 <= m <= 13
    ensures m == 13 ==> n == YearLength(y)
  {
    var leap := if IsLeap(y) then 1 else 0;
    if m == 1 then 0
    else if m == 2 then 31
    else leap + (if m == 3 then 59 else if m == 4 then 90 else if m == 5 then 120
                 else if m == 6 then 151 else if m == 7 then 181 else if m == 8 then 212
                 else if m == 9 then 243 else if m == 10 then 273 else if m == 11 then 304
                 else if m == 12 then 334 else 365)
  }

  function DayNumber(c: Civil): int
    requires ValidCivil(c)
  {
    DaysBeforeYear(c.year) + DaysBeforeMonth(c.year, c.month) + c.day - 1
  }

  /** The year a day falls in, by whole 400-, 100-, 4- and 1-year cycles. */
  function YearOf(n: int): int {
    var n400, r400 := n / 146097, n % 146097;
    var n100 := if r400 / 36524 < 3 then r400 / 36524 else 3;
    var r100 := r400 - n100 * 36524;
    var n4, r4 := r100 / 1461, r100 % 1461;
    var n1 := if r4 / 365 < 3 then r4 / 365 else 3;
    400 * n400 + 100 * n100 + 4 * n4 + n1 + 1
  }

  function MonthOf(y: int, dayOfYear: int): (m: int)
    requires 0 <= dayOfYear < YearLength(y)
    ensures 1 <= m <= 12
    ensures DaysBeforeMonth(y, m) <= dayOfYear < DaysBeforeMonth(y, m + 1)
  {
    MonthFrom(y, dayOfYear, 1)
  }

  function MonthFrom(y: int, dayOfYear: int, m: int): (r: int)
    requires 1 <= m <= 12
    requires DaysBeforeMonth(y, m) <= dayOfYear < YearLength(y)
    ensures m <= r <= 12
    ensures DaysBeforeMonth(y, r) <= dayOfYear < DaysBeforeMonth(y, r + 1)
    decreases 12 - m
  {
    if dayOfYear < DaysBeforeMonth(y, m + 1) then m else MonthFrom(y, dayOfYear, m + 1)
  }

  lemma DivStep(x: int, k: int)
    requires k == 4 || k == 100 || k == 400
    ensures x / k == (x - 1) / k + (if x % k == 0 then 1 else 0)
  {
  }

  lemma YearStep(y: int)
    ensures DaysBeforeYear(y + 1) == DaysBeforeYear(y) + YearLength(y)
  {
    DivStep(y, 4);
    DivStep(y, 100);
    DivStep(y, 400);
    CenturiesDivide(y);
  }

  lemma CenturiesDivide(y: int)
    ensures y % 400 == 0 ==> y % 100 == 0
    ensures y % 100 == 0 ==> y % 4 == 0
  {
    if y % 400 == 0 {
      DivModIs(y, 100, 4 * (y / 400), 0);
    }
    if y % 100 == 0 {
      DivModIs(y, 4, 25 * (y / 100), 0);
    }
  }

  lemma {:induction false} YearsGrow(a: int, b: int)
    requires a <= b
    ensures DaysBeforeYear(b) >= DaysBeforeYear(a) + 365 * (b - a)
    decreases b - a
  {
    if a == b {
    } else {
      YearsGrow(a, b - 1);
      YearStep(b - 1);
    }
  }

  lemma CycleDays(n400: int, n100: int, n4: int, n1: int)
    requires 0 <= n100 < 4 && 0 <= n4 < 25 && 0 <= n1 < 4
    ensures DaysBeforeYear(400 * n400 + 100 * n100 + 4 * n4 + n1 + 1)
         == 146097 * n400 + 36524 * n100 + 1461 * n4 + 365 * n1
  {
    var z := 400 * n400 + 100 * n100 + 4 * n4 + n1;
    DivModIs(z, 4, 100 * n400 + 25 * n100 + n4, n1);
    DivModIs(z, 100, 4 * n400 + n100, 4 * n4 + n1);
    DivModIs(z, 400, n400, 100 * n100 + 4 * n4 + n1);
  }

  /** YearOf finds the year whose days hold n. */
  lemma YearHolds(n: int)
    ensures DaysBeforeYear(YearOf(n)) <= n < DaysBeforeYear(YearOf(n) + 1)
  {
    hide DaysBeforeYear, IsLeap;
    var n400, r400 := n / 146097, n % 146097;
    var n100 := if r400 / 36524 < 3 then r400 / 36524 else 3;
    var r100 := r400 - n100 * 36524;
    var n4, r4 := r100 / 1461, r100 % 1461;
    var n1 := if r4 / 365 < 3 then r4 / 365 else 3;
    assert n == 146097 * n400 + r400;
    assert 0 <= r100 <= 36524 && (n100 < 3 ==> r100 < 36524);
    assert r100 == 1461 * n4 + r4;
    assert 0 <= n4 < 25 && (n100 < 3 ==> r4 < 1460 || n4 < 24);
    assert 0 <= r4 - 365 * n1 <= 365 && (n1 < 3 ==> r4 - 365 * n1 < 365);
    CycleDays(n400, n100, n4, n1);
    YearStep(YearOf(n));
    if r4 - 365 * n1 == 365 {
      LastDayIsLeap(n400, n100, n4);
    }
  }

  lemma LastDayIsLeap(n400: int, n100: int, n4: int)
    requires 0 <= n100 < 4 && 0 <= n4 < 25
    requires n100 < 3 ==> n4 < 24
    ensures IsLeap(400 * n400 + 100 * n100 + 4 * n4 + 4)
  {
    var y := 400 * n400 + 100 * n100 + 4 * n4 + 4;
    DivModIs(y, 4, 100 * n400 + 25 * n100 + n4 + 1, 0);
    if n4 == 24 {
      DivModIs(y, 400, n400 + 1, 0);
    } else {
      DivModIs(y, 100, 4 * n400 + n100, 4 * n4 + 4);
    }
  }

  lemma MonthStep(y: int, m: int)
    requires 1 <= m <= 12
    ensures 0 <= DaysBeforeMonth(y, m) && DaysBeforeMonth(y, 1) == 0
    ensures DaysBeforeMonth(y, m) + MonthLength(y, m) == DaysBeforeMonth(y, m + 1) <= YearLength(y)
  {
  }

  lemma YearUnique(n: int, y: int)
    requires DaysBeforeYear(y) <= n < DaysBeforeYear(y + 1)
    ensures YearOf(n) == y
  {
    YearHolds(n);
    var z := YearOf(n);
    if z < y {
      YearsGrow(z + 1, y);
    } else if y < z {
      YearsGrow(y + 1, z);
    }
  }

  lemma {:induction false} MonthsGrow(y: int, a: int, b: int)
    requires 1 <= a <= b <= 13
    ensures DaysBeforeMonth(y, a) <= DaysBeforeMonth(y, b)
    decreases b - a
  {
    hide DaysBeforeMonth, MonthLength;
    if a == b {
    } else {
      MonthsGrow(y, a, b - 1);
      MonthStep(y, b - 1);
    }
  }

  lemma MonthUnique(y: int, dayOfYear: int, m: int)
    requires 1 <= m <= 12
    requires 0 <= dayOfYear < YearLength(y)
    requires DaysBeforeMonth(y, m) <= dayOfYear < DaysBeforeMonth(y, m + 1)
    ensures MonthOf(y, dayOfYear) == m
  {
    hide DaysBeforeMonth, MonthOf;
    var r := MonthOf(y, dayOfYear);
    if r < m {
      MonthsGrow(y, r + 1, m);
    } else if m < r {
      MonthsGrow(y, m + 1, r);
    }
  }

  function CivilOf(n: int): (c: Civil)
    ensures ValidCivil(c)
  {
    hide DaysBeforeYear, YearOf, DaysBeforeMonth, MonthLength, YearLength;
    YearHolds(n);
    var y := YearOf(n);
    YearStep(y);
    var dayOfYear := n - DaysBeforeYear(y);
    var m := MonthOf(y, dayOfYear);
    MonthStep(y, m);
    Civil(y, m, dayOfYear - DaysBeforeMonth(y, m) + 1)
  }

  /** Every day number is the number of exactly one calendar date ... */
  lemma DayNumberOfCivilOf(n: int)
    ensures DayNumber(CivilOf(n)) == n
  {
  }

  /** ... and every calendar date comes back from its number. */
  lemma CivilOfDayNumber(c: Civil)
    requires ValidCivil(c)
    ensures CivilOf(DayNumber(c)) == c
  {
    hide DaysBeforeYear, YearOf, MonthOf, DaysBeforeMonth, IsLeap, MonthLength, YearLength;
    var n := DayNumber(c);
    var dayOfYear := n - DaysBeforeYear(c.year);
    MonthStep(c.year, c.month);
    YearStep(c.year);
    YearUnique(n, c.year);
    MonthUnique(c.year, dayOfYear, c.month);
  }

  /** The days of the years 1 to 9999. */
  lemma FourDigitDays(n: int)
    ensures 1 <= CivilOf(n).year <= 9999 <==> 0 <= n < 3652059
  {
    hide YearOf, CivilOf, IsLeap;
    YearHolds(n);
    var y := YearOf(n);
    CivilYear(n);
    assert DaysBeforeYear(1) == 0 && DaysBeforeYear(10000) == 3652059;
    if y < 1 {
      YearsGrow(y + 1, 1);
    } else if y > 9999 {
      YearsGrow(10000, y);
    } else {
      YearsGrow(1, y);
      YearsGrow(y + 1, 10000);
    }
  }

  /** And those of the years 0 to 9999: the year 0 is a leap year. */
  lemma WrittenDays(n: int)
    ensures 0 <= CivilOf(n).year <= 9999 <==> -366 <= n < 3652059
  {
    hide YearOf, CivilOf, IsLeap;
    FourDigitDays(n);
    YearHolds(n);
    var y := YearOf(n);
    CivilYear(n);
    assert DaysBeforeYear(0) == -366 && DaysBeforeYear(1) == 0;
    if y < 0 {
      YearsGrow(y + 1, 0);
    } else if y > 0 {
      YearsGrow(1, y);
    }
  }

  lemma CivilYear(n: int)
    ensures CivilOf(n).year == YearOf(n)
  {
  }

  /** The numbering keeps the calendar's order. */
  lemma DayNumberOrder(a: Civil, b: Civil)
    requires ValidCivil(a) && ValidCivil(b)
    ensures CivilBefore(a, b) <==> DayNumber(a) < DayNumber(b)
    ensures a == b <==> DayNumber(a) == DayNumber(b)
  {
    if CivilBefore(a, b) {
      BeforeMeansSmaller(a, b);
    } else if CivilBefore(b, a) {
      BeforeMeansSmaller(b, a);
    } else {
      assert a == b;
    }
  }

  lemma BeforeMeansSmaller(a: Civil, b: Civil)
    requires ValidCivil(a) && ValidCivil(b) && CivilBefore(a, b)
    ensures DayNumber(a) < DayNumber(b)
  {
    hide DaysBeforeYear, IsLeap;
    if a.year < b.year {
      YearStep(a.year);
      YearsGrow(a.year + 1, b.year);
      MonthStep(a.year, a.month);
    }
  }

  // ---------------------------------------------------------------- instants

  const NANOS_PER_SECOND: int := 1_000_000_000
  const NANOS_PER_DAY: int := 86_400_000_000_000

  /** A UTC instant: a day number and the nanoseconds since that day's midnight. */
  datatype Time = Time(day: int, clock: int)

  type Instant = t: Time | 0 <= t.clock < NANOS_PER_DAY witness Time(0, 0)

  predicate Before(a: Instant, b: Instant) {
    a.day < b.day || (a.day == b.day && a.clock < b.clock)
  }

  predicate Midnight(t: Instant) {
    t.clock == 0
  }

  function Date(t: Instant): Civil {
    CivilOf(t.day)
  }

  function MidnightOf(c: Civil): (t: Instant)
    requires ValidCivil(c)
    ensures Midnight(t)
  {
    Time(DayNumber(c), 0)
  }

  /** dayOnly: the clock zeroed. */
  function DayOnly(t: Instant): (r: Instant)
    ensures Midnight(r)
  {
    Time(t.day, 0)
  }

  /** The ISO weekday, Monday 1 to Sunday 7. */
  function IsoWeekday(day: int): (w: int)
    ensures 1 <= w <= 7
  {
    day % 7 + 1
  }
}

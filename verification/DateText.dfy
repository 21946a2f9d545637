/**
 The text of a date (parseDateText and the Format call of dateValueLiteral in
 sqlglot/date_arith.go): what Go's time.Parse and Format do with the two
 layouts "2006-01-02" and "2006-01-02 15:04:05". Parse takes a one-digit hour,
 any run of spaces before it, and a fraction of a second the layout does not
 show; Format writes years past four digits in full and never a fraction.
 */
module DateText {
  import opened Options
  import opened Numerals
  import opened Calendar
  import opened DateArith

  // ------------------------------------------------------------------- reading

  predicate DigitAt(s: string, i: nat) {
    i < |s| && IsDigit(s[i], DECIMAL)
  }

  function Two(s: string): int
    requires |s| >= 2
  {
    DigitValue(s[0], DECIMAL) * 10 + DigitValue(s[1], DECIMAL)
  }

  /** getnum: two digits, or one when the layout field is not zero-padded. */
  function GetNum(s: string, fixed: bool): (r: Option<(int, string)>)
    ensures r.Some? ==> 0 <= r.value.0 <= 99
  {
    if !DigitAt(s, 0) then None
    else if !DigitAt(s, 1) then (if fixed then None else Some((DigitValue(s[0], DECIMAL), s[1..])))
    else Some((Two(s), s[2..]))
  }

  /** skip over a literal character of the layout. */
  function SkipChar(s: string, c: char): Option<string> {
    if s != "" && s[0] == c then Some(s[1..]) else None
  }

  function CutSpace(s: string): string {
    if s != "" && s[0] == ' ' then CutSpace(s[1..]) else s
  }

  /** skip over the layout's space: a run of them, or the end of the text. */
  function SkipSpace(s: string): Option<string> {
    if s != "" && s[0] != ' ' then None else Some(CutSpace(s))
  }

  function ParseYear(s: string): Option<(int, string)> {
    if |s| < 4 || !AllDigits(s[..4], DECIMAL) then None else Some((Value(s[..4], DECIMAL), s[4..]))
  }

  /** The layout's date fields; the month is checked here, the day when the text has been read. */
  function ParseDateFields(s: string): Option<(Civil, string)> {
    var (year, afterYear) :- ParseYear(s);
    var monthText :- SkipChar(afterYear, '-');
    var (month, afterMonth) :- GetNum(monthText, true);
    if month <= 0 || 12 < month then None else
      var dayText :- SkipChar(afterMonth, '-');
      var (day, rest) :- GetNum(dayText, true);
      Some((Civil(year, month, day), rest))
  }

  function DigitRun(s: string): (n: nat)
    ensures n <= |s| && AllDigits(s[..n], DECIMAL)
  {
    if DigitAt(s, 0) then 1 + DigitRun(s[1..]) else 0
  }

  /** The nanoseconds of a fraction's digits: nine are read, missing ones are zero. */
  function FractionNanos(digits: string): (n: int)
    requires AllDigits(digits, DECIMAL)
    ensures 0 <= n < NANOS_PER_SECOND
  {
    var read := if |digits| > 9 then digits[..9] else digits;
    ValueBound(read, DECIMAL);
    FractionScale(|read|, Value(read, DECIMAL));
    Value(read, DECIMAL) * Pow10(9 - |read|)
  }

  lemma FractionScale(n: nat, v: int)
    requires n <= 9 && 0 <= v < Pow10(n)
    ensures 0 <= v * Pow10(9 - n) < NANOS_PER_SECOND
  {
    PowAdds(10, n, 9 - n);
    assert Pow10(9) == NANOS_PER_SECOND;
    PowPositive(10, 9 - n);
    var p := Pow10(9 - n);
    assert 0 <= v * p < Pow10(n) * p;
  }

  /** A fraction after the seconds, though the layout has none. */
  function ParseFraction(s: string): (r: (int, string))
    ensures 0 <= r.0 < NANOS_PER_SECOND
  {
    if |s| >= 2 && (s[0] == '.' || s[0] == ',') && DigitAt(s, 1) then
      var n := DigitRun(s[1..]);
      (FractionNanos(s[1..][..n]), s[1..][n..])
    else (0, s)
  }

  function ParseClock(s: string): (r: Option<(int, string)>)
    ensures r.Some? ==> 0 <= r.value.0 < NANOS_PER_DAY
  {
    var (h, afterHour) :- GetNum(s, false);
    if 24 <= h then None else
      var minuteText :- SkipChar(afterHour, ':');
      var (m, afterMinute) :- GetNum(minuteText, true);
      if 60 <= m then None else
        var secondText :- SkipChar(afterMinute, ':');
        var (sec, afterSecond) :- GetNum(secondText, true);
        if 60 <= sec then None else
          var (nanos, rest) := ParseFraction(afterSecond);
          Some((ClockAt(h, m, sec) + nanos, rest))
  }

  /** time.Parse with layout "2006-01-02". */
  function ParseDate(s: string): Option<Instant> {
    var (c, rest) :- ParseDateFields(s);
    if rest == "" && ValidCivil(c) then Some(MidnightOf(c)) else None
  }

  /** time.Parse with layout "2006-01-02 15:04:05". */
  function ParseDateTime(s: string): Option<Instant> {
    var (c, afterDate) :- ParseDateFields(s);
    var clockText :- SkipSpace(afterDate);
    var (clock, rest) :- ParseClock(clockText);
    if rest == "" && ValidCivil(c) then Some(Time(DayNumber(c), clock)) else None
  }

  /** parseDateText. */
  function ParseDateText(s: string): Option<Instant> {
    var t := ParseDateTime(s);
    if t.Some? then t else ParseDate(s)
  }

  // ------------------------------------------------------------------- writing

  function FormatYear(y: int): string {
    if y < 0 then "-" + Padded(-y, 4) else Padded(y, 4)
  }

  function FormatDate(t: Instant): string {
    FormatYear(Date(t).year) + ("-" + Padded(Date(t).month, 2) + ("-" + Padded(Date(t).day, 2)))
  }

  function FormatClock(t: Instant): string {
    Padded(HourOf(t), 2) + (":" + Padded(MinuteOf(t), 2) + (":" + Padded(SecondOf(t), 2)))
  }

  function FormatDateTime(t: Instant): string {
    FormatDate(t) + (" " + FormatClock(t))
  }

  // ---------------------------------------------------------------- round trip

  predicate FourDigitYear(t: Instant) {
    0 <= Date(t).year <= 9999
  }

  lemma TwoDigits(n: nat, rest: string, fixed: bool)
    requires n < 100
    ensures GetNum(Padded(n, 2) + rest, fixed) == Some((n, rest))
  {
    PaddedReads(n, 2);
    assert Pow10(2) == 100;
    var p := Padded(n, 2);
    assert p == [p[0]] + [p[1]];
    AppendDigit([p[0]], p[1], DECIMAL);
    AppendDigit("", p[0], DECIMAL);
    assert [p[0]] == "" + [p[0]];
    assert (p + rest)[2..] == rest;
  }

  lemma SkipOne(c: char, rest: string)
    ensures SkipChar([c] + rest, c) == Some(rest)
  {
  }

  /** A year is read back exactly when four digits write it; otherwise no dash follows them. */
  lemma YearReads(y: int, rest: string)
    ensures 0 <= y <= 9999 ==> ParseYear(FormatYear(y) + rest) == Some((y, rest))
    ensures !(0 <= y <= 9999) ==>
              var p := ParseYear(FormatYear(y) + rest);
              p.Some? ==> SkipChar(p.value.1, '-').None?
  {
    var text := FormatYear(y) + rest;
    assert Pow10(4) == 10000;
    if y < 0 {
      assert text[..4][0] == '-';
    } else {
      PaddedReads(y, 4);
      var p := Padded(y, 4);
      if y <= 9999 {
        assert text[..4] == p && text[4..] == rest;
      } else {
        assert text[4..][0] == p[4];
        assert IsDigit(p[4], DECIMAL);
      }
    }
  }

  lemma DateFieldsRead(t: Instant, rest: string)
    ensures FourDigitYear(t) ==> ParseDateFields(FormatDate(t) + rest) == Some((Date(t), rest))
    ensures !FourDigitYear(t) ==> ParseDateFields(FormatDate(t) + rest).None?
  {
    hide CivilOf, GetNum, SkipChar, ParseYear, FormatYear, Padded, MonthLength;
    var c := Date(t);
    var d := Padded(c.day, 2) + rest;
    var m := Padded(c.month, 2) + (['-'] + d);
    var text := FormatDate(t) + rest;
    assert text == FormatYear(c.year) + (['-'] + m);
    YearReads(c.year, ['-'] + m);
    if FourDigitYear(t) {
      SkipOne('-', m);
      TwoDigits(c.month, ['-'] + d, true);
      SkipOne('-', d);
      TwoDigits(c.day, rest, true);
    }
  }

  lemma ClockReads(t: Instant, rest: string)
    ensures var (nanos, left) := ParseFraction(rest);
            ParseClock(FormatClock(t) + rest) == Some((DropFraction(t).clock + nanos, left))
  {
    hide GetNum, SkipChar, Padded, HourOf, MinuteOf, SecondOf, ClockAt, ParseFraction;
    ClockParts(t);
    var s := Padded(SecondOf(t), 2) + rest;
    var m := Padded(MinuteOf(t), 2) + ([':'] + s);
    assert FormatClock(t) + rest == Padded(HourOf(t), 2) + ([':'] + m);
    TwoDigits(HourOf(t), [':'] + m, false);
    SkipOne(':', m);
    TwoDigits(MinuteOf(t), [':'] + s, true);
    SkipOne(':', s);
    TwoDigits(SecondOf(t), rest, true);
  }

  /** A written date reads back as its own midnight exactly when its year has four digits; else it does not read at
      all. */
  lemma DateRoundTrip(t: Instant)
    ensures ParseDateText(FormatDate(t)) == if FourDigitYear(t) then Some(DayOnly(t)) else None
  {
    hide CivilOf, ParseDateFields, FormatDate, MonthLength, DayNumber;
    assert FormatDate(t) + "" == FormatDate(t);
    DateFieldsRead(t, "");
    DayNumberOfCivilOf(t.day);
  }

  lemma DateTimeReads(t: Instant, rest: string)
    requires FourDigitYear(t)
    ensures var (nanos, left) := ParseFraction(rest);
            left == "" ==>
              ParseDateText(FormatDateTime(t) + rest) == Some(Time(t.day, DropFraction(t).clock + nanos))
  {
    hide CivilOf, ParseDateFields, FormatDate, FormatClock, ParseClock, MonthLength, DayNumber, ParseFraction;
    var clockText := FormatClock(t) + rest;
    assert FormatDateTime(t) + rest == FormatDate(t) + (" " + clockText);
    DateFieldsRead(t, " " + clockText);
    ClockReads(t, rest);
    DayNumberOfCivilOf(t.day);
    ClockStartsWithDigit(t);
    assert (" " + clockText)[1..] == clockText;
    assert CutSpace(" " + clockText) == CutSpace(clockText) == clockText;
  }

  lemma ClockStartsWithDigit(t: Instant)
    ensures FormatClock(t) != "" && IsDigit(FormatClock(t)[0], DECIMAL)
  {
    hide HourOf, MinuteOf, SecondOf;
    PaddedReads(HourOf(t), 2);
  }

  /** A written datetime reads back without its fraction, under the same condition. */
  lemma DateTimeRoundTrip(t: Instant)
    ensures ParseDateText(FormatDateTime(t)) == if FourDigitYear(t) then Some(DropFraction(t)) else None
  {
    hide CivilOf, ParseDateFields, FormatDate, FormatClock, MonthLength, DayNumber;
    assert FormatDateTime(t) + "" == FormatDateTime(t);
    DateFieldsRead(t, " " + FormatClock(t));
    if FourDigitYear(t) {
      DateTimeReads(t, "");
    }
  }

  lemma {:induction false} WholeDigitRun(digits: string)
    requires AllDigits(digits, DECIMAL)
    ensures DigitRun(digits) == |digits|
  {
    if digits == "" {
    } else {
      WholeDigitRun(digits[1..]);
    }
  }

  /** A fraction of a second is read although neither layout has one; DateTimeRoundTrip writes none back. */
  lemma FractionIsRead(t: Instant, digits: string)
    requires FourDigitYear(t) && digits != "" && AllDigits(digits, DECIMAL)
    ensures ParseDateText(FormatDateTime(t) + ("." + digits))
         == Some(Time(t.day, DropFraction(t).clock + FractionNanos(digits)))
  {
    hide FormatDateTime, FractionNanos, CivilOf, ParseDateText;
    WholeDigitRun(digits);
    var rest := "." + digits;
    assert rest[1..] == digits && digits[..|digits|] == digits && digits[|digits|..] == "";
    DateTimeReads(t, rest);
  }
}

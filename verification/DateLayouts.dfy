/**
 The texts that are read as dates, rune by rune (parseDateText in
 sqlglot/date_arith.go and the two layouts it gives to time.Parse): exactly
 these, and what is written back is one of them.
 */
module DateLayouts {
  import opened Options
  import opened Numerals
  import opened Calendar
  import opened DateArith
  import opened DateText

  predicate Figures(s: string, from: nat, upto: nat) {
    from <= upto <= |s| && forall k :: from <= k < upto ==> '0' <= s[k] <= '9'
  }

  /** What figures are worth. */
  function Worth(s: string, from: nat, upto: nat): int
    requires Figures(s, from, upto)
    decreases upto
  {
    if from == upto then 0 else 10 * Worth(s, from, upto - 1) + (s[upto - 1] as int - '0' as int)
  }

  lemma {:induction false} WorthIsValue(s: string, from: nat, upto: nat)
    requires from <= upto <= |s|
    ensures Figures(s, from, upto) <==> AllDigits(s[from..upto], DECIMAL)
    ensures Figures(s, from, upto) ==> Worth(s, from, upto) == Value(s[from..upto], DECIMAL)
    decreases upto
  {
    if from == upto {
      assert s[from..upto] == "";
    } else {
      WorthIsValue(s, from, upto - 1);
      assert s[from..upto] == s[from..upto - 1] + [s[upto - 1]];
      AppendDigit(s[from..upto - 1], s[upto - 1], DECIMAL);
    }
  }

  lemma FigureIsDigit(s: string, k: nat)
    ensures DigitAt(s, k) <==> k < |s| && '0' <= s[k] <= '9'
  {
  }

  // ----------------------------------------------------------------------- fields

  lemma TwoFigures(s: string, fixed: bool)
    requires Figures(s, 0, 2)
    ensures GetNum(s, fixed) == Some((Worth(s, 0, 2), s[2..])) && 0 <= Worth(s, 0, 2) <= 99
  {
    FigureIsDigit(s, 0);
    FigureIsDigit(s, 1);
    assert Worth(s, 0, 2) == 10 * Worth(s, 0, 1) + (s[1] as int - '0' as int);
    assert Worth(s, 0, 1) == 10 * Worth(s, 0, 0) + (s[0] as int - '0' as int);
  }

  lemma NumberRead(s: string)
    ensures GetNum(s, true).Some? <==> Figures(s, 0, 2)
    ensures GetNum(s, false).Some? <==> Figures(s, 0, 1)
    ensures Figures(s, 0, 1) && !Figures(s, 0, 2) ==> GetNum(s, false) == Some((Worth(s, 0, 1), s[1..]))
  {
    FigureIsDigit(s, 0);
    FigureIsDigit(s, 1);
    if Figures(s, 0, 1) {
      assert Worth(s, 0, 1) == 10 * Worth(s, 0, 0) + (s[0] as int - '0' as int);
    }
  }

  lemma ShiftedFigures(s: string, n: nat, from: nat, upto: nat)
    requires n <= |s| && from <= upto
    ensures Figures(s[n..], from, upto) <==> Figures(s, n + from, n + upto)
    ensures Figures(s[n..], from, upto) ==> Worth(s[n..], from, upto) == Worth(s, n + from, n + upto)
  {
    if Figures(s, n + from, n + upto) {
      forall k | from <= k < upto ensures '0' <= s[n..][k] <= '9' {
        assert s[n..][k] == s[n + k];
      }
    }
    if Figures(s[n..], from, upto) {
      forall k | n + from <= k < n + upto ensures '0' <= s[k] <= '9' {
        assert s[n..][k - n] == s[k];
      }
      WorthIsValue(s[n..], from, upto);
      WorthIsValue(s, n + from, n + upto);
      assert s[n..][from..upto] == s[n + from..n + upto];
    }
  }

  /** Four figures, a dash, two figures, a dash, two figures. */
  predicate IsDateText(s: string, c: Civil) {
    && |s| >= 10 && Figures(s, 0, 4) && s[4] == '-' && Figures(s, 5, 7) && s[7] == '-' && Figures(s, 8, 10)
    && c == Civil(Worth(s, 0, 4), Worth(s, 5, 7), Worth(s, 8, 10)) && 1 <= c.month <= 12
  }

  lemma YearRead(s: string)
    ensures ParseYear(s) == if Figures(s, 0, 4) then Some((Worth(s, 0, 4), s[4..])) else None
  {
    if |s| >= 4 {
      WorthIsValue(s, 0, 4);
    }
  }

  lemma DashRead(s: string, n: nat, c: char)
    requires n <= |s|
    ensures SkipChar(s[n..], c) == if n < |s| && s[n] == c then Some(s[n + 1..]) else None
  {
    if n < |s| {
      assert s[n..][0] == s[n] && s[n..][1..] == s[n + 1..];
    }
  }

  lemma PairRead(s: string, n: nat)
    requires n <= |s|
    ensures GetNum(s[n..], true)
         == if Figures(s, n, n + 2) then Some((Worth(s, n, n + 2), s[n + 2..])) else None
    ensures Figures(s, n, n + 2) ==> 0 <= Worth(s, n, n + 2) <= 99
  {
    ShiftedFigures(s, n, 0, 2);
    NumberRead(s[n..]);
    if Figures(s, n, n + 2) {
      TwoFigures(s[n..], true);
      assert s[n..][2..] == s[n + 2..];
    }
  }

  /** The date fields are read exactly of such a beginning. */
  lemma FieldsReadIff(s: string, c: Civil)
    ensures ParseDateFields(s).Some? ==> IsDateText(s, ParseDateFields(s).value.0)
    ensures IsDateText(s, c) ==> ParseDateFields(s) == Some((c, s[10..]))
  {
    hide GetNum, SkipChar, ParseYear, Figures, Worth;
    YearRead(s);
    if |s| >= 4 {
      DashRead(s, 4, '-');
    }
    if |s| >= 5 {
      PairRead(s, 5);
    }
    if |s| >= 7 {
      DashRead(s, 7, '-');
    }
    if |s| >= 8 {
      PairRead(s, 8);
    }
    FiguresEnd(s);
  }

  lemma FiguresEnd(s: string)
    ensures forall from: nat, upto: nat :: Figures(s, from, upto) ==> upto <= |s|
  {
  }

  /** A date is read of ten such runes, and of nothing else. */
  lemma DateReadIff(s: string, t: Instant)
    ensures ParseDate(s) == Some(t) <==>
              |s| == 10 && exists c :: IsDateText(s, c) && ValidCivil(c) && t == MidnightOf(c)
  {
    hide ParseDateFields, IsDateText, MonthLength, DayNumber;
    if ParseDateFields(s).Some? {
      FieldsReadIff(s, ParseDateFields(s).value.0);
      TenRunes(s, ParseDateFields(s).value.0);
    }
    forall c | IsDateText(s, c) ensures |s| >= 10 && ParseDateFields(s) == Some((c, s[10..])) {
      FieldsReadIff(s, c);
      TenRunes(s, c);
    }
  }

  lemma TenRunes(s: string, c: Civil)
    requires IsDateText(s, c)
    ensures |s| >= 10
  {
  }

  // ------------------------------------------------------------------------ clocks

  /** One or two figures, a colon, two figures, a colon, two figures, and perhaps a point or a comma and more figures. */
  predicate IsClockText(s: string, hours: nat) {
    && 1 <= hours <= 2 && |s| >= hours + 6
    && Figures(s, 0, hours) && s[hours] == ':' && Figures(s, hours + 1, hours + 3) && s[hours + 3] == ':'
    && Figures(s, hours + 4, hours + 6)
    && Worth(s, 0, hours) < 24 && Worth(s, hours + 1, hours + 3) < 60 && Worth(s, hours + 4, hours + 6) < 60
    && (|s| == hours + 6
        || ((s[hours + 6] == '.' || s[hours + 6] == ',') && |s| > hours + 7 && Figures(s, hours + 7, |s|)))
  }

  /** Nanoseconds: nine figures after the point, as if there were zeros behind them. */
  function FractionOf(s: string, from: nat): int {
    if from >= |s| || !Figures(s, from + 1, |s|) then 0
    else
      var nine := (s[from + 1..] + "000000000")[..9];
      if Figures(nine, 0, 9) then Worth(nine, 0, 9) else 0
  }

  function ClockOf(s: string, hours: nat): int
    requires IsClockText(s, hours)
  {
    1_000_000_000 * (3600 * Worth(s, 0, hours) + 60 * Worth(s, hours + 1, hours + 3) + Worth(s, hours + 4, hours + 6))
    + FractionOf(s, hours + 6)
  }

  lemma {:induction false} ZerosBehind(digits: string, n: nat)
    requires AllDigits(digits, DECIMAL)
    ensures AllDigits(digits + Zeros(n), DECIMAL)
    ensures Value(digits + Zeros(n), DECIMAL) == Value(digits, DECIMAL) * Pow10(n)
  {
    hide Value, AllDigits;
    if n == 0 {
      assert digits + Zeros(0) == digits && Pow10(0) == 1;
    } else {
      ZerosBehind(digits, n - 1);
      assert digits + Zeros(n) == digits + Zeros(n - 1) + ['0'];
      AppendZero(digits + Zeros(n - 1));
      assert Pow10(n) == 10 * Pow10(n - 1);
      hide Pow10;
    }
  }

  lemma AppendZero(s: string)
    requires AllDigits(s, DECIMAL)
    ensures AllDigits(s + ['0'], DECIMAL) && Value(s + ['0'], DECIMAL) == 10 * Value(s, DECIMAL)
  {
    AppendDigit(s, '0', DECIMAL);
  }

  function Zeros(n: nat): string {
    seq(n, _ => '0')
  }

  /** Missing figures are zeros, and those past the ninth are dropped. */
  lemma FractionInNanos(digits: string)
    requires AllDigits(digits, DECIMAL)
    ensures var nine := (digits + "000000000")[..9];
            Figures(nine, 0, 9) && FractionNanos(digits) == Worth(nine, 0, 9)
  {
    var nine := (digits + "000000000")[..9];
    var read := if |digits| > 9 then digits[..9] else digits;
    ZerosBehind(read, 9 - |read|);
    assert nine == read + Zeros(9 - |read|);
    assert nine[0..9] == nine;
    WorthIsValue(nine, 0, 9);
  }

  lemma {:induction false} RunIsAll(s: string)
    ensures DigitRun(s) == |s| <==> AllDigits(s, DECIMAL)
  {
    if s == "" {
    } else {
      RunIsAll(s[1..]);
      assert s == [s[0]] + s[1..];
    }
  }

  /** What is left after the seconds is read to its end exactly if it is nothing, or a mark and figures. */
  lemma FractionReadIff(s: string, from: nat)
    requires from <= |s|
    ensures ParseFraction(s[from..]).1 == "" <==>
              |s| == from || ((s[from] == '.' || s[from] == ',') && |s| > from + 1 && Figures(s, from + 1, |s|))
    ensures ParseFraction(s[from..]).1 == "" ==> ParseFraction(s[from..]).0 == FractionOf(s, from)
  {
    var rest := s[from..];
    if rest != "" && (rest[0] == '.' || rest[0] == ',') {
      var digits := s[from + 1..];
      assert rest[1..] == digits;
      RunIsAll(digits);
      WorthIsValue(s, from + 1, |s|);
      assert s[from + 1..|s|] == digits;
      if AllDigits(digits, DECIMAL) && digits != "" {
        assert DigitAt(rest, 1) by {
          assert rest[1] == digits[0];
        }
        assert digits[..|digits|] == digits;
        FractionInNanos(digits);
      }
      hide Figures, FractionNanos, Worth, AllDigits;
    }
  }

  lemma HoursRead(s: string)
    ensures Figures(s, 0, 2) ==> GetNum(s, false) == Some((Worth(s, 0, 2), s[2..])) && 0 <= Worth(s, 0, 2)
    ensures Figures(s, 0, 1) && !Figures(s, 0, 2) ==>
              GetNum(s, false) == Some((Worth(s, 0, 1), s[1..])) && 0 <= Worth(s, 0, 1)
    ensures !Figures(s, 0, 1) ==> GetNum(s, false).None?
    ensures Figures(s, 0, 2) ==> Figures(s, 0, 1)
  {
    NumberRead(s);
    if Figures(s, 0, 2) {
      TwoFigures(s, false);
    } else if Figures(s, 0, 1) {
      assert Worth(s, 0, 1) == 10 * Worth(s, 0, 0) + (s[0] as int - '0' as int);
    }
  }

  /** How many runes the hours take. */
  function HourRunes(s: string): nat {
    if Figures(s, 0, 2) then 2 else 1
  }

  /** What a clock's minutes, seconds and fraction are read from, past its hours. */
  predicate IsAfterHours(s: string, h: nat) {
    && |s| >= h + 6 && s[h] == ':' && Figures(s, h + 1, h + 3) && s[h + 3] == ':' && Figures(s, h + 4, h + 6)
    && Worth(s, h + 1, h + 3) < 60 && Worth(s, h + 4, h + 6) < 60
  }

  lemma StepsRead(s: string, h: nat)
    requires h <= |s|
    ensures SkipChar(s[h..], ':') == if h < |s| && s[h] == ':' then Some(s[h + 1..]) else None
    ensures h + 1 <= |s| ==>
              GetNum(s[h + 1..], true)
              == if Figures(s, h + 1, h + 3) then Some((Worth(s, h + 1, h + 3), s[h + 3..])) else None
    ensures Figures(s, h + 1, h + 3) ==> h + 3 <= |s|
  {
    DashRead(s, h, ':');
    if h + 1 <= |s| {
      PairRead(s, h + 1);
    }
  }

  lemma AfterHoursRead(s: string, h: nat, hour: int)
    requires h <= |s| && GetNum(s, false) == Some((hour, s[h..])) && 0 <= hour < 24
    ensures ParseClock(s).Some? <==> IsAfterHours(s, h)
    ensures IsAfterHours(s, h) ==>
              var (nanos, rest) := ParseFraction(s[h + 6..]);
              ParseClock(s) == Some((ClockAt(hour, Worth(s, h + 1, h + 3), Worth(s, h + 4, h + 6)) + nanos, rest))
  {
    hide GetNum, SkipChar, ParseFraction, Figures, Worth, ClockAt;
    StepsRead(s, h);
    if h + 3 <= |s| {
      StepsRead(s, h + 3);
    }
  }

  lemma ClockTextParts(s: string, h: nat)
    requires 1 <= h <= 2
    ensures IsClockText(s, h) <==>
              && Figures(s, 0, h) && Worth(s, 0, h) < 24 && IsAfterHours(s, h)
              && (|s| == h + 6 || ((s[h + 6] == '.' || s[h + 6] == ',') && |s| > h + 7 && Figures(s, h + 7, |s|)))
    ensures IsClockText(s, h) ==>
              ClockOf(s, h)
              == ClockAt(Worth(s, 0, h), Worth(s, h + 1, h + 3), Worth(s, h + 4, h + 6)) + FractionOf(s, h + 6)
  {
    hide Figures, Worth, FractionOf;
  }

  /** A clock is read, to the end of the text, exactly of such a text. */
  lemma ClockReadIff(s: string)
    ensures (ParseClock(s).Some? && ParseClock(s).value.1 == "") <==> IsClockText(s, HourRunes(s))
    ensures IsClockText(s, HourRunes(s)) ==> ParseClock(s).value.0 == ClockOf(s, HourRunes(s))
  {
    var h := HourRunes(s);
    HoursRead(s);
    FiguresEnd(s);
    ClockTextParts(s, h);
    assert Figures(s, 0, 1) ==> Figures(s, 0, h) && h <= |s| && GetNum(s, false) == Some((Worth(s, 0, h), s[h..]));
    hide GetNum, HourRunes, Figures, Worth, FractionOf, IsAfterHours, IsClockText, ClockOf, ClockAt, ParseFraction;
    if Figures(s, 0, 1) && Worth(s, 0, h) < 24 {
      hide ParseClock;
      AfterHoursRead(s, h, Worth(s, 0, h));
      if IsAfterHours(s, h) {
        AfterHoursLong(s, h);
        FractionReadIff(s, h + 6);
      }
    } else {
      NoHours(s, h);
    }
  }

  lemma AfterHoursLong(s: string, h: nat)
    requires IsAfterHours(s, h)
    ensures |s| >= h + 6
  {
  }

  lemma NoHours(s: string, h: nat)
    requires h == HourRunes(s) && !(Figures(s, 0, 1) && Worth(s, 0, h) < 24)
    ensures ParseClock(s).None? && !IsClockText(s, h)
  {
    HoursRead(s);
    hide SkipChar, ParseFraction, GetNum;
  }

  // --------------------------------------------------------------------- datetimes

  lemma {:induction false} SpacesCut(s: string)
    ensures exists n: nat :: n <= |s| && CutSpace(s) == s[n..] && (forall k :: 0 <= k < n ==> s[k] == ' ')
                             && (n < |s| ==> s[n] != ' ')
  {
    if s == "" || s[0] != ' ' {
      assert CutSpace(s) == s[0..];
    } else {
      SpacesCut(s[1..]);
      var n: nat :| n <= |s[1..]| && CutSpace(s[1..]) == s[1..][n..] && (forall k :: 0 <= k < n ==> s[1..][k] == ' ')
                    && (n < |s[1..]| ==> s[1..][n] != ' ');
      assert CutSpace(s) == s[n + 1..];
      forall k | 0 <= k < n + 1 ensures s[k] == ' ' {
        assert k > 0 ==> s[1..][k - 1] == s[k];
      }
    }
  }

  /** A date, one or more spaces, and a clock. */
  ghost predicate IsDateTimeText(s: string, c: Civil, n: nat) {
    && 10 < n <= |s| && IsDateText(s, c) && ValidCivil(c) && (forall k :: 10 <= k < n ==> s[k] == ' ')
    && (n < |s| ==> s[n] != ' ') && IsClockText(s[n..], HourRunes(s[n..]))
  }

  /** A datetime is read of such texts, and of nothing else. */
  lemma DateTimeReadIff(s: string, t: Instant)
    ensures ParseDateTime(s) == Some(t) ==>
              exists c, n: nat :: IsDateTimeText(s, c, n) && t == Time(DayNumber(c), ClockOf(s[n..], HourRunes(s[n..])))
    ensures forall c, n: nat :: IsDateTimeText(s, c, n) && t == Time(DayNumber(c), ClockOf(s[n..], HourRunes(s[n..])))
              ==> ParseDateTime(s) == Some(t)
  {
    hide ParseDateFields, IsDateText, MonthLength, DayNumber, ParseClock, IsClockText, ClockOf, HourRunes, CutSpace;
    if ParseDateTime(s) == Some(t) {
      var (c, rest) := ParseDateFields(s).value;
      FieldsReadIff(s, c);
      TenRunes(s, c);
      SpacesCut(s[10..]);
      var m: nat :| m <= |s[10..]| && CutSpace(s[10..]) == s[10..][m..]
                    && (forall k :: 0 <= k < m ==> s[10..][k] == ' ') && (m < |s[10..]| ==> s[10..][m] != ' ');
      assert s[10..][m..] == s[10 + m..];
      ClockReadIff(s[10 + m..]);
      EmptyIsNoClock();
      assert m > 0;
      forall k | 10 <= k < 10 + m ensures s[k] == ' ' {
        assert s[10..][k - 10] == s[k];
      }
      assert IsDateTimeText(s, c, 10 + m);
    }
    forall c, n: nat | IsDateTimeText(s, c, n) && t == Time(DayNumber(c), ClockOf(s[n..], HourRunes(s[n..])))
      ensures ParseDateTime(s) == Some(t)
    {
      FieldsReadIff(s, c);
      SpacesAfter(s, n);
      ClockReadIff(s[n..]);
    }
  }

  lemma {:induction false} CutAt(s: string, m: nat)
    requires m <= |s| && (forall k :: 0 <= k < m ==> s[k] == ' ') && (m < |s| ==> s[m] != ' ')
    ensures CutSpace(s) == s[m..]
  {
    if m == 0 {
      assert s[0..] == s;
    } else {
      CutAt(s[1..], m - 1);
    }
  }

  lemma SpacesAfter(s: string, n: nat)
    requires 10 < n <= |s| && (forall k :: 10 <= k < n ==> s[k] == ' ') && (n < |s| ==> s[n] != ' ')
    ensures SkipSpace(s[10..]) == Some(s[n..])
  {
    CutAt(s[10..], n - 10);
    assert s[10..][n - 10..] == s[n..];
  }

  lemma EmptyIsNoClock()
    ensures !IsClockText("", HourRunes(""))
  {
  }

  // ----------------------------------------------------------------------- written

  /** What is written for a date, or an instant, is one of these texts, with one space and without a fraction. */
  lemma WrittenLayouts(t: Instant)
    requires FourDigitYear(t)
    ensures |FormatDate(t)| == 10 && IsDateText(FormatDate(t), Date(t))
    ensures var s := FormatDateTime(t);
            && |s| == 19 && s[..10] == FormatDate(t) && s[10] == ' ' && s[13] == ':' && s[16] == ':'
            && Figures(s, 11, 13) && Figures(s, 14, 16) && Figures(s, 17, 19)
            && Worth(s, 11, 13) == HourOf(t) && Worth(s, 14, 16) == MinuteOf(t) && Worth(s, 17, 19) == SecondOf(t)
  {
    WrittenDate(t);
    hide CivilOf, IsDateText, FormatDate, HourOf, MinuteOf, SecondOf, Figures, Worth;
    TwoFiguresWritten(HourOf(t));
    TwoFiguresWritten(MinuteOf(t));
    TwoFiguresWritten(SecondOf(t));
    hide Padded;
    ClockInPlace(FormatDate(t), Padded(HourOf(t), 2), Padded(MinuteOf(t), 2), Padded(SecondOf(t), 2));
    assert FormatDateTime(t)
        == FormatDate(t) + (" " + (Padded(HourOf(t), 2) + (":" + Padded(MinuteOf(t), 2) + (":" + Padded(SecondOf(t), 2)))));
  }

  lemma TwoFiguresWritten(n: nat)
    requires n < 100
    ensures |Padded(n, 2)| == 2 && Figures(Padded(n, 2), 0, 2) && Worth(Padded(n, 2), 0, 2) == n
  {
    assert Pow10(2) == 100;
    PaddedReads(n, 2);
    hide Padded, Pow10, Value;
    WorthIsValue(Padded(n, 2), 0, 2);
    assert Padded(n, 2)[0..2] == Padded(n, 2);
  }

  lemma PartAt(s: string, n: nat, part: string)
    requires n + 2 <= |s| && |part| == 2 && Figures(part, 0, 2) && s[n..n + 2] == part
    ensures Figures(s, n, n + 2) && Worth(s, n, n + 2) == Worth(part, 0, 2)
  {
    WorthIsValue(s, n, n + 2);
    WorthIsValue(part, 0, 2);
    assert part[0..2] == part;
  }

  lemma ClockInPlace(d: string, h: string, m: string, x: string)
    requires |d| == 10 && |h| == |m| == |x| == 2 && Figures(h, 0, 2) && Figures(m, 0, 2) && Figures(x, 0, 2)
    ensures var s := d + (" " + (h + (":" + m + (":" + x))));
            && |s| == 19 && s[..10] == d && s[10] == ' ' && s[13] == ':' && s[16] == ':'
            && Figures(s, 11, 13) && Figures(s, 14, 16) && Figures(s, 17, 19)
            && Worth(s, 11, 13) == Worth(h, 0, 2) && Worth(s, 14, 16) == Worth(m, 0, 2)
            && Worth(s, 17, 19) == Worth(x, 0, 2)
  {
    var s := d + (" " + (h + (":" + m + (":" + x))));
    hide Figures, Worth;
    PartAt(s, 11, h);
    PartAt(s, 14, m);
    PartAt(s, 17, x);
  }

  lemma WrittenDate(t: Instant)
    requires FourDigitYear(t)
    ensures |FormatDate(t)| == 10 && IsDateText(FormatDate(t), Date(t))
  {
    hide CivilOf, MonthLength, Figures, Worth;
    FourFiguresWritten(Date(t).year);
    TwoFiguresWritten(Date(t).month);
    TwoFiguresWritten(Date(t).day);
    hide Padded;
    DateInPlace(Padded(Date(t).year, 4), Padded(Date(t).month, 2), Padded(Date(t).day, 2));
  }

  lemma FourFiguresWritten(n: nat)
    requires n <= 9999
    ensures |Padded(n, 4)| == 4 && Figures(Padded(n, 4), 0, 4) && Worth(Padded(n, 4), 0, 4) == n
  {
    assert Pow10(4) == 10000;
    PaddedReads(n, 4);
    hide Padded, Pow10, Value;
    WorthIsValue(Padded(n, 4), 0, 4);
    assert Padded(n, 4)[0..4] == Padded(n, 4);
  }

  lemma DateInPlace(y: string, m: string, d: string)
    requires |y| == 4 && |m| == |d| == 2 && Figures(y, 0, 4) && Figures(m, 0, 2) && Figures(d, 0, 2)
    ensures var s := y + ("-" + m + ("-" + d));
            && |s| == 10 && s[4] == '-' && s[7] == '-' && Figures(s, 0, 4) && Figures(s, 5, 7) && Figures(s, 8, 10)
            && Worth(s, 0, 4) == Worth(y, 0, 4) && Worth(s, 5, 7) == Worth(m, 0, 2) && Worth(s, 8, 10) == Worth(d, 0, 2)
  {
    var s := y + ("-" + m + ("-" + d));
    WorthIsValue(s, 0, 4);
    WorthIsValue(y, 0, 4);
    assert s[0..4] == y[0..4] == y;
    hide Figures, Worth;
    PartAt(s, 5, m);
    PartAt(s, 8, d);
  }
}

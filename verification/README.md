# What this port of sqlglot promises, proved

A model in Dafny of four connected parts of the Go port of sqlglot, and proofs
about them:

- **Date rewrites** (`date_trunc.go`, `date_arith.go`): the proleptic Gregorian
  calendar, truncation of dates, the rewriting of `DATE_TRUNC(unit, l) OP date`
  and `DATE_TRUNC(unit, l) IN (...)` into conditions on `l`, and the folding of
  a date plus or minus an interval into a literal. Expressions have a
  three-valued meaning (`SqlExpr.Eval`), and each rewrite is compared with it.
- **Exact decimals** (`decimal.go`, and the fold of `simplify.go` that uses
  them): unscaled integers and scales, division to 28 digits, text in both
  directions, and the shared table of powers of ten. `Decimals`,
  `DecimalDivision` and `DecimalText` say what the operations are worth as real
  numbers; `BigDecimals` runs them on big integers that are overwritten in place.
- **The anonymizer** (`anonymize.go`) with the comment writer
  (`comment_write.go`): aliases, the comment scanner, and the renderer that fits
  every alias into the span of its token.
- **The memoised annotator** (`annotate.go`): a recursive type of a node, the
  methods that remember one answer per node, the walk that stamps types, and
  what becomes of the memo when trees are built and changed (`expression.go`).

Code that computes a value is a function here. Code that updates state is a
method proved against such a function: the sort and the widening of date ranges,
the loops of the IN fold, the big integers and their table, the scanners and
builders of the anonymizer, the memo and the stamps. The rules and tables those
functions read are in turn held against laws that do not mention them, with
names and figures written out: `UnitLaws`, `WeekNames`, `DateLayouts`,
`TruncLaws`, `LiteralShape`, `Secrecy`, `CommentLaws`, `TypeLaws`, `AnswerLaws`.

## What does not hold

Where the code keeps less than its comments say, the theorem gives the exact
condition and another lemma an input outside it. Bounds of rewritten conditions
past the year 9999 are written with five digits and cannot be read, and the week
of the first days of the year 0 begins in a year written with a sign. The step of
an interval is multiplied in int64 nanoseconds and wraps. Fractions of a second
are read but never written, and a DATE moved by a clock unit loses the clock.
`Div` returns an exact quotient unrounded even past its precision, as 10^28 + 1
over 1. A heredoc would come out longer than it was if a table closed heredocs,
or any other quote of a dialect that has them, with two runes: none of the
generated tables does, and for those the length is kept. Tokens that
share runes (the marker of a Hive statement in Athena, or the three tokens of a
literal such as `1L` where the suffix names a type) are all written, so the
anonymized text is longer than the statement. The comments on `fitAlias` and
`aliasFor` speak of padding on the right; the code pads on the left, and so does
the model. Steps of months put two instants with a clock in the other order where
both are clamped onto one day. Aliases run out: past the room of a shape, texts
whose counters show alike get the same one. The memo of the annotator does not
notice that a node has been given a new parent, nor that an argument below it was
set: it stays right exactly while what that disturbs has the same type as before.

## Model

| member | source | states |
|---|---|---|
| Calendar.DayNumberOfCivilOf | sqlglot/date_trunc.go:85-106 | every day number is the number of the calendar date it stands for, leap years and negative years included (one half of the bijection the truncations rest on) |
| Calendar.CivilOfDayNumber | sqlglot/date_trunc.go:85-106 | every valid calendar date comes back from its day number (the other half) |
| Calendar.DayNumberOrder | sqlglot/date_trunc.go:85-106 | day numbers are ordered as the calendar is, in both directions |
| WeekNames.MonthsOfTheYear | sqlglot/date_arith.go:184-186 | the lengths of the months and the leap years, written out |
| WeekNames.WeekdaysFollow | sqlglot/date_trunc.go:93-100 | the weekdays follow each other from a Monday that is known by its day number |
| DateArith.DaysInMonthIsLength | sqlglot/date_arith.go:184-186 | the day before the first of the next month is the month's length, leap years included |
| DateArith.LandingIsFloor | sqlglot/date_arith.go:166-180 | truncating division plus the repair of a negative remainder is the floor of the month index, for either sign |
| DateArith.MonthIndexMoves | sqlglot/date_arith.go:166-180 | the month index moves by exactly n for every sign of n, the day is the smaller of the old day and the new month's length, the clock is kept to the second |
| DateArith.AddMonthsMonotone | sqlglot/date_arith.go:166-180 | so they keep the order of midnights |
| DateArith.MonthsKeepOrderIff | sqlglot/date_arith.go:166-180 | month steps keep the order of two instants if and only if they are not two days of one month that are both clamped onto the last of the month they land in, the earlier with the later clock |
| DateArith.ClockBreaksMonotone | sqlglot/date_arith.go:166-180 | two that change places: 30 January 23:00 and 31 January 00:00 |
| DateArith.MonthsRoundTrip | sqlglot/date_arith.go:166-180 | n months and then -n months give the instant back if and only if nothing was clamped and it had no fraction of a second |
| DateArith.WrappedStepIsFar | sqlglot/date_arith.go:151-159 | a duration product outside int64 lands on a different day from the exact step |
| DateArith.StepExactIff | sqlglot/date_arith.go:151-159 | the calendar step is the exact one, to the second, if and only if n units fit the int64 product |
| DateArith.AmountMayWrap | sqlglot/date_arith.go:151-159 | an amount that wrapped before the product gives the same step: only the exact product matters |
| DateArith.LongDayStepWraps | sqlglot/date_arith.go:156 | 200000 days is such a product |
| UnitLaws.SecondsAreSeconds | sqlglot/date_arith.go:138-159 | n seconds add n to what calendar and clock face show together, with the carry into the day, and leave the fraction |
| UnitLaws.DurationsAreSeconds | sqlglot/date_arith.go:138-142 | a minute is 60 seconds, an hour 60 minutes, a day 24 hours and the next calendar day, a week 7 days |
| UnitLaws.MachineDurations | sqlglot/date_arith.go:151-159 | the same of the machine step, wrap-around and all |
| UnitLaws.CalendarUnits | sqlglot/date_arith.go:133-159 | a quarter is 3 months and a year 12, and a month is the next one |
| UnitLaws.NamedUnits | sqlglot/date_arith.go:133-142 | the same by the names of the units, in what a fold writes; no other name is a unit |
| UnitLaws.NamedSteps | sqlglot/date_arith.go:334-347 | SECOND moves a folded literal by seconds and MONTH by months, within the years 1 to 9999 |
| UnitLaws.IntegersRead | sqlglot/date_arith.go:189-213 | integers are figures, perhaps after a sign, and nothing else |
| UnitLaws.StepsInRange | sqlglot/date_arith.go:334-347 | a step is folded exactly if it lands in the years 1 to 9999 |
| UnitLaws.IntervalsFold | sqlglot/date_arith.go:274-310 | an interval is folded on either side of a plus and on the right of a minus, and a negative amount or a minus turns the sign |
| UnitLaws.CallsFold | sqlglot/date_arith.go:216-331 | the four calls by name, DATE_ADD alone counting days where it does not say |
| UnitLaws.OnlyStepsFold | sqlglot/date_arith.go:261-331 | nothing else is folded: there is a date that is read, a unit, and an integer that fits the machine, perhaps under one minus sign |
| DateText.DateRoundTrip | sqlglot/date_arith.go:98-129 | a written date reads back as its midnight if and only if its year has four digits, and does not read at all otherwise |
| DateText.DateTimeRoundTrip | sqlglot/date_arith.go:98-129 | a written datetime reads back without its fraction, under the same condition |
| DateText.FractionIsRead | sqlglot/date_arith.go:98-106 | a fraction of a second is read although no layout names one and none is ever written |
| DateLayouts.DateReadIff | sqlglot/date_arith.go:98-106 | a date is read of four figures, two and two with dashes between, and of nothing else |
| DateLayouts.DateTimeReadIff | sqlglot/date_arith.go:98-106 | a datetime is read of that, one or more spaces, and a clock, and of nothing else |
| DateLayouts.ClockReadIff | sqlglot/date_arith.go:98-106 | a clock is one or two figures, and two and two with colons, in range, and perhaps a point or a comma and figures |
| DateLayouts.FractionInNanos | sqlglot/date_arith.go:98-106 | missing figures of a fraction are zeros, and those past the ninth are dropped |
| DateLayouts.WrittenLayouts | sqlglot/date_arith.go:114-129 | what is written is ten runes for a date, and nineteen for an instant, with its figures in their places |
| DateTrunc.FloorIsLastStart | sqlglot/date_trunc.go:85-106 | the floor is the last start of the unit not after the instant, stated without computing it |
| DateTrunc.NextIsFirstStartAfter | sqlglot/date_trunc.go:131-137 | floor plus one unit is the first start after the floor and strictly above the instant |
| DateTrunc.CeilIsFirstStartFrom | sqlglot/date_trunc.go:116-125 | the ceiling is the first start not before the instant |
| DateTrunc.FloorsPartition | sqlglot/date_trunc.go:85-137 | floors are idempotent, monotone and never above, and an instant has a given floor if and only if it lies from it to the next floor |
| DateTrunc.WeekFloorsOnWeekStart | sqlglot/date_trunc.go:73-106 | a week's floor is a Sunday in T-SQL and BigQuery and a Monday elsewhere |
| DateTrunc.FloorComparisons | sqlglot/date_trunc.go:212-236 | comparing a floor with a date is comparing the instant with the date's ceiling (LT, GTE) or next floor (GT, LTE) |
| DateTrunc.RangeIsPreimage | sqlglot/date_trunc.go:148-158 | the range of a floor holds exactly the instants that truncate to it, and is a non-empty span of midnights |
| DateTrunc.NoRangeMeansNoFloor | sqlglot/date_trunc.go:148-158 | a date without a range is the floor of nothing |
| DateRanges.SortByLow | sqlglot/date_trunc.go:353-358 | the in-place sort orders the copy by low bound and keeps its members |
| DateRanges.MergeSorted | sqlglot/date_trunc.go:359-370 | the widening pass over sorted ranges covers the same instants, in order, with a strict gap between neighbours, with bounds taken from the input |
| DateRanges.MergeDateRanges | sqlglot/date_trunc.go:349-371 | the same for ranges in any order |
| DateRanges.MergedIsCanonical | sqlglot/date_trunc.go:349-371 | two gapped lists covering the same instants are the same list: order and overlap of the input cannot show |
| TruncFold.AcceptedUnitTruncates | sqlglot/date_trunc.go:53-68 | a unit truncUnit accepts truncates as written, and an explicit week start it accepts is the weekday the floors land on |
| WeekNames.NamedWeekStarts | sqlglot/date_trunc.go:43-67 | MONDAY is taken exactly where the floors of weeks are Mondays, and so on to SUNDAY; no other word is a week start |
| WeekNames.NamedWeeksGoBack | sqlglot/date_trunc.go:43-67 | a named week start goes back to the last day of that name, and only the seven names are any |
| WeekNames.NamedTruncations | sqlglot/date_trunc.go:12-17 | dates are truncated to YEAR, QUARTER, MONTH, WEEK and DAY, and to nothing else |
| WeekNames.NamesInEitherCase | sqlglot/date_trunc.go:62 | names are read in either case |
| WeekNames.NamedCasts | sqlglot/date_arith.go:29-43 | the five types a date is read through |
| TruncFold.ComparisonFoldExactIff | sqlglot/date_trunc.go:195-254 | the condition built for LT, GT, LTE, GTE, EQ, NEQ has the three-valued truth of the comparison in every row, NULL included, if and only if the date lies before the last unit of the year 9999, or for LT and GTE not after its first day (or the comparison had no meaning) |
| TruncLaws.ComparisonForm | sqlglot/date_trunc.go:195-254 | the condition compares the same expression with dates of the same type, and has the parentheses it needs under its parent |
| TruncFold.ComparisonFoldDeclines | sqlglot/date_trunc.go:195-254 | only EQ and NEQ decline, and exactly when no instant truncates to the date |
| TruncFold.BoundPastYear9999 | sqlglot/date_trunc.go:195-254 | inputs outside it: DATE_TRUNC('YEAR', column) > any DATE of the year 9999 is folded to a comparison without a meaning |
| YearLimits.NextFits | sqlglot/date_trunc.go:131-137 | a date's next floor is still in the year 9999 if and only if the date lies before the last unit to begin in it |
| YearLimits.CeilFits | sqlglot/date_trunc.go:116-125 | a date's ceiling is, if and only if the date is not after that unit's first day |
| YearLimits.FloorFits | sqlglot/date_trunc.go:85-106 | only the floor of a week can lie before the year 0, and exactly for the days before the first week to begin in it |
| TruncFold.LiteralFoldExactIff | sqlglot/date_trunc.go:165-179 | truncating a literal keeps its value if and only if it is not the WEEK of a day before the first week to begin in the year 0, where the result has no meaning |
| TruncLaws.LiteralForm | sqlglot/date_trunc.go:165-179 | the folded literal has the type of its date |
| TruncFold.WeekBeforeYear0 | sqlglot/date_trunc.go:165-179 | inputs outside it: DATE_TRUNC('WEEK', date) for the first days of the year 0, of which 1 January is a Saturday |
| TruncInFold.FoldDateTruncIn | sqlglot/date_trunc.go:283-343 | the loops accept a list if and only if every member is a date literal and some member is a floor, and return the OR of its merged ranges |
| TruncInFold.RangesAreMembership | sqlglot/date_trunc.go:299-322 | an instant lies in a member's range if and only if its floor is a member: dropping the off-floor members loses nothing |
| TruncInFold.InFoldExactIff | sqlglot/date_trunc.go:283-343 | the OR of ranges has the three-valued truth of the IN list in every row, under one type name, if and only if every member that is a floor lies before the last unit of the year 9999 (or the list had no meaning) |
| TruncLaws.InForm | sqlglot/date_trunc.go:283-343 | so does the OR of ranges, of the type of the first member |
| TruncInFold.MergedWritable | sqlglot/date_trunc.go:349-371 | merging neither makes a bound unwritable nor hides one that is |
| TruncInFold.ListInYear9999 | sqlglot/date_trunc.go:283-343 | an input outside it: DATE_TRUNC('YEAR', column) IN (DATE '9999-01-01') is folded, and to something else |
| TruncInFold.InFoldIsCanonical | sqlglot/date_trunc.go:283-371 | two lists of one unit fold to the same ranges if and only if they have the same floors, whatever their order, repeats and dates off the floors |
| DateFold.ExtractedIsValue | sqlglot/date_arith.go:29-93 | what extractDateValue reads is the value of the expression in every row, and a DATE is a midnight |
| DateFold.ExtractReadsCastChains | sqlglot/date_arith.go:29-93 | it reads exactly the cast chains that have a value |
| DateFold.LiteralReadsBack | sqlglot/date_arith.go:29-129 | a written literal reads back to its written part and its own type if and only if its year has four digits |
| DateFold.FoldResultExactIff | sqlglot/date_arith.go:334-347 | the folded literal is the exact step if and only if the step survives int64, the dropped fraction and, for DATE, the dropped clock |
| DateFold.FoldDeclinesOutOfRange | sqlglot/date_arith.go:334-347 | without wrap-around it declines exactly the steps that leave the years 1 to 9999 |
| DateFold.FoldArithmeticExactIff | sqlglot/date_arith.go:261-347 | folding date plus or minus interval, and the DATE_ADD family, keeps the meaning in every row if and only if the step survives |
| DateFold.HoursOnADateAreLost | sqlglot/date_arith.go:114-129 | DATE + INTERVAL '2' HOUR is folded to the DATE itself, whatever the date |
| DateFold.FractionIsLost | sqlglot/date_arith.go:114-129 | a DATETIME with half a second, + INTERVAL '1' YEAR, is folded to one without |
| DateFold.LongStepGoesBack | sqlglot/date_arith.go:151-159 | DATE + INTERVAL '200000' DAY is folded to the DATE 13504 days before it |
| Decimals.RoomShrinks | sqlglot/decimal.go:184-198 | each shift Div goes on by brings the numerator closer to the precision: the loop ends for every non-zero divisor |
| Decimals.SumsAndProductsAreExact | sqlglot/decimal.go:143-158 | Add, Sub and Mul are exact on the real values |
| DecimalDivision.RoundedIsUnique | sqlglot/decimal.go:160-199 | there is one correctly rounded quotient: the reference definition Div is held against |
| DecimalDivision.DivRounds | sqlglot/decimal.go:165-223 | with a remainder left, the result is that quotient: nearest multiple of the last kept power of ten, coefficient from 10^(prec-1) to 10^prec |
| DecimalDivision.DivIsExact | sqlglot/decimal.go:189-191 | with no remainder left, the result times the divisor is the dividend |
| DecimalDivision.FiniteQuotientIsExact | sqlglot/decimal.go:184-198 | a quotient with a finite expansion of at most prec digits is always returned exactly |
| LongQuotients.DivMatchesReferenceIff | sqlglot/decimal.go:160-199 | Div gives the half-even quotient to prec digits if and only if the operands have no long quotient: an integer of more than prec digits that is no multiple of the power of ten to round it to, or a fraction that ends after exactly prec + 1 digits |
| LongQuotients.KeepsLongQuotients | sqlglot/decimal.go:184-198 | the loop stops on an exact quotient with digits past prec exactly for those operands |
| LongQuotients.IntegersKeepTheirDigits | sqlglot/decimal.go:189-191 | an integer over 1 is a long quotient if and only if it has more than prec digits and rounding would change it |
| LongQuotients.TwentyNineDigits | sqlglot/simplify.go:414 | an input at the precision of the one call: 10^28 + 1 over 1 keeps its 29 digits |
| DecimalDivision.DivIsSignSymmetric | sqlglot/decimal.go:165-199 | negating either operand negates the result and changes nothing else |
| DecimalDivision.RoundHalfEvenTie | sqlglot/decimal.go:205-223 | a tie goes to the even neighbour, and upward when something was left below it |
| DecimalText.NumeralsAreRead | sqlglot/decimal.go:62-113 | every well-formed numeral with an exponent in range is read, as the number it spells |
| DecimalText.StringRoundTrip | sqlglot/decimal.go:255-272 | reading what String writes gives the same unscaled integer and scale |
| DecimalText.ParsePrintParse | sqlglot/decimal.go:62-113 | read, print, read is read, for any text that reads |
| DecimalText.StringIsInjective | sqlglot/decimal.go:255-272 | two decimals print alike only when they are the same |
| BigDecimals.Pow10Cache.Power | sqlglot/decimal.go:41-55 | every entry of the shared table holds its power of ten before and after, old entries keep their pointers, and only non-negative exponents are asked for |
| BigDecimals.ParseDecimal | sqlglot/decimal.go:62-113 | with big integers overwritten in place and any valid table, parsing gives what the value function gives and touches no older integer |
| BigDecimals.AlignedWith | sqlglot/decimal.go:131-139 | both operands at the larger scale, in new integers |
| BigDecimals.Add | sqlglot/decimal.go:143-146 | the sum, in a new integer, whatever the table held |
| BigDecimals.Sub | sqlglot/decimal.go:149-152 | the difference, likewise |
| BigDecimals.Mul | sqlglot/decimal.go:156-158 | the product, likewise |
| BigDecimals.RoundHalfEven | sqlglot/decimal.go:205-223 | the rounding adds to its own quotient and never to the divisor lent by the table |
| BigDecimals.NormalizeDecimal | sqlglot/decimal.go:228-239 | digits and exponent under a sign, with no negative scale, in a new integer |
| BigDecimals.Div | sqlglot/decimal.go:165-199 | the shifting loop stops where the quotient is exact or long enough, and its result is the value Div has |
| BigDecimals.WriteString | sqlglot/decimal.go:255-272 | the padding loop writes what String is |
| DecimalFold.LiteralReadsBack | sqlglot/simplify.go:436-447 | the literal written for a result, sign as a Neg node and ".0" on a whole number, stands for exactly that value |
| DecimalFold.FoldIsRight | sqlglot/simplify.go:399-447 | the fold answers exactly when both operands are numbers and the result has at most 40 digits, and its literal is worth the exact sum, difference or product, or the exact or half-even quotient |
| LiteralShape.FoldWritesDecimals | sqlglot/simplify.go:428-447 | what the fold answers has one point with figures on both sides, never reads as an integer, and stands under a Neg exactly if it is negative |
| LiteralShape.FortyDigits | sqlglot/simplify.go:428-430 | a result is written exactly if it has at most 40 digits |
| LiteralShape.PlacesOfResults | sqlglot/decimal.go:143-158 | sums and differences keep the longer fraction, products the places of both |
| LiteralShape.ExactQuotientPlaces | sqlglot/decimal.go:184-199 | a quotient of at most 28 digits that comes out is written to just the place where it does |
| LiteralShape.InexactQuotientDigits | sqlglot/decimal.go:184-199 | any other has 28 digits, or is the power of ten above them |
| LiteralShape.NoIdleZeros | sqlglot/decimal.go:255-272 | no zero leads a literal but the one before the point |
| LiteralShape.OnlyNumeralsAreRead | sqlglot/decimal.go:62-113 | nothing is read but a sign, figures with perhaps a point among them, and an exponent of at most 400, as the number these spell; the figures may have a sign of their own, which a tokenizer does not give |
| LiteralShape.ExponentsUpTo400 | sqlglot/decimal.go:62-113 | exponents are read up to 400 and no further |
| DecimalFold.FoldDecimalArithmetic | sqlglot/simplify.go:399-447 | one fold over the shared table: for every valid table the answer is the same and the table is valid for the next fold |
| CommentScan.BlankCommentRedacts | sqlglot/anonymize.go:322-350 | a blanked comment is as long as the comment, keeps its spaces, and keeps no other rune outside a marker |
| CommentScan.RedactRedacts | sqlglot/anonymize.go:379-418 | a redacted gap is as long as the gap, keeps its spaces, and keeps no other rune outside a comment marker |
| CommentScan.MarkersStand | sqlglot/anonymize.go:379-418 | where redaction meets a comment, the opening marker stands in place, and the closing one where the comment closes |
| CommentScan.CloseIsFirst | sqlglot/anonymize.go:334-349 | without nesting a comment ends at the first closing marker there is, and is unclosed only when there is none |
| CommentScan.DepthsCompose | sqlglot/anonymize.go:332-349 | closing m + n open comments is closing m and then n |
| CommentScan.InnerCommentIsSkipped | sqlglot/anonymize.go:334-349 | with nesting, a comment inside a comment is skipped as a whole |
| Secrecy.BodyIsBlank | sqlglot/anonymize.go:322-350 | the body of a comment is dots and spaces from its opening marker to its closing one, or to where it stops without |
| Secrecy.LineCommentStaysOnItsLine | sqlglot/anonymize.go:325-331 | a comment that ends with its line holds no line feed, and stops before one or at the end |
| Secrecy.FirstCloserCloses | sqlglot/anonymize.go:334-349 | nested or not, the first closing marker closes if no opening one stands before it |
| Secrecy.GapWithoutComments | sqlglot/anonymize.go:379-418 | a gap in which no comment opens is dots and spaces |
| Secrecy.SpacesOfUnicode | sqlglot/anonymize.go:306-316 | which runes are spaces, written out |
| CommentScan.ScanComment | sqlglot/anonymize.go:322-350 | the scan with its depth counter stops where the recursive definition does, for nested, unclosed and line comments, and ends |
| CommentScan.RedactGap | sqlglot/anonymize.go:379-418 | the loop over a gap writes its redaction |
| CommentWriter.SanitizedIsInert | sqlglot/comment_write.go:88-100 | a sanitized comment starts and ends with a space, holds neither marker, and is the comment with nothing but spaces put in |
| CommentWriter.SanitizeIsIdempotent | sqlglot/comment_write.go:88-100 | sanitizing again changes nothing, and a text is left alone if and only if it is already inert |
| CommentLaws.SanitizedLength | sqlglot/comment_write.go:88-100 | exactly one space is added at an end that has none and in every marker |
| CommentLaws.OneMoreComment | sqlglot/comment_write.go:70-84 | each comment stands between /* and */, a space after the one before it, and empty ones are left out |
| CommentWriter.WrittenCommentCloses | sqlglot/anonymize.go:322-350 | any comment, sanitized and written anywhere in a text, is scanned to exactly its own end with nesting on or off |
| CommentWriter.CommentsReadBack | sqlglot/comment_write.go:70-84 | a list of comments written together is scanned back one by one: every body that was not empty, sanitized, in order |
| CommentWriter.SanitizeComment | sqlglot/comment_write.go:88-100 | the string reassigned step by step is the sanitized comment |
| CommentWriter.WriteComments | sqlglot/comment_write.go:70-84 | the builder loop writes the list |
| LetterAlias.AliasDecodes | sqlglot/anonymize.go:195-227 | an alias keeps its text's spaces, is letters elsewhere, and decodes in base 26 to its counter if and only if the counter is below 26^n |
| LetterAlias.AliasDependsOnSpaces | sqlglot/anonymize.go:195-227 | nothing of the text but its spaces and length reaches the alias |
| LetterAlias.SpellLetters | sqlglot/anonymize.go:196-205 | digits written last first and turned round are the base-26 numeral |
| LetterAlias.SameAliasIff | sqlglot/anonymize.go:195-227 | two counters have one alias for a text if and only if they begin with the same n base-26 digits |
| LetterAlias.TwentySeventh | sqlglot/anonymize.go:195-227 | so the 27th one-letter text is written as the second |
| LetterAlias.WriteAlias | sqlglot/anonymize.go:195-227 | counting, padding and pouring give the alias |
| NumberAlias.NumberAliasDecodes | sqlglot/anonymize.go:237-302 | a number's alias decodes, in mixed radix over mantissa and exponent, to its counter if and only if the counter is below 9*10^(d-1), times 9*10^(e-1) with an exponent |
| NumberAlias.SameAliasIff | sqlglot/anonymize.go:237-302 | two counters have one alias for a literal if and only if they are equal modulo the capacity of its shape |
| NumberAlias.NumberAliasKeepsShape | sqlglot/anonymize.go:237-302 | it has the point, separator, sign and widths of the literal if and only if the literal has a digit before its exponent |
| NumberAlias.NumberAliasDependsOnShape | sqlglot/anonymize.go:237-302 | nothing of the literal but its shape reaches the alias, past 4000 bytes included |
| NumberAlias.PaddedAliasDecodes | sqlglot/anonymize.go:500-509 | zeros put before an alias do not change the counter it spells |
| NumberAlias.WriteNumberAlias | sqlglot/anonymize.go:237-302 | both paths of the code write the alias |
| Anonymizer.RankIsKey | sqlglot/anonymize.go:132-184 | two tokens share a counter if and only if they share a key, and counters stay below the number of keys |
| Anonymizer.AliasesAreConsistent | sqlglot/anonymize.go:120-187 | the same text always gets the same alias; two texts of one shape get the same alias if and only if it shows the same of their counters, so only the same text does while their two counters are within the room of the shape |
| Anonymizer.FewKeysFit | sqlglot/anonymize.go:120-187 | which they are while a statement has no more texts than that |
| Secrecy.NamesBecomeLetters | sqlglot/anonymize.go:15-40 | of a bare or quoted name, or a string of any sort, every rune but a space becomes a letter from a to z, unless the dialect knows the name as a call and a parenthesis follows |
| Secrecy.NumbersBecomeShapes | sqlglot/anonymize.go:168-186 | of a number its shape alone is left |
| Secrecy.NumbersKeepTheirForm | sqlglot/anonymize.go:237-302 | figure for figure it keeps its point, marker, sign and widths |
| Secrecy.BytesOfRunes | sqlglot/anonymize.go:238 | the bytes of a rune in UTF-8, which the length of a number is counted in |
| Secrecy.LongNumbersAreBlurred | sqlglot/anonymize.go:238-253 | past 4000 bytes its figures become a one and zeros |
| Secrecy.SameWordsStayTheSame | sqlglot/anonymize.go:172-186 | the same word is written the same wherever it stands |
| Secrecy.SecretsAreCounted | sqlglot/anonymize.go:132-184 | the counter goes up by one for each secret that has not been seen, and for nothing else |
| Secrecy.AliasesAreCountedUp | sqlglot/anonymize.go:172-183 | a secret is written as the alias of the number of secrets seen before it first was |
| Secrecy.OthersStay | sqlglot/anonymize.go:144-171 | keywords, punctuation and known calls stay as they are |
| Secrecy.CommentsBecomeDots | sqlglot/anonymize.go:136-142 | of comments kept with a token their spaces are left |
| Secrecy.HintsBecomeDots | sqlglot/anonymize.go:144-149 | of a hint its spaces and its markers are left |
| Anonymizer.OutputShowsShapesOnly | sqlglot/anonymize.go:120-187 | two token lists with the same types, fixed words and shapes, whose sensitive texts repeat in the same places, get identical texts and comments |
| Anonymizer.AnonymizeTokens | sqlglot/anonymize.go:120-187 | the loop with its seen map and counter rewrites a fresh copy to exactly that list |
| MarkerOrder.RedactIgnoresOrder | sqlglot/anonymize.go:379-418 | redaction is the same for every order of the comment table that puts longer openers first |
| MarkerOrder.SortedComments | sqlglot/anonymize.go:541-550 | whatever order the map is walked in, the list holds each of the table's entries once, longest opener first |
| MarkerOrder.SortedQuotes | sqlglot/anonymize.go:556-580 | the three tables merged, later ones winning, each entry once, longest opener and then longest closer first |
| AliasFit.FitLength | sqlglot/anonymize.go:473-518 | a fitted alias is longer than its span by exactly the runes the delimiters at its ends share, so as long if and only if they do not overlap |
| AliasFit.ShortClosersKeepLength | sqlglot/anonymize.go:481-512 | they can only overlap in a heredoc whose closing delimiter has two runes or more: with shorter ones, as in every generated table with heredocs, every alias is as long as its span |
| AliasFit.LongDelimitersOverlap | sqlglot/anonymize.go:481-487 | what a table outside the generated ones would do: seven dollar signs between $$ and $$ come out as eight |
| AliasFit.FitKeepsQuotes | sqlglot/anonymize.go:473-518 | the quotes stay and the alias, cut or padded, stands between them |
| Secrecy.MarginsAreQuotes | sqlglot/anonymize.go:473-487 | the delimiters that stay are the longest quotes at both ends of the span |
| Secrecy.HeredocMarginsAreTags | sqlglot/anonymize.go:481-487 | a heredoc keeps its tags as well, up to the first closing delimiter and from the last opening one |
| Secrecy.FittedAtTheEnds | sqlglot/anonymize.go:488-512 | an alias too long loses its last runes, and one too short is moved to the right |
| AliasFit.FittedAliasDecodes | sqlglot/anonymize.go:488-512 | what stands between the quotes still decodes to the counter |
| AliasFit.FitIgnoresOrder | sqlglot/anonymize.go:473-518 | fitting is the same for every order of the quote table that puts longer openers first |
| AliasFit.WriteFitted | sqlglot/anonymize.go:473-518 | the search for delimiters and the padding write the fitted alias |
| Rendering.RenderLength | sqlglot/anonymize.go:426-466 | the output is longer than the input by exactly the runes tokens share with the one before and those that a token's delimiters share, so as long if and only if tokens are disjoint and no delimiters overlap |
| Rendering.LayoutIsKept | sqlglot/anonymize.go:426-466 | for ordered, disjoint, in-bounds tokens every token is written where it stood, moved on by what the delimiters before it shared, and every gap and the end are redacted there |
| Secrecy.PieceShows | sqlglot/anonymize.go:451-462 | a name is written as its delimiters around letters, a number as its alias, a hint and the tail as they were rewritten, and the rest as it stood |
| Secrecy.StatementShowsNoNames | sqlglot/anonymize.go:426-466 | so in the whole text, where a name or a string stood, there are its delimiters around letters |
| Rendering.MarkerRepeatsFirstRune | sqlglot/tokenizer.go:115-158 | the marker token of a Hive statement in Athena lies over the first rune, which is written twice |
| Rendering.TailFits | sqlglot/anonymize.go:83-114 | the token standing for an unread tail starts after the last token, ends with the statement and is as long as what it stands for |
| Secrecy.TailBecomesDots | sqlglot/anonymize.go:83-114 | what could not be read shows its first two runes, from the first that is no space, and dots to the end |
| Rendering.AnonymizeKeepsLength | sqlglot/anonymize.go:66-114 | for any statement, read to the end or not, the anonymized text is longer than it by exactly the runes tokens share and those delimiters share, so as long if and only if tokens are disjoint and no delimiters overlap |
| Rendering.ShortHeredocsKeepLength | sqlglot/anonymize.go:66-114 | where heredocs close with one rune, as in every generated table, the text has the statement's length if and only if the tokens are disjoint |
| Rendering.AnonymizeIgnoresOrder | sqlglot/anonymize.go:66-74 | the anonymized text is the same for every order in which the maps are walked |
| AnonymizeRun.SameShapesSameOutput | sqlglot/anonymize.go:66-74 | two statements that differ only in the texts of names and literals, shape for shape and repeat for repeat, come out as the same text |
| AnonymizeRun.AddTail | sqlglot/anonymize.go:83-114 | the tail the code builds |
| AnonymizeRun.RenderAnonymized | sqlglot/anonymize.go:426-466 | the loop with its clamped positions writes the rendering |
| AnonymizeRun.AnonymizeStatement | sqlglot/anonymize.go:66-74 | end to end, with maps walked in any order, the text is the one every sorted listing of the tables gives |
| TypeRules.BinaryIgnoresSides | sqlglot/annotate.go:302-361 | where one operand is a literal and the other is not, the type does not depend on the side each stands on |
| TypeRules.ArrayAnswers | sqlglot/annotate.go:503-517 | an UNKNOWN element makes an array UNKNOWN, unless an element before it has no type |
| TypeRules.UnknownSpreads | sqlglot/annotate.go:750-833 | one argument of unknown type makes a call's coercion unknown, wherever it stands |
| TypeRules.UnknownOperand | sqlglot/annotate.go:318-361 | x + 1 and 1 + x are both unknown where x is, literal or not |
| TypeLaws.CoercionWidens | sqlglot/annotate.go:694-720 | of two plain types the one that widens to the other gives way, whichever comes first |
| TypeLaws.CoercionOfOthers | sqlglot/annotate.go:694-720 | NULL and a missing type add nothing, UNKNOWN everything, and a type with parameters stays |
| TypeLaws.CoercedIsWidest | sqlglot/annotate.go:755-833 | the coercion of types that form a chain is the widest of them |
| TypeLaws.CoercedInAnyOrder | sqlglot/annotate.go:755-833 | in every order |
| TypeLaws.OperatorsWiden | sqlglot/annotate.go:302-361 | two operands give the wider, and BigQuery keeps a column beside a literal of its own family |
| TypeLaws.Families | sqlglot/annotate.go:1249-1261 | the integer kinds and the real kinds, written out |
| TypeLaws.DivisionIsReal | sqlglot/annotate.go:1293-1305 | a division is never an integer unless it is typed, or an operand has parameters |
| TypeLaws.DivisionKeepsReals | sqlglot/annotate.go:1293-1305 | typed, two integers give BIGINT; otherwise a real coercion stays |
| TypeLaws.FirstNestedWins | sqlglot/annotate.go:924-980 | the first branch with a nested type gives a CASE its type |
| TypeLaws.WithoutNested | sqlglot/annotate.go:924-980 | without one the branches are coerced as particular arguments are |
| TypeLaws.BranchWithoutType | sqlglot/annotate.go:924-980 | a branch without a type leaves the CASE without one, even after a nested one |
| TypeLaws.NoNullIsTold | sqlglot/annotate.go:25-41 | no NULL type is told where the dialect has none |
| TypeLaws.ElementsComeOut | sqlglot/annotate.go:676-690 | what an array holds comes out by a subscript or a function that returns an element |
| TypeLaws.PromotedKinds | sqlglot/annotate.go:790-833 | a promoted integer is BIGINT and a promoted float DOUBLE |
| Nodes.Node.Set | sqlglot/expression.go:151-179 | the argument takes its place under its key or the last one, its nodes take this one for their parent, and this node forgets what it remembered |
| Nodes.Node.constructor | sqlglot/expression.go:94-106 | the arguments are set one by one, and nothing is remembered |
| Nodes.FindAfterSet | sqlglot/expression.go:151-179 | after Set its key finds what was set, and every other key what it found before |
| AnswerLaws.SetKeepsOrder | sqlglot/expression.go:151-179 | an argument takes the place of the one under its key, and comes last under a new key |
| Annotator.RawType | sqlglot/annotate.go:45-55 | the remembered answer equals the type worked out from scratch, in whatever dialect is asked, and every answer remembered in the forest stays right |
| Annotator.AnnotateNode | sqlglot/annotate.go:57-381 | the dispatch over classes gives that type |
| Annotator.AnnotateByTables | sqlglot/annotate.go:234-380 | so do the table-driven rules, in the order they are asked |
| Annotator.AnnotateArray | sqlglot/annotate.go:490-525 | the loop over an array's elements |
| Annotator.AnnotateCase | sqlglot/annotate.go:924-980 | the loop over a CASE's branches, first nested type winning |
| Annotator.AnnotateDiv | sqlglot/annotate.go:1293-1305 | a division |
| Annotator.AnnotateBinary | sqlglot/annotate.go:318-361 | a binary operator, an operand without a type leaving it without one |
| Annotator.AnnotateByArgs | sqlglot/annotate.go:249-291 | a class typed by particular arguments, one without a type adding nothing |
| Annotator.AnnotateFunction | sqlglot/annotate.go:755-833 | a call's arguments coerced and put through its rule |
| Annotator.Annotate | sqlglot/annotate.go:25-41 | the raw type with a NULL converted for the dialect |
| AnswerLaws.TypesOfLeaves | sqlglot/annotate.go:78-98 | literals, truth values, NULL, casts and names |
| AnswerLaws.PredicatesAnswer | sqlglot/annotate.go:231-242 | a predicate or a connector is BOOLEAN, and a unary operator has the type of its operand |
| AnswerLaws.OperatorsAnswer | sqlglot/annotate.go:318-361 | an operator of two operands has the wider of their types |
| AnswerLaws.DivisionsAnswer | sqlglot/annotate.go:1293-1305 | a division of integers is DOUBLE, or BIGINT if it is typed |
| AnswerLaws.ArraysAnswer | sqlglot/annotate.go:490-525 | an array literal is an array of the widest element, and of UNKNOWN if it is empty |
| AnswerLaws.SubscriptsAnswer | sqlglot/annotate.go:1000-1030 | a subscript of an array is its element, and a slice what it was |
| AnswerLaws.CallsAnswer | sqlglot/annotate.go:531-560 | a call that no table knows, and the dot before one, are UNKNOWN |
| AnswerLaws.FunctionsAnswer | sqlglot/annotate.go:755-833 | a function that returns an array or an element looks at its first argument alone, and any other at all of them in their order |
| AnswerLaws.CasesAnswer | sqlglot/annotate.go:924-980 | a CASE asks its branches in order and then its default |
| Adoption.SubtreeDecides | sqlglot/annotate.go:57-381 | a node's type in any dialect is the same before and after a change of the forest unless its subtree has a node with other arguments, or a call that only the name table has a type for there and that became or ceased to be a method call |
| Adoption.StaysRightIff | sqlglot/annotate.go:45-55 | what is remembered is right after a change if and only if the nodes so disturbed have the same type all the same |
| Adoption.CallTypeChangesIff | sqlglot/annotate.go:531-560 | becoming a method call, or ceasing to be one, changes a call's type if and only if the tables are silent about anonymous calls and name this one |
| Adoption.NoisyTurnsWrong | sqlglot/annotate.go:531-560 | one such call that was asked about makes the memo wrong, wherever it stood |
| TreeChanges.Build | sqlglot/expression.go:94-106 | making a node of others, wherever they stood: the forest afterwards, and what is remembered is right if and only if the disturbed nodes have the same type; where the adopted nodes had no parents, if and only if no remembered call is so moved; no other type changes in any dialect |
| TreeChanges.MakingDisturbs | sqlglot/expression.go:94-106 | it disturbs exactly the subtrees with an adopted call that only the name table has a type for and that it puts behind a dot or takes from there |
| TreeChanges.Put | sqlglot/expression.go:151-179 | setting an argument of a node in place: the same two statements, and the changed node alone forgets |
| TreeChanges.PuttingDisturbs | sqlglot/expression.go:151-179 | it disturbs exactly the subtrees that hold the changed node, unless nothing changed, and those with such a call |
| TreeChanges.AdoptionLeavesStaleAnswer | sqlglot/expression.go:94-106 | a making that leaves the memo wrong: a call annotated alone and then put behind a dot |
| TreeChanges.SetLeavesStaleAnswer | sqlglot/expression.go:151-179 | a Set that does: a number between two pairs of parentheses is asked about and replaced by a string, and the outer pair still remembers a number |
| TypeStamps.AnnotateFully | sqlglot/annotate.go:846-908 | no stamp is replaced, every node walked that has an answer ends with it, nothing else changes, and the result is true if and only if every node walked is stamped |
| TypeStamps.AnnotateTwice | sqlglot/annotate.go:846-908 | a second walk changes nothing and says the same |
| AnswerLaws.WalkIsWhole | sqlglot/annotate.go:846-908 | in a tree without type words the walk comes by every node |
| AnnotatorRuns.ServeOne | sqlglot/expression.go:94-179 | one request: a question answered as worked out from scratch, a tree stamped, a node made or an argument set, declined only where it would disturb a node that was asked about, close a cycle, or leave a subscript without an index |
| AnnotatorRuns.Serve | sqlglot/annotate.go:25-55 | over any run of makings, changes, questions and stampings, in any order and under any dialects, the run with the memo is the run without one, forest for forest and answer for answer; it stops short only before a request that ServeOne declines |
| AnnotatorRuns.AnswersStay | sqlglot/annotate.go:25-55 | an answer given in a run stays right for as long as nothing disturbs the subtree it is of |

## Left out

- The tokenizer, the parser, the generator and `Simplify`: tokens and trees are inputs. Token spans are taken as they are; where a theorem needs them ordered, disjoint or in bounds it says so.
- `parenthesizeNestedConnector`: the parentheses it adds are in the model, and mean nothing.
- Shapes the code takes for granted, and would stop on without: a HINT token holds at least its opening marker, and a subscript has an index.
- Generated tables: hint and comment markers, quotes, call names, coercions and return rules are parameters. Opening markers of comments are required not to be empty, as in every generated table.
- Go's `time` package: the calendar is mathematical, so years beyond what a `time.Time` holds are not distinguished, and `int(month) - 1 + months` does not wrap.
- `strings.ToUpper` in the date folds is modelled on ASCII letters only.
- `supplyDefaultDay` sets the unit on the node in place: the model reads the unit it would set and leaves the tree a value.
- Trees shared between a rewritten condition and its original (`copyExpr`): expressions are values in the date folds.
- `math/big`: integers are mathematical inside `BigInt`, which keeps only the overwriting of receivers and the sharing of pointers.
- Invalid UTF-8: strings are runes. The byte lengths `numberAlias` uses are those of the UTF-8 encoding.
- Rendering.TailFits: does not give `Line` and `Col` of the token for an unread tail; nothing reads them.
- MarkerOrder.SortedComments: the sort is one of those `sort.Slice` may amount to; the theorems about order cover every other.
- The rules of `annotateNode` for structs, maps, subqueries, generated series, date functions, ranks, FLOOR and CEIL, and those fixed to one dialect: they would add cases and no new shape. Struct field names, which `AnnotateFully` stamps too, go with them.
- Annotator.RawType: types are values, so two nodes that carry one type node are not told apart from two that carry equal ones, and whether a type records `nested` as false or not at all is not kept.
- Writes to `Args` and `Parent` that do not go through `Set`, which some dialects do after parsing: nothing in the code promises anything of the memo there. `Append` is a `Set` of the longer list.
- TreeChanges.Put: is asked only for arguments that the changed node is not below, and for a subscript only if it keeps an index; the code would not end, or would stop, on others.
- The unit of a DateTrunc, which `New` spells out.
- DateArith.StepExactIff: says nothing of years that do not fit a `time.Time`, where `time.Date` wraps in 64 bits after the product did not.
- DateFold.FoldResultExactIff: the same, for month steps of hundreds of billions of years.
- DateFold.FoldDeclinesOutOfRange: the same; there `time.Date` may wrap to a year that can be written, which the code then folds.
- DateFold.FoldArithmeticExactIff: the same.
- Annotator.AnnotateNode: leaves out the rules listed above.
- Annotator.AnnotateArray: leaves out BigQuery's ARRAY over a subquery.
- TypeStamps.AnnotateFully: leaves out the names of struct fields.
- TypeStamps.AnnotateTwice: leaves out the names of struct fields.
- `withComments`, `commentedOp` and `commentSeparated`: placement of comments by the generator.
- `ApplyIndexOffset`, and the routing of Athena statements.

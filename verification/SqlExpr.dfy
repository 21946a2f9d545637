/**
 The expression nodes the date folds read and build (sqlglot/expression.go),
 and a three-valued meaning for them. `Absent` is the nil child; `Undefined`
 is the value of anything that has no temporal or boolean meaning here.
 */
module SqlExpr {
  import opened Options
  import opened MachineInts
  import opened Calendar
  import opened DateArith
  import opened DateText
  import opened DateTrunc

  datatype TruncClass = DateTrunc | TimestampTrunc
  datatype ArithClass = Add | Sub
  datatype ShiftClass = DateAdd | DateSub | DatetimeAdd | DatetimeSub
  datatype CompareClass = LT | GT | LTE | GTE | EQ | NEQ
  datatype ConnectorClass = And | Or

  datatype Expr =
    | Absent
    | Column(name: string)
    | Literal(text: string, isString: bool)
    | Var(name: string)
    | Neg(operand: Expr)
    | Paren(operand: Expr)
    | Cast(operand: Expr, to: string)
    | TsOrDsToDate(operand: Expr, format: Expr)
    | Interval(operand: Expr, unit: Expr)
    | WeekStart(operand: Expr)
    | Trunc(trunc: TruncClass, operand: Expr, unit: Expr)
    | Arith(op: ArithClass, operand: Expr, right: Expr)
    | DateShift(shift: ShiftClass, operand: Expr, right: Expr, unit: Expr)
    | Compare(cmp: CompareClass, operand: Expr, right: Expr)
    | Connector(connector: ConnectorClass, operand: Expr, right: Expr)
    | In(operand: Expr, members: seq<Expr>)

  /** The conventional primary child. */
  function ThisOf(e: Expr): Expr {
    match e
    case Absent | Column(_) | Literal(_, _) | Var(_) => Absent
    case _ => e.operand
  }

  /** The string stored under "this", when there is one. */
  function TextOf(e: Expr): string {
    match e
    case Literal(text, _) => text
    case Var(name) => name
    case _ => ""
  }

  /** Expression.Name: the text of "this", or of the identifier or literal there. */
  function Name(e: Expr): string {
    match e
    case Literal(text, _) => text
    case Var(name) => name
    case Column(name) => name
    case _ => if ThisOf(e).Literal? then ThisOf(e).text else ""
  }

  function UpperChar(c: char): char {
    if 'a' <= c <= 'z' then (c as int - 'a' as int + 'A' as int) as char else c
  }

  /** strings.ToUpper on ASCII. */
  function Upper(s: string): (r: string)
    ensures |r| == |s|
  {
    seq(|s|, i requires 0 <= i < |s| => UpperChar(s[i]))
  }

  /** monthUnits and durationUnits, by name. */
  function UnitNamed(name: string): Option<Unit> {
    if name == "YEAR" then Some(Year)
    else if name == "QUARTER" then Some(Quarter)
    else if name == "MONTH" then Some(Month)
    else if name == "WEEK" then Some(Week)
    else if name == "DAY" then Some(Day)
    else if name == "HOUR" then Some(Hour)
    else if name == "MINUTE" then Some(Minute)
    else if name == "SECOND" then Some(Second)
    else None
  }

  /** weekStartDays: the ISO day a name stands for, 0 for none. */
  function WeekdayNamed(name: string): int {
    if name == "MONDAY" then 1
    else if name == "TUESDAY" then 2
    else if name == "WEDNESDAY" then 3
    else if name == "THURSDAY" then 4
    else if name == "FRIDAY" then 5
    else if name == "SATURDAY" then 6
    else if name == "SUNDAY" then 7
    else 0
  }

  /** The casts the folds read through. */
  predicate IsTemporal(kind: string) {
    kind == "DATE" || kind == "DATETIME" || kind == "DATETIME2" || kind == "TIMESTAMP" || kind == "TIMESTAMPTZ"
  }

  // ------------------------------------------------------------------ integers

  /** The amount an interval was written with, before any machine integer holds it. */
  function WrittenAmount(e: Expr): Option<int> {
    if e.Neg? then
      var n :- WrittenAmount(e.operand);
      Some(-n)
    else ReadInteger(TextOf(e))
  }

  // ------------------------------------------------------------------- meaning

  datatype SqlValue = Null | TimeValue(time: Instant) | BoolValue(truth: bool) | TextValue(text: string) | Undefined

  type Row = map<string, SqlValue>

  /** A cast to a temporal type; DATE drops the clock. */
  function CastValue(v: SqlValue, kind: string): SqlValue {
    if !IsTemporal(kind) then Undefined
    else match v
      case Null => Null
      case TimeValue(t) => TimeValue(if kind == "DATE" then DayOnly(t) else t)
      case TextValue(s) =>
        (match ParseDateText(s)
         case Some(t) => TimeValue(if kind == "DATE" then DayOnly(t) else t)
         case None => Undefined)
      case _ => Undefined
  }

  predicate WritableYear(t: Instant) {
    1 <= Date(t).year <= 9999
  }

  /** A calendar step in exact arithmetic; there is no date outside the years 1 to 9999. */
  function ShiftValue(v: SqlValue, unit: Option<Unit>, amount: Option<int>): SqlValue {
    if v.Null? then Null
    else if v.TimeValue? && unit.Some? && amount.Some? && WritableYear(Step(v.time, unit.value, amount.value)) then
      TimeValue(Step(v.time, unit.value, amount.value))
    else Undefined
  }

  function Negated(amount: Option<int>): Option<int> {
    match amount
    case Some(n) => Some(-n)
    case None => None
  }

  /** The last midnight not after t that falls on the given ISO weekday. */
  function WeekdayFloor(t: Instant, weekday: int): Instant {
    Time(t.day - (IsoWeekday(t.day) - weekday) % 7, 0)
  }

  /** A truncation: a named week start is honoured, a plain WEEK starts where the dialect's does. */
  function TruncValue(v: SqlValue, unit: Expr, dialect: string): SqlValue {
    if v.Null? then Null
    else if !v.TimeValue? then Undefined
    else if unit.WeekStart? then
      var weekday := WeekdayNamed(Upper(Name(unit.operand)));
      if weekday == 0 then Undefined else TimeValue(WeekdayFloor(v.time, weekday))
    else
      match UnitNamed(Upper(Name(unit)))
      case Some(u) => if Truncates(u) then TimeValue(FloorOf(v.time, u, dialect)) else Undefined
      case None => Undefined
  }

  function CompareTimes(op: CompareClass, a: Instant, b: Instant): bool {
    match op
    case LT => Before(a, b)
    case GT => Before(b, a)
    case LTE => !Before(b, a)
    case GTE => !Before(a, b)
    case EQ => a == b
    case NEQ => a != b
  }

  predicate Comparable(v: SqlValue) {
    v.Null? || v.TimeValue?
  }

  function CompareValues(op: CompareClass, a: SqlValue, b: SqlValue): SqlValue {
    if !Comparable(a) || !Comparable(b) then Undefined
    else if a.Null? || b.Null? then Null
    else BoolValue(CompareTimes(op, a.time, b.time))
  }

  predicate Logical(v: SqlValue) {
    v.Null? || v.BoolValue?
  }

  /** Kleene's AND and OR. */
  function Connect(op: ConnectorClass, a: SqlValue, b: SqlValue): SqlValue {
    if !Logical(a) || !Logical(b) then Undefined
    else match op
      case And =>
        if a == BoolValue(false) || b == BoolValue(false) then BoolValue(false)
        else if a.Null? || b.Null? then Null
        else BoolValue(true)
      case Or =>
        if a == BoolValue(true) || b == BoolValue(true) then BoolValue(true)
        else if a.Null? || b.Null? then Null
        else BoolValue(false)
  }

  /** x IN (m1, m2, ...): the OR of the equalities. */
  function InValue(v: SqlValue, members: seq<SqlValue>): SqlValue {
    if members == [] then (if Comparable(v) then BoolValue(false) else Undefined)
    else Connect(Or, CompareValues(EQ, v, members[0]), InValue(v, members[1..]))
  }

  function Eval(e: Expr, row: Row, dialect: string): SqlValue
    decreases e
  {
    match e
    case Column(name) => if name in row then row[name] else Null
    case Literal(text, isString) => if isString then TextValue(text) else Undefined
    case Paren(operand) => Eval(operand, row, dialect)
    case Cast(operand, to) => CastValue(Eval(operand, row, dialect), to)
    case TsOrDsToDate(operand, format) =>
      if format.Absent? then CastValue(Eval(operand, row, dialect), "DATE") else Undefined
    case Trunc(_, operand, unit) => TruncValue(Eval(operand, row, dialect), unit, dialect)
    case Arith(op, left, right) =>
      if right.Interval? then
        var amount := WrittenAmount(right.operand);
        ShiftValue(Eval(left, row, dialect), UnitNamed(Upper(Name(right.unit))),
                   if op == Sub then Negated(amount) else amount)
      else if left.Interval? && op == Add then
        ShiftValue(Eval(right, row, dialect), UnitNamed(Upper(Name(left.unit))), WrittenAmount(left.operand))
      else Undefined
    case DateShift(shift, date, expression, unit) =>
      var amount := WrittenAmount(expression);
      ShiftValue(Eval(date, row, dialect),
                 if unit.Absent? then (if shift == DateAdd then Some(Day) else None) else UnitNamed(Upper(Name(unit))),
                 if shift == DateSub || shift == DatetimeSub then Negated(amount) else amount)
    case Compare(cmp, left, right) =>
      CompareValues(cmp, Eval(left, row, dialect), Eval(right, row, dialect))
    case Connector(op, left, right) =>
      Connect(op, Eval(left, row, dialect), Eval(right, row, dialect))
    case In(operand, members) =>
      InValue(Eval(operand, row, dialect),
              seq(|members|, i requires 0 <= i < |members| => Eval(members[i], row, dialect)))
    case _ => Undefined
  }

  lemma ConnectorEvaluates(op: ConnectorClass, a: Expr, b: Expr, row: Row, dialect: string)
    ensures Eval(Connector(op, a, b), row, dialect) == Connect(op, Eval(a, row, dialect), Eval(b, row, dialect))
  {
    hide Connect, CompareValues, TruncValue, CastValue, ShiftValue, InValue, Negated, UnitNamed, Upper, Name;
    hide WrittenAmount;
  }

  lemma ParenEvaluates(e: Expr, row: Row, dialect: string)
    ensures Eval(Paren(e), row, dialect) == Eval(e, row, dialect)
  {
    hide Connect, CompareValues, TruncValue, CastValue, ShiftValue, InValue, Negated, UnitNamed, Upper, Name;
    hide WrittenAmount;
  }

  lemma CompareEvaluates(op: CompareClass, a: Expr, b: Expr, row: Row, dialect: string)
    ensures Eval(Compare(op, a, b), row, dialect) == CompareValues(op, Eval(a, row, dialect), Eval(b, row, dialect))
  {
    hide Connect, CompareValues, TruncValue, CastValue, ShiftValue, InValue, Negated, UnitNamed, Upper, Name;
    hide WrittenAmount;
  }
}

/** Types and the rules that combine them (coerceTypes and the per-class rules in sqlglot/annotate.go). */
module TypeRules {
  import opened Options

  /** A DataType: its kind, its parameters, and whether it is recorded as nested. */
  datatype Ty = Ty(kind: string, params: seq<Ty>, nested: bool)

  /** How a function's return type follows from its arguments (funcReturn). */
  datatype FuncReturn = Fixed(kind: string) | Args | Promote | ArrayOf | Element

  /** dataType: the type of a bare kind. */
  function Bare(kind: string): Ty {
    Ty(kind, [], false)
  }

  const UNKNOWN := Bare("UNKNOWN")

  /** typeKind, of an answer that may be missing. */
  function KindOf(t: Option<Ty>): string {
    if t.None? then "" else t.value.kind
  }

  /** bareType. */
  function Unwrapped(t: Ty): Ty {
    if t.params != [] then t else Bare(t.kind)
  }

  function ArrayOfType(t: Ty): Ty {
    Ty("ARRAY", [t], true)
  }

  /** integerTypeKinds. */
  predicate IsIntegerKind(kind: string) {
    kind in {"BIGINT", "INT", "INT128", "INT256", "MEDIUMINT", "SMALLINT", "TINYINT", "UBIGINT", "UINT", "UINT128",
             "UINT256", "UMEDIUMINT", "USMALLINT", "UTINYINT", "BIT"}
  }

  /** realTypeKinds. */
  predicate IsRealKind(kind: string) {
    kind in {"DOUBLE", "FLOAT", "BIGDECIMAL", "DECIMAL", "DECIMAL32", "DECIMAL64", "DECIMAL128", "DECIMAL256", "DECFLOAT",
             "MONEY", "SMALLMONEY", "UDECIMAL", "UDOUBLE"}
  }

  /** coerceTypes, over a table of widenings. */
  function Coerce(widens: (string, string) -> bool, a: Option<Ty>, b: Option<Ty>): (r: Option<Ty>)
    ensures b.Some? ==> r.Some?
  {
    if a.None? || a.value.kind == "NULL" then b
    else if b.None? || b.value.kind == "NULL" then a
    else if a.value.kind == "UNKNOWN" || b.value.kind == "UNKNOWN" then Some(UNKNOWN)
    else if a.value.params != [] then a
    else if b.value.params != [] then b
    else if widens(a.value.kind, b.value.kind) then b
    else a
  }

  /** What an operand contributes: its type, if it has one, and whether it is a literal. */
  datatype Answer = Answer(literal: bool, typ: Option<Ty>)

  predicate SameFamily(a: Ty, b: Ty) {
    (IsIntegerKind(a.kind) && IsIntegerKind(b.kind)) || (IsRealKind(a.kind) && IsRealKind(b.kind))
  }

  /** The type of the literal operands against that of the others: the others are asked whether they widen, and BigQuery
      keeps them within one family. */
  function Pick(widens: (string, string) -> bool, dialect: string, literal: Option<Ty>, other: Option<Ty>): Option<Ty> {
    if literal.Some? && other.Some? then
      if dialect == "bigquery" && SameFamily(literal.value, other.value) then other
      else Coerce(widens, other, literal)
    else if other.Some? then other
    else literal
  }

  /** The types of the literal operands and of the others, each coerced in turn; an operand without a type adds
      nothing. */
  function Collect(widens: (string, string) -> bool, answers: seq<Answer>, literal: Option<Ty>, other: Option<Ty>):
    (Option<Ty>, Option<Ty>)
  {
    if answers == [] then (literal, other)
    else
      var a := answers[0];
      if a.typ.None? then Collect(widens, answers[1..], literal, other)
      else if a.literal then Collect(widens, answers[1..], Coerce(widens, literal, a.typ), other)
      else Collect(widens, answers[1..], literal, Coerce(widens, other, a.typ))
  }

  /** A class typed by particular arguments (annotateByArgs). */
  function ByArgs(widens: (string, string) -> bool, dialect: string, answers: seq<Answer>): Option<Ty> {
    var (literal, other) := Collect(widens, answers, None, None);
    Pick(widens, dialect, literal, other)
  }

  /** A binary operator: an operand without a type leaves it without one. */
  function BinaryType(widens: (string, string) -> bool, dialect: string, left: Answer, right: Answer): Option<Ty> {
    if left.typ.None? || right.typ.None? then None else ByArgs(widens, dialect, [left, right])
  }

  /** annotateDiv. */
  function DivType(widens: (string, string) -> bool, typed: bool, left: Option<Ty>, right: Option<Ty>): Option<Ty> {
    if typed && IsIntegerKind(KindOf(left)) && IsIntegerKind(KindOf(right)) then Some(Bare("BIGINT"))
    else
      var result := Coerce(widens, left, right);
      if result.None? || !IsRealKind(KindOf(result)) then Coerce(widens, result, Some(Bare("DOUBLE"))) else result
  }

  /** annotateArray, from the elements left and the type so far. */
  function ArrayType(widens: (string, string) -> bool, answers: seq<Answer>, element: Option<Ty>): Option<Ty> {
    if answers == [] then Some(ArrayOfType(if element.Some? then Unwrapped(element.value) else UNKNOWN))
    else if answers[0].typ.None? then None
    else if KindOf(answers[0].typ) == "UNKNOWN" then Some(UNKNOWN)
    else ArrayType(widens, answers[1..], Coerce(widens, element, answers[0].typ))
  }

  /** nestedType. */
  predicate IsNested(t: Ty) {
    t.nested || t.kind == "ARRAY" || t.kind == "MAP"
  }

  /** annotateCase, from the branch values left: the first nested type wins, and else literals against the others. */
  function CaseType(widens: (string, string) -> bool, dialect: string, answers: seq<Answer>,
                    nested: Option<Ty>, literal: Option<Ty>, other: Option<Ty>): Option<Ty>
  {
    if answers == [] then if nested.Some? then nested else Pick(widens, dialect, literal, other)
    else
      var a := answers[0];
      if a.typ.None? then None
      else if nested.Some? then CaseType(widens, dialect, answers[1..], nested, literal, other)
      else if IsNested(a.typ.value) then CaseType(widens, dialect, answers[1..], a.typ, literal, other)
      else if a.literal then CaseType(widens, dialect, answers[1..], nested, Coerce(widens, literal, a.typ), other)
      else CaseType(widens, dialect, answers[1..], nested, literal, Coerce(widens, other, a.typ))
  }

  /** The coercion of a call's arguments; one without a type leaves the call without one. */
  function Coerced(widens: (string, string) -> bool, answers: seq<Answer>, soFar: Option<Ty>): Option<Ty> {
    if answers == [] then soFar
    else if answers[0].typ.None? then None
    else Coerced(widens, answers[1..], Coerce(widens, soFar, answers[0].typ))
  }

  /** What a function's rule makes of the coercion. */
  function ReturnType(rule: FuncReturn, coerced: Option<Ty>): Option<Ty> {
    match rule
    case Fixed(kind) => Some(Bare(kind))
    case Args => coerced
    case Promote =>
      if KindOf(coerced) in {"INT", "SMALLINT", "TINYINT", "BIGINT"} then Some(Bare("BIGINT"))
      else if KindOf(coerced) in {"FLOAT", "DOUBLE"} then Some(Bare("DOUBLE"))
      else coerced
    case ArrayOf => if coerced.None? then None else Some(ArrayOfType(coerced.value))
    case Element =>
      if coerced.None? then None
      else if coerced.value.kind == "ARRAY" && |coerced.value.params| == 1 then Some(coerced.value.params[0])
      else Some(UNKNOWN)
  }

  /** annotateBracket, past the base's type. */
  function SubscriptType(base: Ty, slice: bool): Ty {
    if slice then base
    else if base.kind == "ARRAY" && base.params != [] then base.params[0]
    else UNKNOWN
  }

  /** What Annotate makes of a raw answer: a NULL tells a caller nothing where the dialect has no NULL type. */
  function Final(supportsNull: string -> bool, dialect: string, t: Option<Ty>): Option<Ty> {
    if KindOf(t) == "NULL" && !supportsNull(dialect) then
      if dialect == "bigquery" then Some(Bare("BIGINT")) else Some(UNKNOWN)
    else t
  }

  // ------------------------------------------------------------------- theorems

  /** Which side the literal stands on does not show: it is the other operand that is asked to widen. */
  lemma BinaryIgnoresSides(widens: (string, string) -> bool, dialect: string, left: Answer, right: Answer)
    requires left.literal != right.literal
    ensures BinaryType(widens, dialect, left, right) == BinaryType(widens, dialect, right, left)
  {
    if left.typ.Some? && right.typ.Some? {
      CollectTwo(widens, left, right);
      CollectTwo(widens, right, left);
    }
  }

  lemma CollectTwo(widens: (string, string) -> bool, a: Answer, b: Answer)
    requires a.typ.Some? && b.typ.Some? && a.literal != b.literal
    ensures Collect(widens, [a, b], None, None) == if a.literal then (a.typ, b.typ) else (b.typ, a.typ)
  {
    assert [a, b][1..] == [b] && [b][1..] == [];
    assert Collect(widens, [b], if a.literal then a.typ else None, if a.literal then None else a.typ)
        == if a.literal then (a.typ, b.typ) else (b.typ, a.typ);
  }

  /** UNKNOWN spreads from any element of an array, and a missing type from any before it. */
  lemma {:induction false} ArrayAnswers(widens: (string, string) -> bool, answers: seq<Answer>, element: Option<Ty>, k: nat)
    requires k < |answers| && KindOf(answers[k].typ) == "UNKNOWN"
    requires forall j :: 0 <= j < k ==> answers[j].typ.Some?
    ensures ArrayType(widens, answers, element) == Some(UNKNOWN)
  {
    if k == 0 || KindOf(answers[0].typ) == "UNKNOWN" {
    } else {
      ArrayAnswers(widens, answers[1..], Coerce(widens, element, answers[0].typ), k - 1);
    }
  }

  /** One argument of unknown type makes the coercion of them all unknown, wherever it stands. */
  lemma {:induction false} UnknownSpreads(widens: (string, string) -> bool, answers: seq<Answer>, soFar: Option<Ty>)
    requires forall a :: a in answers ==> a.typ.Some?
    requires KindOf(soFar) == "UNKNOWN" || exists k :: 0 <= k < |answers| && KindOf(answers[k].typ) == "UNKNOWN"
    ensures KindOf(Coerced(widens, answers, soFar)) == "UNKNOWN"
  {
    if answers == [] {
    } else {
      var next := Coerce(widens, soFar, answers[0].typ);
      if KindOf(soFar) != "UNKNOWN" && KindOf(answers[0].typ) != "UNKNOWN" {
        var k :| 0 <= k < |answers| && KindOf(answers[k].typ) == "UNKNOWN";
        assert answers[1..][k - 1] == answers[k];
      }
      UnknownSpreads(widens, answers[1..], next);
    }
  }

  /** x + 1 and 1 + x are both unknown where x is, literal or not, in every dialect. */
  lemma UnknownOperand(widens: (string, string) -> bool, dialect: string, left: Answer, right: Answer)
    requires left.typ.Some? && right.typ.Some?
    requires KindOf(left.typ) == "UNKNOWN" || KindOf(right.typ) == "UNKNOWN"
    ensures KindOf(BinaryType(widens, dialect, left, right)) == "UNKNOWN"
    ensures KindOf(BinaryType(widens, dialect, right, left)) == "UNKNOWN"
  {
    UnknownEitherSide(widens, dialect, left, right);
    UnknownEitherSide(widens, dialect, right, left);
  }

  lemma UnknownEitherSide(widens: (string, string) -> bool, dialect: string, a: Answer, b: Answer)
    requires a.typ.Some? && b.typ.Some? && (KindOf(a.typ) == "UNKNOWN" || KindOf(b.typ) == "UNKNOWN")
    ensures KindOf(BinaryType(widens, dialect, a, b)) == "UNKNOWN"
  {
    assert [a, b][1..] == [b] && [b][1..] == [];
    if a.literal != b.literal {
      CollectTwo(widens, a, b);
    } else if a.literal {
      assert Collect(widens, [b], a.typ, None) == Collect(widens, [], Coerce(widens, a.typ, b.typ), None);
    } else {
      assert Collect(widens, [b], None, a.typ) == Collect(widens, [], None, Coerce(widens, a.typ, b.typ));
    }
  }
}

/**
 What the rules that combine types amount to (sqlglot/annotate.go): coercion
 finds the widest type, a division is a real number, a CASE takes its first
 nested type, and a NULL is told to nobody who has none.
 */
module TypeLaws {
  import opened Options
  import opened TypeRules

  /** A type the table of widenings speaks of: known, and without parameters. */
  predicate Plain(t: Ty) {
    t.kind != "NULL" && t.kind != "UNKNOWN" && t.params == []
  }

  // -------------------------------------------------------------------- coercion

  /** Of two plain types the one that widens to the other gives way; of two that do not, the second. */
  lemma CoercionWidens(w: (string, string) -> bool, a: Ty, b: Ty)
    requires Plain(a) && Plain(b)
    ensures Coerce(w, Some(a), Some(b)) in [Some(a), Some(b)]
    ensures w(a.kind, b.kind) && !w(b.kind, a.kind) ==>
              Coerce(w, Some(a), Some(b)) == Coerce(w, Some(b), Some(a)) == Some(b)
    ensures !w(a.kind, b.kind) && !w(b.kind, a.kind) ==>
              Coerce(w, Some(a), Some(b)) == Some(a) && Coerce(w, Some(b), Some(a)) == Some(b)
    ensures w(a.kind, b.kind) && w(b.kind, a.kind) ==> Coerce(w, Some(a), Some(b)) == Some(b)
  {
  }

  /** A missing type and NULL add nothing, UNKNOWN everything, and parameters keep a type as it is. */
  lemma CoercionOfOthers(w: (string, string) -> bool, a: Ty, b: Option<Ty>)
    ensures Coerce(w, None, b) == b && (a.kind != "NULL" ==> Coerce(w, Some(a), None) == Some(a))
    ensures a.kind == "NULL" && b.Some? ==> Coerce(w, Some(a), b) == b
    ensures a.kind == "NULL" && b.Some? && b.value.kind != "NULL" ==> Coerce(w, b, Some(a)) == b
    ensures a.kind == "UNKNOWN" && (b.None? || b.value.kind != "NULL") ==>
              KindOf(Coerce(w, Some(a), b)) == KindOf(Coerce(w, b, Some(a))) == "UNKNOWN"
    ensures a.params != [] && a.kind != "NULL" && a.kind != "UNKNOWN" && b.Some? && Plain(b.value) ==>
              Coerce(w, Some(a), b) == Coerce(w, b, Some(a)) == Some(a)
  {
  }

  ghost function TypesOf(answers: seq<Answer>): set<Ty>
    requires forall a :: a in answers ==> a.typ.Some?
  {
    set a | a in answers :: a.typ.value
  }

  /** Plain types of which one of any two widens to the other, and never both. */
  ghost predicate IsChain(w: (string, string) -> bool, ts: set<Ty>) {
    && (forall x :: x in ts ==> Plain(x))
    && (forall x, y :: x in ts && y in ts && x != y ==> w(x.kind, y.kind) != w(y.kind, x.kind))
    && (forall x, y, z :: x in ts && y in ts && z in ts && w(x.kind, y.kind) && w(y.kind, z.kind) ==> w(x.kind, z.kind))
  }

  ghost predicate IsWidest(w: (string, string) -> bool, ts: set<Ty>, m: Ty) {
    m in ts && forall x :: x in ts && x != m ==> w(x.kind, m.kind)
  }

  lemma OneIsWidest(w: (string, string) -> bool, ts: set<Ty>, a: Ty, b: Ty)
    requires IsChain(w, ts) && IsWidest(w, ts, a) && IsWidest(w, ts, b)
    ensures a == b
  {
  }

  lemma PartOfChain(w: (string, string) -> bool, ts: set<Ty>, us: set<Ty>)
    requires IsChain(w, ts) && us <= ts
    ensures IsChain(w, us)
  {
    hide Plain;
  }

  /** The wider of two may stand for both. */
  lemma WidestOfMore(w: (string, string) -> bool, a: Ty, b: Ty, ts: set<Ty>, m: Ty)
    requires IsChain(w, {a, b} + ts)
    requires IsWidest(w, {Coerce(w, Some(a), Some(b)).value} + ts, m)
    ensures IsWidest(w, {a, b} + ts, m)
  {
    assert a in {a, b} + ts && b in {a, b} + ts;
    CoercionWidens(w, a, b);
    hide Coerce, Plain;
  }

  lemma {:induction false} CoercedFrom(w: (string, string) -> bool, answers: seq<Answer>, soFar: Ty)
    requires forall a :: a in answers ==> a.typ.Some?
    requires IsChain(w, {soFar} + TypesOf(answers))
    ensures Coerced(w, answers, Some(soFar)).Some?
    ensures IsWidest(w, {soFar} + TypesOf(answers), Coerced(w, answers, Some(soFar)).value)
  {
    if answers == [] {
      assert TypesOf(answers) == {};
    } else {
      var b, rest := answers[0].typ.value, answers[1..];
      TypesOfFirst(answers);
      assert {soFar} + TypesOf(answers) == {soFar, b} + TypesOf(rest);
      assert soFar in {soFar, b} && b in {soFar, b};
      assert Plain(soFar) && Plain(b);
      CoercionWidens(w, soFar, b);
      hide IsChain, IsWidest, Coerce, TypesOf;
      var next := Coerce(w, Some(soFar), Some(b)).value;
      PartOfChain(w, {soFar, b} + TypesOf(rest), {next} + TypesOf(rest));
      CoercedFrom(w, rest, next);
      WidestOfMore(w, soFar, b, TypesOf(rest), Coerced(w, rest, Some(next)).value);
    }
  }

  lemma TypesOfFirst(answers: seq<Answer>)
    requires answers != [] && forall a :: a in answers ==> a.typ.Some?
    ensures TypesOf(answers) == {answers[0].typ.value} + TypesOf(answers[1..])
  {
    assert forall a :: a in answers <==> a == answers[0] || a in answers[1..];
  }

  /** The coercion of a chain is its widest type. */
  lemma CoercedIsWidest(w: (string, string) -> bool, answers: seq<Answer>)
    requires answers != [] && (forall a :: a in answers ==> a.typ.Some?) && IsChain(w, TypesOf(answers))
    ensures Coerced(w, answers, None).Some? && IsWidest(w, TypesOf(answers), Coerced(w, answers, None).value)
  {
    TypesOfFirst(answers);
    hide TypesOf, IsChain, IsWidest;
    CoercedFrom(w, answers[1..], answers[0].typ.value);
  }

  /** So the order of a call's arguments does not show. */
  lemma CoercedInAnyOrder(w: (string, string) -> bool, a: seq<Answer>, b: seq<Answer>)
    requires a != [] && (forall x :: x in a ==> x.typ.Some?) && IsChain(w, TypesOf(a))
    requires b != [] && (forall x :: x in b ==> x.typ.Some?) && TypesOf(a) == TypesOf(b)
    ensures Coerced(w, a, None) == Coerced(w, b, None)
  {
    CoercedIsWidest(w, a);
    CoercedIsWidest(w, b);
    OneIsWidest(w, TypesOf(a), Coerced(w, a, None).value, Coerced(w, b, None).value);
  }

  /** An array of a chain is an array of its widest type. */
  lemma ArrayOfWidest(w: (string, string) -> bool, answers: seq<Answer>)
    requires answers != [] && (forall a :: a in answers ==> a.typ.Some?) && IsChain(w, TypesOf(answers))
    ensures Coerced(w, answers, None).Some? && IsWidest(w, TypesOf(answers), Coerced(w, answers, None).value)
    ensures ArrayType(w, answers, None) == Some(Ty("ARRAY", [Bare(Coerced(w, answers, None).value.kind)], true))
  {
    CoercedIsWidest(w, answers);
    forall a | a in answers ensures KindOf(a.typ) != "UNKNOWN" {
      assert a.typ.value in TypesOf(answers);
    }
    ArrayCoerces(w, answers, None);
    assert Coerced(w, answers, None).value in TypesOf(answers);
  }

  lemma {:induction false} ArrayCoerces(w: (string, string) -> bool, answers: seq<Answer>, element: Option<Ty>)
    requires forall a :: a in answers ==> a.typ.Some? && KindOf(a.typ) != "UNKNOWN"
    ensures ArrayType(w, answers, element)
         == Some(ArrayOfType(match Coerced(w, answers, element) { case Some(t) => Unwrapped(t) case None => UNKNOWN }))
  {
    if answers == [] {
    } else {
      ArrayCoerces(w, answers[1..], Coerce(w, element, answers[0].typ));
    }
  }

  // ------------------------------------------------------------------- operators

  /** Two integers or two reals. */
  predicate OneFamily(a: string, b: string) {
    (IsIntegerKind(a) && IsIntegerKind(b)) || (IsRealKind(a) && IsRealKind(b))
  }

  /** Two operands of one sort give the wider; of a literal and another it is the other that is asked to widen, and in
      BigQuery a column of integers or of reals stays what it is beside a literal of its own family. */
  lemma OperatorsWiden(w: (string, string) -> bool, dialect: string, a: Answer, b: Answer)
    requires a.typ.Some? && b.typ.Some? && Plain(a.typ.value) && Plain(b.typ.value)
    requires w(a.typ.value.kind, b.typ.value.kind) && !w(b.typ.value.kind, a.typ.value.kind)
    ensures a.literal == b.literal || dialect != "bigquery" ==>
              BinaryType(w, dialect, a, b) == BinaryType(w, dialect, b, a) == b.typ
    ensures dialect == "bigquery" && b.literal && !a.literal && OneFamily(a.typ.value.kind, b.typ.value.kind) ==>
              BinaryType(w, dialect, a, b) == BinaryType(w, dialect, b, a) == a.typ
    ensures dialect == "bigquery" && a.literal != b.literal && !OneFamily(a.typ.value.kind, b.typ.value.kind) ==>
              BinaryType(w, dialect, a, b) == BinaryType(w, dialect, b, a) == b.typ
  {
    if a.literal != b.literal {
      CollectTwo(w, a, b);
      CollectTwo(w, b, a);
    } else {
      CollectAlike(w, a, b);
      CollectAlike(w, b, a);
    }
  }

  lemma CollectAlike(w: (string, string) -> bool, a: Answer, b: Answer)
    requires a.typ.Some? && b.typ.Some? && a.literal == b.literal
    ensures Collect(w, [a, b], None, None)
         == if a.literal then (Coerce(w, a.typ, b.typ), None) else (None, Coerce(w, a.typ, b.typ))
  {
    assert [a, b][1..] == [b] && [b][1..] == [];
    if a.literal {
      assert Collect(w, [b], a.typ, None) == Collect(w, [], Coerce(w, a.typ, b.typ), None);
    } else {
      assert Collect(w, [b], None, a.typ) == Collect(w, [], None, Coerce(w, a.typ, b.typ));
    }
  }

  /** Operands of one sort are coerced like a call's arguments; those without a type are passed over. */
  lemma {:induction false} CollectedAlike(w: (string, string) -> bool, answers: seq<Answer>, literal: bool,
                                          soFar: Option<Ty>)
    requires forall a :: a in answers && a.typ.Some? ==> a.literal == literal
    ensures Collect(w, answers, if literal then soFar else None, if literal then None else soFar)
         == var r := Coerced(w, Typed(answers), soFar); if literal then (r, None) else (None, r)
  {
    hide Coerce;
    if answers == [] {
    } else if answers[0].typ.None? {
      assert Typed(answers) == Typed(answers[1..]);
      CollectedAlike(w, answers[1..], literal, soFar);
    } else {
      assert Typed(answers)[0] == answers[0] && Typed(answers)[1..] == Typed(answers[1..]);
      CollectedAlike(w, answers[1..], literal, Coerce(w, soFar, answers[0].typ));
    }
  }

  function Typed(answers: seq<Answer>): seq<Answer> {
    if answers == [] then []
    else (if answers[0].typ.Some? then [answers[0]] else []) + Typed(answers[1..])
  }

  /** An operator is without a type exactly where an operand is; a call's coercion exactly where an argument is, or there
      is none. */
  lemma MissingTypes(w: (string, string) -> bool, dialect: string, a: Answer, b: Answer)
    ensures BinaryType(w, dialect, a, b).None? <==> a.typ.None? || b.typ.None?
  {
    if a.typ.Some? && b.typ.Some? {
      if a.literal != b.literal {
        CollectTwo(w, a, b);
      } else {
        CollectAlike(w, a, b);
      }
    }
  }

  lemma {:induction false} MissingArguments(w: (string, string) -> bool, answers: seq<Answer>, soFar: Option<Ty>)
    ensures Coerced(w, answers, soFar).None? <==> (answers == [] && soFar.None?) || exists a :: a in answers && a.typ.None?
  {
    if answers == [] {
    } else {
      assert forall a :: a in answers <==> a == answers[0] || a in answers[1..];
      MissingArguments(w, answers[1..], Coerce(w, soFar, answers[0].typ));
    }
  }

  /** The kinds of the two families, which have none in common. */
  lemma Families(kind: string)
    ensures IsIntegerKind(kind) <==>
              kind in ["TINYINT", "SMALLINT", "MEDIUMINT", "INT", "BIGINT", "INT128", "INT256", "UTINYINT", "USMALLINT",
                       "UMEDIUMINT", "UINT", "UBIGINT", "UINT128", "UINT256", "BIT"]
    ensures IsRealKind(kind) <==>
              kind in ["FLOAT", "DOUBLE", "UDOUBLE", "DECIMAL", "UDECIMAL", "DECIMAL32", "DECIMAL64", "DECIMAL128",
                       "DECIMAL256", "BIGDECIMAL", "DECFLOAT", "MONEY", "SMALLMONEY"]
    ensures !(IsIntegerKind(kind) && IsRealKind(kind))
  {
  }

  lemma KindsApart()
    ensures IsIntegerKind("BIGINT") && IsRealKind("DOUBLE")
    ensures forall kind :: !(IsIntegerKind(kind) && IsRealKind(kind))
    ensures forall kind :: kind in ["NULL", "UNKNOWN", ""] ==> !IsIntegerKind(kind) && !IsRealKind(kind)
  {
  }

  /** Typed, a division of integers gives BIGINT; otherwise a coercion that is real stays, and nothing is a DOUBLE. */
  lemma DivisionKeepsReals(w: (string, string) -> bool, typed: bool, a: Option<Ty>, b: Option<Ty>)
    ensures typed && IsIntegerKind(KindOf(a)) && IsIntegerKind(KindOf(b)) ==>
              DivType(w, typed, a, b) == Some(Bare("BIGINT"))
    ensures !(typed && IsIntegerKind(KindOf(a)) && IsIntegerKind(KindOf(b))) && IsRealKind(KindOf(Coerce(w, a, b))) ==>
              DivType(w, typed, a, b) == Coerce(w, a, b)
    ensures a.None? && b.None? ==> DivType(w, typed, a, b) == Some(Bare("DOUBLE"))
  {
    KindsApart();
    hide IsIntegerKind, IsRealKind;
  }

  /** Otherwise a division is never an integer, but for the parameters of an operand. */
  lemma DivisionIsReal(w: (string, string) -> bool, typed: bool, a: Option<Ty>, b: Option<Ty>)
    requires forall kind :: IsIntegerKind(kind) ==> w(kind, "DOUBLE")
    ensures IsIntegerKind(KindOf(DivType(w, typed, a, b))) ==>
              || (typed && IsIntegerKind(KindOf(a)) && IsIntegerKind(KindOf(b)))
              || (a.Some? && a.value.params != []) || (b.Some? && b.value.params != [])
  {
    KindsApart();
    hide IsIntegerKind, IsRealKind;
  }

  /** 1 / 2 and such are DOUBLE. */
  lemma DivisionOfIntegers(w: (string, string) -> bool, a: Ty, b: Ty)
    requires forall kind :: IsIntegerKind(kind) ==> w(kind, "DOUBLE")
    requires Plain(a) && Plain(b) && IsIntegerKind(a.kind) && IsIntegerKind(b.kind)
    ensures DivType(w, false, Some(a), Some(b)) == Some(Bare("DOUBLE"))
  {
    KindsApart();
    hide IsIntegerKind, IsRealKind;
  }

  // ------------------------------------------------------------------------ CASE

  lemma NestedKinds(t: Ty)
    ensures IsNested(t) <==> t.nested || t.kind in ["ARRAY", "MAP"]
  {
  }

  /** The first branch with a nested type gives a CASE its type, whatever comes after, if all branches have one. */
  lemma {:induction false} FirstNestedWins(w: (string, string) -> bool, dialect: string, answers: seq<Answer>,
                                           literal: Option<Ty>, other: Option<Ty>, k: nat)
    requires k < |answers| && (forall a :: a in answers ==> a.typ.Some?) && IsNested(answers[k].typ.value)
    requires forall j :: 0 <= j < k ==> !IsNested(answers[j].typ.value)
    ensures CaseType(w, dialect, answers, None, literal, other) == answers[k].typ
  {
    hide IsNested;
    assert answers[0] in answers;
    var rest := answers[1..];
    if k == 0 {
      NestedStays(w, dialect, rest, answers[0].typ, literal, other);
    } else {
      assert rest[k - 1] == answers[k] && forall j :: 0 <= j < k - 1 ==> rest[j] == answers[j + 1];
      if answers[0].literal {
        FirstNestedWins(w, dialect, rest, Coerce(w, literal, answers[0].typ), other, k - 1);
      } else {
        FirstNestedWins(w, dialect, rest, literal, Coerce(w, other, answers[0].typ), k - 1);
      }
    }
  }

  lemma {:induction false} NestedStays(w: (string, string) -> bool, dialect: string, answers: seq<Answer>,
                                       nested: Option<Ty>, literal: Option<Ty>, other: Option<Ty>)
    requires nested.Some? && forall a :: a in answers ==> a.typ.Some?
    ensures CaseType(w, dialect, answers, nested, literal, other) == nested
  {
    if answers == [] {
    } else {
      assert answers[0] in answers;
      NestedStays(w, dialect, answers[1..], nested, literal, other);
    }
  }

  /** Without one, its branches are coerced as a call's particular arguments are. */
  lemma {:induction false} WithoutNested(w: (string, string) -> bool, dialect: string, answers: seq<Answer>,
                                         literal: Option<Ty>, other: Option<Ty>)
    requires forall a :: a in answers ==> a.typ.Some? && !IsNested(a.typ.value)
    ensures var (l, o) := Collect(w, answers, literal, other);
            CaseType(w, dialect, answers, None, literal, other) == Pick(w, dialect, l, o)
    ensures literal.None? && other.None? ==> CaseType(w, dialect, answers, None, None, None) == ByArgs(w, dialect, answers)
  {
    hide Coerce, IsNested, Pick;
    if answers == [] {
    } else {
      var a := answers[0];
      assert a in answers;
      if a.literal {
        WithoutNested(w, dialect, answers[1..], Coerce(w, literal, a.typ), other);
      } else {
        WithoutNested(w, dialect, answers[1..], literal, Coerce(w, other, a.typ));
      }
    }
  }

  /** A branch without a type leaves the CASE without one. */
  lemma {:induction false} BranchWithoutType(w: (string, string) -> bool, dialect: string, answers: seq<Answer>,
                                             nested: Option<Ty>, literal: Option<Ty>, other: Option<Ty>, k: nat)
    requires k < |answers| && answers[k].typ.None?
    ensures CaseType(w, dialect, answers, nested, literal, other).None?
  {
    hide Coerce, IsNested;
    if k == 0 {
    } else {
      var a := answers[0];
      assert answers[1..][k - 1] == answers[k];
      if nested.Some? || a.typ.None? {
        BranchWithoutType(w, dialect, answers[1..], nested, literal, other, k - 1);
      } else if IsNested(a.typ.value) {
        BranchWithoutType(w, dialect, answers[1..], a.typ, literal, other, k - 1);
      } else if a.literal {
        BranchWithoutType(w, dialect, answers[1..], nested, Coerce(w, literal, a.typ), other, k - 1);
      } else {
        BranchWithoutType(w, dialect, answers[1..], nested, literal, Coerce(w, other, a.typ), k - 1);
      }
    }
  }

  // --------------------------------------------------------------------- the rest

  /** No NULL type is told where the dialect has none; BigQuery is told BIGINT; every other answer stays. */
  lemma NoNullIsTold(supportsNull: string -> bool, dialect: string, t: Option<Ty>)
    ensures KindOf(Final(supportsNull, dialect, t)) == "NULL" ==> supportsNull(dialect)
    ensures KindOf(t) != "NULL" || supportsNull(dialect) ==> Final(supportsNull, dialect, t) == t
    ensures KindOf(t) == "NULL" && !supportsNull(dialect) ==>
              KindOf(Final(supportsNull, dialect, t)) == if dialect == "bigquery" then "BIGINT" else "UNKNOWN"
    ensures Final(supportsNull, dialect, Final(supportsNull, dialect, t)) == Final(supportsNull, dialect, t)
  {
  }

  /** What an array holds comes out of it again, by a subscript or by a function that returns an element. */
  lemma ElementsComeOut(t: Ty)
    ensures SubscriptType(ArrayOfType(t), false) == t && SubscriptType(ArrayOfType(t), true) == ArrayOfType(t)
    ensures ReturnType(Element, ReturnType(ArrayOf, Some(t))) == Some(t)
    ensures t.kind != "ARRAY" ==> SubscriptType(t, false) == UNKNOWN && ReturnType(Element, Some(t)) == Some(UNKNOWN)
  {
  }

  /** A promoted integer is a BIGINT and a promoted float a DOUBLE, and nothing else changes. */
  lemma PromotedKinds(t: Ty)
    ensures var r := ReturnType(Promote, Some(t));
            && (t.kind in ["TINYINT", "SMALLINT", "INT", "BIGINT"] ==> r == Some(Bare("BIGINT")))
            && (t.kind in ["FLOAT", "DOUBLE"] ==> r == Some(Bare("DOUBLE")))
            && (t.kind !in ["TINYINT", "SMALLINT", "INT", "BIGINT", "FLOAT", "DOUBLE"] ==> r == Some(t))
    ensures ReturnType(Args, Some(t)) == Some(t)
  {
  }
}

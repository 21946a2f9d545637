/**
 What becomes of remembered answers when a node is made of others, or one of
 its arguments is replaced (New and Set in sqlglot/expression.go, and the memo
 of sqlglot/annotate.go). Types are read of a forest; here two forests are
 compared, the one before and the one after.
 */
module Adoption {
  import opened Options
  import opened TypeRules
  import opened Nodes
  import opened Annotator

  // -------------------------------------------------- what a type depends on

  /** The tables say nothing of anonymous calls, but name this one: it should have been a node of its own. */
  predicate OnlyNamesTheCall(tb: Tables, d: string, name: string) {
    && !tb.isConnectorOrPredicate(Anonymous) && !tb.isUnary(Anonymous) && !tb.isBinary(Anonymous)
    && tb.byArgs(d, Anonymous).None? && tb.returnRule(d, Anonymous).None? && !tb.isUnannotated(d, Anonymous)
    && tb.namesTheCall(d, name)
  }

  predicate IsNamedCall(m: Node, d: string, tb: Tables) {
    m.cls.Anonymous? && OnlyNamesTheCall(tb, d, m.text)
  }

  /** A node has other arguments in b than in a, or is a call that only the name table has a type for and that became a
      method call, or ceased to be one. */
  ghost predicate ChangedAt(m: Node, d: string, tb: Tables, a: Forest, b: Forest)
    requires m in a.args
  {
    m !in b.args || a.args[m] != b.args[m] || (IsNamedCall(m, d, tb) && IsCallIn(a, m) != IsCallIn(b, m))
  }

  /** There is such a node in the subtree. */
  ghost predicate Disturbed(n: Node, d: string, tb: Tables, a: Forest, b: Forest)
    requires Sound(a) && n in a.args
  {
    exists m :: m in Region(a, n) && ChangedAt(m, d, tb, a, b)
  }

  lemma CalmArgument(n: Node, c: Node, d: string, tb: Tables, a: Forest, b: Forest)
    requires Sound(a) && Sound(b) && n in a.args && !Disturbed(n, d, tb, a, b) && c in Flatten(a.args[n])
    ensures n in b.args && b.args[n] == a.args[n] && c in a.args && c in b.args && !Disturbed(c, d, tb, a, b)
    ensures n in a.height && c in a.height && a.height[c] < a.height[n]
    ensures n in b.height && c in b.height && b.height[c] < b.height[n]
  {
    assert !ChangedAt(n, d, tb, a, b);
    ChildRegion(a, n, c);
    hide ChangedAt;
    forall m | m in Region(a, c) ensures !ChangedAt(m, d, tb, a, b) {
      assert m in Region(a, n);
    }
  }

  /** An undisturbed subtree has the same type in both forests. */
  lemma {:induction false} SubtreeDecides(n: Node, d: string, tb: Tables, a: Forest, b: Forest)
    requires Sound(a) && Sound(b) && n in a.args && n in b.args && !Disturbed(n, d, tb, a, b)
    ensures Raw(n, d, tb, a) == Raw(n, d, tb, b)
    decreases a.height[n], 2, 0
  {
    hide ByTables, Answers, ChildRaw, CaseValues, DivType, ArrayType, CaseType, IsIntegerText, Sound, Disturbed;
    assert a.args[n] == b.args[n] by {
      SameArguments(n, d, tb, a, b);
    }
    ChildDecided(n, THIS, d, tb, a, b);
    ChildDecided(n, EXPRESSION, d, tb, a, b);
    match n.cls {
      case Array => ListDecided(n, FindList(a.args[n], EXPRESSIONS), d, tb, a, b);
      case Case => CaseDecided(n, d, tb, a, b);
      case Anonymous => TablesDecided(n, d, tb, a, b);
      case Dot => TablesDecided(n, d, tb, a, b);
      case DataType => TablesDecided(n, d, tb, a, b);
      case Other(_) => TablesDecided(n, d, tb, a, b);
      case _ =>
    }
  }

  lemma SameArguments(n: Node, d: string, tb: Tables, a: Forest, b: Forest)
    requires Sound(a) && n in a.args && !Disturbed(n, d, tb, a, b)
    ensures n in b.args && a.args[n] == b.args[n]
    ensures IsNamedCall(n, d, tb) ==> IsCallIn(a, n) == IsCallIn(b, n)
  {
    assert n in Region(a, n) && !ChangedAt(n, d, tb, a, b);
  }

  lemma {:induction false} TablesDecided(n: Node, d: string, tb: Tables, a: Forest, b: Forest)
    requires Sound(a) && Sound(b) && n in a.args && n in b.args && !Disturbed(n, d, tb, a, b)
    ensures ByTables(n, d, tb, a) == ByTables(n, d, tb, b)
    decreases a.height[n], 1, 0
  {
    hide Answers, ChildRaw, NodesUnderAll, ByArgs, Coerced, ReturnType, BinaryType, Sound, Disturbed, IsCallIn;
    SameArguments(n, d, tb, a, b);
    ChildDecided(n, THIS, d, tb, a, b);
    ChildDecided(n, EXPRESSION, d, tb, a, b);
    if tb.byArgs(d, n.cls).Some? {
      ListDecided(n, NodesUnderAll(a.args[n], tb.byArgs(d, n.cls).value), d, tb, a, b);
    }
    if tb.returnRule(d, n.cls).Some? {
      ListDecided(n, NodesUnderAll(a.args[n], ReturnKeys(tb.returnRule(d, n.cls).value)), d, tb, a, b);
    }
  }

  lemma {:induction false} ChildDecided(n: Node, key: Key, d: string, tb: Tables, a: Forest, b: Forest)
    requires Sound(a) && Sound(b) && n in a.args && n in b.args && !Disturbed(n, d, tb, a, b)
    ensures ChildRaw(n, key, d, tb, a) == ChildRaw(n, key, d, tb, b)
    decreases a.height[n], 0, 0
  {
    hide Raw, Sound, Disturbed;
    SameArguments(n, d, tb, a, b);
    var c := FindChild(a.args[n], key);
    if c == null {
    } else {
      CalmArgument(n, c, d, tb, a, b);
      SubtreeDecides(c, d, tb, a, b);
    }
  }

  lemma {:induction false} ListDecided(n: Node, nodes: seq<Node>, d: string, tb: Tables, a: Forest, b: Forest)
    requires Sound(a) && Sound(b) && n in a.args && n in b.args && !Disturbed(n, d, tb, a, b)
    requires forall c :: c in nodes ==> c in Flatten(a.args[n])
    ensures Below(a, n, nodes) && Below(b, n, nodes) && Answers(n, nodes, d, tb, a) == Answers(n, nodes, d, tb, b)
    decreases a.height[n], 0, |nodes| + 1
  {
    hide Sound, Disturbed;
    forall c | c in nodes
      ensures c in a.height && n in a.height && c in a.args && a.height[c] < a.height[n]
      ensures c in b.height && n in b.height && c in b.args && b.height[c] < b.height[n] && !Disturbed(c, d, tb, a, b)
    {
      CalmArgument(n, c, d, tb, a, b);
    }
    NoneIsBelow(a, n);
    NoneIsBelow(b, n);
    AnswersDecided(n, nodes, d, tb, a, b);
  }

  lemma NoneIsBelow(t: Forest, n: Node)
    requires Sound(t) && n in t.args
    ensures Below(t, n, [])
  {
  }

  lemma {:induction false} AnswersDecided(n: Node, nodes: seq<Node>, d: string, tb: Tables, a: Forest, b: Forest)
    requires Sound(a) && Sound(b) && n in a.args && n in b.args && Below(a, n, nodes) && Below(b, n, nodes)
    requires forall c :: c in nodes ==> !Disturbed(c, d, tb, a, b)
    ensures Answers(n, nodes, d, tb, a) == Answers(n, nodes, d, tb, b)
    decreases a.height[n], 0, |nodes|
  {
    hide Raw, Sound, Disturbed;
    if nodes == [] {
    } else {
      var last := nodes[|nodes| - 1];
      assert last in nodes;
      AnswersDecided(n, nodes[..|nodes| - 1], d, tb, a, b);
      SubtreeDecides(last, d, tb, a, b);
    }
  }

  lemma {:induction false} BranchesDecided(branches: seq<Node>, d: string, tb: Tables, a: Forest, b: Forest)
    requires Sound(a) && Sound(b)
    requires forall c :: c in branches ==> c in a.args && c in b.args && !Disturbed(c, d, tb, a, b)
    ensures BranchValues(a, branches) == BranchValues(b, branches)
    ensures forall v :: v in BranchValues(a, branches) ==> v in a.args && v in b.args && !Disturbed(v, d, tb, a, b)
  {
    hide Sound, Disturbed;
    if branches == [] {
    } else {
      var last := branches[|branches| - 1];
      assert last in branches;
      BranchesDecided(branches[..|branches| - 1], d, tb, a, b);
      SameArguments(last, d, tb, a, b);
      var value := FindChild(a.args[last], TRUE_VALUE);
      if value != null {
        CalmArgument(last, value, d, tb, a, b);
      }
    }
  }

  lemma {:induction false} CaseDecided(n: Node, d: string, tb: Tables, a: Forest, b: Forest)
    requires Sound(a) && Sound(b) && n in a.args && n in b.args && !Disturbed(n, d, tb, a, b)
    ensures CaseValues(a, n) == CaseValues(b, n)
    ensures Answers(n, CaseValues(a, n), d, tb, a) == Answers(n, CaseValues(b, n), d, tb, b)
    decreases a.height[n], 1, 0
  {
    hide Sound, Disturbed, BranchValues, Answers;
    SameArguments(n, d, tb, a, b);
    var branches, value := FindList(a.args[n], IFS), FindChild(a.args[n], DEFAULT);
    forall c | c in Flatten(a.args[n]) ensures c in a.args && c in b.args && !Disturbed(c, d, tb, a, b) {
      CalmArgument(n, c, d, tb, a, b);
    }
    BranchesDecided(branches, d, tb, a, b);
    assert Below(b, n, CaseValues(b, n)) && CaseValues(a, n) == CaseValues(b, n);
    AnswersDecided(n, CaseValues(a, n), d, tb, a, b);
  }

  // ------------------------------------------------------------------ one call

  lemma CallType(c: Node, d: string, tb: Tables, t: Forest)
    requires Sound(t) && c in t.args && IsNamedCall(c, d, tb)
    ensures Raw(c, d, tb, t) == if IsCallIn(t, c) then Some(UNKNOWN) else None
  {
    hide Answers, ChildRaw, NodesUnderAll, ByArgs, Coerced, ReturnType, BinaryType, IsIntegerText, Sound;
  }

  /** Exactly when becoming a method call, or ceasing to be one, changes a call's type. */
  lemma CallTypeChangesIff(c: Node, d: string, tb: Tables, a: Forest, b: Forest)
    requires Sound(a) && Sound(b) && c in a.args && c in b.args && c.cls.Anonymous? && a.args[c] == b.args[c]
    requires forall m :: m in Region(a, c) && m != c ==> !ChangedAt(m, d, tb, a, b)
    ensures Raw(c, d, tb, a) == Raw(c, d, tb, b)
       <==> (OnlyNamesTheCall(tb, d, c.text) ==> IsCallIn(a, c) == IsCallIn(b, c))
  {
    hide Raw, OnlyNamesTheCall, IsCallIn, Sound;
    if OnlyNamesTheCall(tb, d, c.text) {
      CallType(c, d, tb, a);
      CallType(c, d, tb, b);
    } else {
      SubtreeDecides(c, d, tb, a, b);
    }
  }

  // ------------------------------------------------------------- the memo after

  /** Nodes of u that were asked about, and are disturbed in the dialect it was in, have the same type all the same. */
  ghost predicate DisturbedKeep(u: set<Node>, tb: Tables, a: Forest, b: Forest)
    requires Sound(a) && Sound(b) && u <= a.args.Keys && u <= b.args.Keys
    reads u`rawTypeKnown, u`rawTypeDialect
  {
    forall n :: n in u && n.rawTypeKnown && Disturbed(n, n.rawTypeDialect, tb, a, b) ==>
      Raw(n, n.rawTypeDialect, tb, b) == Raw(n, n.rawTypeDialect, tb, a)
  }

  /** What was right of one forest is right of another exactly when it is for the disturbed nodes. */
  lemma StaysRightIff(u: set<Node>, tb: Tables, a: Forest, b: Forest)
    requires Sound(a) && Sound(b) && u <= a.args.Keys && u <= b.args.Keys && Right(u, tb, a)
    ensures Right(u, tb, b) <==> DisturbedKeep(u, tb, a, b)
  {
    hide Raw, Sound, Disturbed;
    forall n | n in u && n.rawTypeKnown && !Disturbed(n, n.rawTypeDialect, tb, a, b)
      ensures Raw(n, n.rawTypeDialect, tb, b) == Raw(n, n.rawTypeDialect, tb, a)
    {
      SubtreeDecides(n, n.rawTypeDialect, tb, a, b);
    }
  }

  /** A remembered call that only the name table has a type for, and that became a method call or ceased to be one. */
  ghost predicate Noisy(c: Node, tb: Tables, a: Forest, b: Forest)
    reads c`rawTypeKnown, c`rawTypeDialect
  {
    c.rawTypeKnown && IsNamedCall(c, c.rawTypeDialect, tb) && IsCallIn(a, c) != IsCallIn(b, c)
  }

  /** One is enough for the memo to be wrong. */
  lemma NoisyTurnsWrong(c: Node, u: set<Node>, tb: Tables, a: Forest, b: Forest)
    requires Sound(a) && Sound(b) && u <= a.args.Keys && u <= b.args.Keys && Right(u, tb, a)
    requires c in u && Noisy(c, tb, a, b)
    ensures !Right(u, tb, b)
  {
    hide Raw, Sound, IsCallIn, IsNamedCall;
    CallType(c, c.rawTypeDialect, tb, a);
    CallType(c, c.rawTypeDialect, tb, b);
  }
}

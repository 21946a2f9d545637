/**
 What the annotator answers for nodes of each class (sqlglot/annotate.go), by
 the types of their arguments, and how trees keep their arguments.
 */
module AnswerLaws {
  import opened Options
  import opened TypeRules
  import opened TypeLaws
  import opened Nodes
  import opened Annotator
  import opened TypeStamps

  // ------------------------------------------------------------------------ leaves

  /** What needs no argument: literals, truth values, NULL, casts, names. */
  lemma TypesOfLeaves(n: Node, d: string, tb: Tables, t: Forest)
    requires Sound(t) && n in t.args
    ensures n.cls == Literal && n.isString ==> Raw(n, d, tb, t) == Some(Bare("VARCHAR"))
    ensures n.cls == Literal && !n.isString && n.text != "" && (forall k :: 0 <= k < |n.text| ==> '0' <= n.text[k] <= '9')
            ==> Raw(n, d, tb, t) == Some(Bare("INT"))
    ensures n.cls == Literal && !n.isString && (n.text == "" || exists k :: 0 <= k < |n.text| && !('0' <= n.text[k] <= '9'))
            ==> Raw(n, d, tb, t) == Some(Bare("DOUBLE"))
    ensures n.cls == BooleanLiteral || n.cls == Not ==> Raw(n, d, tb, t) == Some(Bare("BOOLEAN"))
    ensures n.cls == Null ==> Raw(n, d, tb, t) == Some(Bare("NULL"))
    ensures n.cls == Cast || n.cls == TryCast ==> Raw(n, d, tb, t) == n.to
    ensures n.cls in [Column, Identifier, Star, Slice] ==> Raw(n, d, tb, t) == Some(Bare("UNKNOWN"))
  {
    hide Sound;
  }

  /** Parentheses have the type of what is in them. */
  lemma TypesOfParentheses(n: Node, c: Node, d: string, tb: Tables, t: Forest)
    requires Sound(t) && n in t.args && n.cls == Paren && FindChild(t.args[n], THIS) == c
    ensures c in t.args && Raw(n, d, tb, t) == Raw(c, d, tb, t)
  {
    ArgumentsBelow(t, n);
  }

  // --------------------------------------------------------------------- operators

  /** The tables speak of a class as of a binary operator, and of nothing else. */
  predicate OnlyBinary(cls: Class, d: string, tb: Tables) {
    && cls.Other? && tb.isBinary(cls) && !tb.isConnectorOrPredicate(cls) && !tb.isUnary(cls)
    && tb.byArgs(d, cls).None? && tb.returnRule(d, cls).None?
  }

  /** An operator of two operands has the wider of their types, whichever side it is on. */
  lemma OperatorsAnswer(n: Node, l: Node, r: Node, d: string, tb: Tables, t: Forest)
    requires Sound(t) && n in t.args && OnlyBinary(n.cls, d, tb)
    requires FindChild(t.args[n], THIS) == l && FindChild(t.args[n], EXPRESSION) == r
    ensures l in t.args && r in t.args
    ensures var a, b := Raw(l, d, tb, t), Raw(r, d, tb, t);
            && (Raw(n, d, tb, t).None? <==> a.None? || b.None?)
            && (a.Some? && b.Some? && Plain(a.value) && Plain(b.value) && (l.cls.Literal? <==> r.cls.Literal?) ==>
                  && (tb.widens(a.value.kind, b.value.kind) && !tb.widens(b.value.kind, a.value.kind) ==> Raw(n, d, tb, t) == b)
                  && (tb.widens(b.value.kind, a.value.kind) && !tb.widens(a.value.kind, b.value.kind) ==> Raw(n, d, tb, t) == a)
                  && (a == b ==> Raw(n, d, tb, t) == a))
  {
    ArgumentsBelow(t, n);
    var x := Answer(l.cls.Literal?, Raw(l, d, tb, t));
    var y := Answer(r.cls.Literal?, Raw(r, d, tb, t));
    BinaryAnswers(n, l, r, d, tb, t);
    MissingTypes(tb.widens, d, x, y);
    if x.typ.Some? && y.typ.Some? && Plain(x.typ.value) && Plain(y.typ.value) && x.literal == y.literal {
      if tb.widens(x.typ.value.kind, y.typ.value.kind) && !tb.widens(y.typ.value.kind, x.typ.value.kind) {
        OperatorsWiden(tb.widens, d, x, y);
      }
      if tb.widens(y.typ.value.kind, x.typ.value.kind) && !tb.widens(x.typ.value.kind, y.typ.value.kind) {
        OperatorsWiden(tb.widens, d, y, x);
      }
      CollectAlike(tb.widens, x, y);
    }
    hide Raw, Sound, Collect;
  }

  lemma BinaryAnswers(n: Node, l: Node, r: Node, d: string, tb: Tables, t: Forest)
    requires Sound(t) && n in t.args && l in t.args && r in t.args && OnlyBinary(n.cls, d, tb)
    requires FindChild(t.args[n], THIS) == l && FindChild(t.args[n], EXPRESSION) == r
    ensures Raw(n, d, tb, t)
         == BinaryType(tb.widens, d, Answer(l.cls.Literal?, Raw(l, d, tb, t)), Answer(r.cls.Literal?, Raw(r, d, tb, t)))
  {
    OthersByTables(n, d, tb, t);
    ChildAnswers(n, l, THIS, d, tb, t);
    ChildAnswers(n, r, EXPRESSION, d, tb, t);
    hide Raw, ChildRaw, ChildAnswer, Sound, BinaryType;
    assert ByTables(n, d, tb, t)
        == BinaryType(tb.widens, d, ChildAnswer(n, THIS, d, tb, t), ChildAnswer(n, EXPRESSION, d, tb, t));
  }

  lemma ChildAnswers(n: Node, c: Node, key: Key, d: string, tb: Tables, t: Forest)
    requires Sound(t) && n in t.args && c in t.args && FindChild(t.args[n], key) == c
    ensures ChildAnswer(n, key, d, tb, t) == Answer(c.cls.Literal?, Raw(c, d, tb, t))
  {
    hide Raw, Sound;
  }

  /** A predicate and a connector are BOOLEAN, and a unary operator has its operand's type. */
  lemma PredicatesAnswer(n: Node, d: string, tb: Tables, t: Forest)
    requires Sound(t) && n in t.args && n.cls.Other?
    ensures tb.isConnectorOrPredicate(n.cls) ==> Raw(n, d, tb, t) == Some(Bare("BOOLEAN"))
    ensures !tb.isConnectorOrPredicate(n.cls) && tb.isUnary(n.cls) ==> Raw(n, d, tb, t) == ChildRaw(n, THIS, d, tb, t)
  {
    OthersByTables(n, d, tb, t);
    hide Raw, ChildRaw, Sound;
  }

  /** A division of integers is a DOUBLE unless it is typed, and then a BIGINT. */
  lemma DivisionsAnswer(n: Node, l: Node, r: Node, d: string, tb: Tables, t: Forest)
    requires Sound(t) && n in t.args && n.cls == Div
    requires FindChild(t.args[n], THIS) == l && FindChild(t.args[n], EXPRESSION) == r
    requires forall kind :: IsIntegerKind(kind) ==> tb.widens(kind, "DOUBLE")
    ensures l in t.args && r in t.args
    ensures var a, b := Raw(l, d, tb, t), Raw(r, d, tb, t);
            a.Some? && b.Some? && Plain(a.value) && Plain(b.value) && IsIntegerKind(a.value.kind)
            && IsIntegerKind(b.value.kind)
            ==> Raw(n, d, tb, t) == Some(Bare(if n.typed then "BIGINT" else "DOUBLE"))
  {
    ArgumentsBelow(t, n);
    var a, b := Raw(l, d, tb, t), Raw(r, d, tb, t);
    DivAnswers(n, l, r, d, tb, t);
    DivisionKeepsReals(tb.widens, n.typed, a, b);
    hide IsIntegerKind, IsRealKind, DivType, Raw, Sound;
    if a.Some? && b.Some? && Plain(a.value) && Plain(b.value) && IsIntegerKind(a.value.kind) && IsIntegerKind(b.value.kind) {
      DivisionOfIntegers(tb.widens, a.value, b.value);
    }
  }

  lemma DivAnswers(n: Node, l: Node, r: Node, d: string, tb: Tables, t: Forest)
    requires Sound(t) && n in t.args && n.cls == Div && l in t.args && r in t.args
    requires FindChild(t.args[n], THIS) == l && FindChild(t.args[n], EXPRESSION) == r
    ensures Raw(n, d, tb, t) == DivType(tb.widens, n.typed, Raw(l, d, tb, t), Raw(r, d, tb, t))
  {
    assert ChildRaw(n, THIS, d, tb, t) == Raw(l, d, tb, t) && ChildRaw(n, EXPRESSION, d, tb, t) == Raw(r, d, tb, t);
    hide DivType, ChildRaw, Sound;
  }

  // -------------------------------------------------------------- arrays and subscripts

  /** An array literal, and a subscript of one: the widest of the elements, which comes out again. */
  lemma ArraysAnswer(n: Node, d: string, tb: Tables, t: Forest)
    requires Sound(t) && n in t.args && n.cls == Array
    ensures Below(t, n, FindList(t.args[n], EXPRESSIONS))
    ensures var items := FindList(t.args[n], EXPRESSIONS);
            var answers := Answers(n, items, d, tb, t);
            && (items == [] ==> Raw(n, d, tb, t) == Some(Ty("ARRAY", [Bare("UNKNOWN")], true)))
            && (items != [] && (forall a :: a in answers ==> a.typ.Some?) && IsChain(tb.widens, TypesOf(answers)) ==>
                  exists m :: IsWidest(tb.widens, TypesOf(answers), m)
                              && Raw(n, d, tb, t) == Some(Ty("ARRAY", [Bare(m.kind)], true)))
  {
    ArgumentsBelow(t, n);
    var items := FindList(t.args[n], EXPRESSIONS);
    var answers := Answers(n, items, d, tb, t);
    assert Raw(n, d, tb, t) == ArrayType(tb.widens, answers, None);
    hide Raw, Sound;
    if items != [] && (forall a :: a in answers ==> a.typ.Some?) && IsChain(tb.widens, TypesOf(answers)) {
      hide Answers, ArrayType, IsChain;
      ArrayOfWidest(tb.widens, answers);
    }
  }

  /** A subscript of an array is its element, and a slice of it is what it was. */
  lemma SubscriptsAnswer(n: Node, base: Node, d: string, tb: Tables, t: Forest)
    requires Sound(t) && n in t.args && n.cls == Bracket && FindChild(t.args[n], THIS) == base
    ensures base in t.args && FindList(t.args[n], EXPRESSIONS) != []
    ensures var a, slice := Raw(base, d, tb, t), FindList(t.args[n], EXPRESSIONS)[0].cls == Slice;
            && (a.None? ==> Raw(n, d, tb, t).None?)
            && (a.Some? && slice ==> Raw(n, d, tb, t) == a)
            && (a.Some? && !slice && a.value.kind == "ARRAY" && a.value.params != [] ==>
                  Raw(n, d, tb, t) == Some(a.value.params[0]))
            && (a.Some? && !slice && a.value.kind != "ARRAY" ==> Raw(n, d, tb, t) == Some(Bare("UNKNOWN")))
  {
    ArgumentsBelow(t, n);
    assert ChildRaw(n, THIS, d, tb, t) == Raw(base, d, tb, t);
  }

  // ---------------------------------------------------------------------- calls, CASE

  /** A call that no table knows is UNKNOWN, named or not behind a dot, and so is the dot. */
  lemma CallsAnswer(n: Node, d: string, tb: Tables, t: Forest)
    requires Sound(t) && n in t.args
    requires forall cls :: cls == Anonymous || cls == Dot ==>
               && !tb.isConnectorOrPredicate(cls) && !tb.isUnary(cls) && !tb.isBinary(cls)
               && tb.byArgs(d, cls).None? && tb.returnRule(d, cls).None? && !tb.isUnannotated(d, cls)
    ensures n.cls == Anonymous ==>
              Raw(n, d, tb, t) == if tb.namesTheCall(d, n.text) && !IsCallIn(t, n) then None else Some(Bare("UNKNOWN"))
    ensures n.cls == Dot ==>
              var call := FindChild(t.args[n], EXPRESSION);
              Raw(n, d, tb, t)
              == if call != null && call.cls == Anonymous && ChildRaw(n, EXPRESSION, d, tb, t).Some? then Some(Bare("UNKNOWN"))
                 else None
  {
    if n.cls == Anonymous || n.cls == Dot {
      assert Raw(n, d, tb, t) == ByTables(n, d, tb, t);
    }
    hide Raw, ChildRaw, Sound, IsCallIn;
  }

  /** The tables speak of a class as of a function with this return rule, and of nothing else before. */
  predicate OnlyFunction(cls: Class, rule: FuncReturn, d: string, tb: Tables) {
    && cls.Other? && tb.returnRule(d, cls) == Some(rule)
    && !tb.isConnectorOrPredicate(cls) && !tb.isUnary(cls) && tb.byArgs(d, cls).None?
  }

  /** The nodes under one key, one or many, or none. */
  function Under(args: seq<Arg>, key: Key): seq<Node> {
    var c := FindChild(args, key);
    if c != null then [c] else FindList(args, key)
  }

  function Asked(args: seq<Arg>, rule: FuncReturn): seq<Node> {
    if rule.ArrayOf? || rule.Element? then Under(args, THIS)
    else Under(args, THIS) + Under(args, EXPRESSION) + Under(args, EXPRESSIONS)
  }

  lemma KeysAsked(args: seq<Arg>, rule: FuncReturn)
    ensures NodesUnderAll(args, ReturnKeys(rule)) == Asked(args, rule)
  {
    hide NodesUnder, FindChild, FindList, Under;
    OneKey(args, THIS);
    if !rule.ArrayOf? && !rule.Element? {
      KeysAndOne(args, [THIS], EXPRESSION);
      KeysAndOne(args, [THIS, EXPRESSION], EXPRESSIONS);
      assert [THIS] + [EXPRESSION] + [EXPRESSIONS] == ReturnKeys(rule);
    }
  }

  lemma OneKey(args: seq<Arg>, key: Key)
    ensures NodesUnderAll(args, [key]) == Under(args, key)
  {
    hide FindChild, FindList;
    assert NodesUnderAll(args, []) == [];
  }

  lemma KeysAndOne(args: seq<Arg>, keys: seq<Key>, key: Key)
    ensures NodesUnderAll(args, keys + [key]) == NodesUnderAll(args, keys) + Under(args, key)
  {
    assert (keys + [key])[..|keys|] == keys;
  }

  /** A function that returns an array or an element looks at its first argument alone, and any other at that, the next
      and the rest, in their order; each needs a type, and then the rule is put to the widest. */
  lemma FunctionsAnswer(n: Node, rule: FuncReturn, d: string, tb: Tables, t: Forest)
    requires Sound(t) && n in t.args && OnlyFunction(n.cls, rule, d, tb) && !rule.Fixed?
    ensures Below(t, n, Asked(t.args[n], rule))
    ensures Raw(n, d, tb, t) == ReturnType(rule, Coerced(tb.widens, Answers(n, Asked(t.args[n], rule), d, tb, t), None))
  {
    ArgumentsBelow(t, n);
    RuleIsAsked(n, rule, d, tb, t);
    hide Raw, Sound, NodesUnderAll, Asked, Answers, ReturnType, Coerced, OnlyFunction;
    KeysAsked(t.args[n], rule);
  }

  lemma RuleIsAsked(n: Node, rule: FuncReturn, d: string, tb: Tables, t: Forest)
    requires Sound(t) && n in t.args && OnlyFunction(n.cls, rule, d, tb) && !rule.Fixed?
    ensures Below(t, n, NodesUnderAll(t.args[n], ReturnKeys(rule)))
    ensures Raw(n, d, tb, t)
         == ReturnType(rule, Coerced(tb.widens, Answers(n, NodesUnderAll(t.args[n], ReturnKeys(rule)), d, tb, t), None))
  {
    ArgumentsBelow(t, n);
    OthersByTables(n, d, tb, t);
    hide Raw, Sound, ReturnKeys, NodesUnderAll, ReturnType, Coerced, Answers;
  }

  lemma OthersByTables(n: Node, d: string, tb: Tables, t: Forest)
    requires Sound(t) && n in t.args && n.cls.Other?
    ensures Raw(n, d, tb, t) == ByTables(n, d, tb, t)
  {
    hide ByTables, Sound;
  }

  /** A function of a fixed return has it, whatever it is called with. */
  lemma FixedFunctionsAnswer(n: Node, kind: string, d: string, tb: Tables, t: Forest)
    requires Sound(t) && n in t.args && OnlyFunction(n.cls, Fixed(kind), d, tb)
    ensures Raw(n, d, tb, t) == Some(Bare(kind))
  {
    OthersByTables(n, d, tb, t);
    hide Raw, Sound;
  }

  /** The values of a CASE are the branches', in order, and then the default. */
  lemma {:induction false} BranchesInOrder(t: Forest, branches: seq<Node>)
    requires forall b :: b in branches ==> b in t.args && FindChild(t.args[b], TRUE_VALUE) != null
    ensures |BranchValues(t, branches)| == |branches|
    ensures forall k :: 0 <= k < |branches| ==>
              BranchValues(t, branches)[k] == FindChild(t.args[branches[k]], TRUE_VALUE)
  {
    hide FindChild;
    if branches == [] {
    } else {
      BranchesInOrder(t, branches[..|branches| - 1]);
    }
  }

  lemma CasesAnswer(n: Node, d: string, tb: Tables, t: Forest, k: nat)
    requires Sound(t) && n in t.args && n.cls == Case && k < |CaseValues(t, n)|
    requires forall v :: v in CaseValues(t, n) ==> v in t.args && Raw(v, d, tb, t).Some?
    requires IsNested(Raw(CaseValues(t, n)[k], d, tb, t).value)
    requires forall j :: 0 <= j < k ==> !IsNested(Raw(CaseValues(t, n)[j], d, tb, t).value)
    ensures Raw(n, d, tb, t) == Raw(CaseValues(t, n)[k], d, tb, t)
    ensures CaseValues(t, n)
         == BranchValues(t, FindList(t.args[n], IFS))
            + (if FindChild(t.args[n], DEFAULT) == null then [] else [FindChild(t.args[n], DEFAULT)])
  {
    var values := CaseValues(t, n);
    var answers := Answers(n, values, d, tb, t);
    assert Raw(n, d, tb, t) == CaseType(tb.widens, d, answers, None, None, None);
    assert values == BranchValues(t, FindList(t.args[n], IFS))
                     + (if FindChild(t.args[n], DEFAULT) == null then [] else [FindChild(t.args[n], DEFAULT)]);
    hide Raw, Sound, IsNested, CaseValues, CaseType, Answers;
    forall j | 0 <= j < |answers| ensures answers[j].typ == Raw(values[j], d, tb, t) && values[j] in values {
      AnswersAt(n, values, d, tb, t, j);
    }
    forall a | a in answers ensures a.typ.Some? {
      var j :| 0 <= j < |answers| && answers[j] == a;
      assert values[j] in values;
    }
    FirstNestedWins(tb.widens, d, answers, None, None, k);
  }

  // -------------------------------------------------------------------------- trees

  function KeysOf(args: seq<Arg>): seq<Key> {
    seq(|args|, k requires 0 <= k < |args| => args[k].key)
  }

  /** An argument set under a key there is takes its place; under a new one it comes last. */
  lemma {:induction false} SetKeepsOrder(args: seq<Arg>, arg: Arg)
    ensures HasKey(args, arg.key) <==> arg.key in KeysOf(args)
    ensures arg.key in KeysOf(args) ==> KeysOf(SetArg(args, arg)) == KeysOf(args)
    ensures arg.key !in KeysOf(args) ==> SetArg(args, arg) == args + [arg]
  {
    KeysAreHad(args, arg.key);
    if arg.key in KeysOf(args) {
      var front, last := args[..|args| - 1], args[|args| - 1];
      assert args == front + [last];
      KeysJoin(front, [last]);
      KeysJoin(front, [arg]);
      assert KeysOf([arg]) == [arg.key] && KeysOf([last]) == [last.key];
      if last.key != arg.key {
        assert arg.key in KeysOf(front);
        SetKeepsOrder(front, arg);
        KeysJoin(SetArg(front, arg), [last]);
      }
    }
  }

  lemma KeysAreHad(args: seq<Arg>, key: Key)
    ensures HasKey(args, key) <==> key in KeysOf(args)
  {
    assert forall k :: 0 <= k < |args| ==> args[k].key == KeysOf(args)[k];
  }

  lemma KeysJoin(a: seq<Arg>, b: seq<Arg>)
    ensures KeysOf(a + b) == KeysOf(a) + KeysOf(b)
  {
  }

  /** In a tree without type words the walk comes by every node. */
  lemma {:induction false} WalkIsWhole(t: Forest, n: Node)
    requires Sound(t) && n in t.args && forall m :: m in Region(t, n) ==> !m.cls.DataType?
    ensures Walked(t, n) == Region(t, n)
    decreases t.height[n], 1, 0
  {
    SelfHeight(t, n);
    hide WalkedAll, Sound;
    var nodes := Flatten(t.args[n]);
    WalkOfAll(t, n, nodes);
    forall m | m in Region(t, n) && m != n ensures m in WalkedAll(t, n, nodes) {
      var c := BelowThrough(t, n, m);
    }
  }

  lemma SelfHeight(t: Forest, n: Node)
    requires Sound(t) && n in t.args
    ensures n in t.height && n in Region(t, n) && Among(t, n, Flatten(t.args[n]))
  {
  }

  lemma LastAmong(t: Forest, n: Node, nodes: seq<Node>)
    requires Sound(t) && Among(t, n, nodes) && nodes != []
    ensures var last, front := nodes[|nodes| - 1], nodes[..|nodes| - 1];
            && Among(t, n, front) && last in Flatten(t.args[n]) && n in t.args
            && forall c :: c in nodes ==> c in front || c == last
  {
    hide Flatten, Sound;
    assert nodes == nodes[..|nodes| - 1] + [nodes[|nodes| - 1]];
  }

  lemma WalkSplits(t: Forest, n: Node, nodes: seq<Node>)
    requires Sound(t) && Among(t, n, nodes) && n in t.height && nodes != []
    ensures var last, front := nodes[|nodes| - 1], nodes[..|nodes| - 1];
            && Among(t, n, front) && last in t.args && last in t.height && t.height[last] < t.height[n]
            && Region(t, last) <= Region(t, n)
            && WalkedAll(t, n, nodes) == WalkedAll(t, n, front) + Walked(t, last)
            && forall c :: c in nodes ==> c in front || c == last
  {
    LastAmong(t, n, nodes);
    hide Walked, Region, Sound, Flatten, Among;
    ChildRegion(t, n, nodes[|nodes| - 1]);
    ArgumentsBelow(t, n);
  }

  lemma {:induction false} WalkOfAll(t: Forest, n: Node, nodes: seq<Node>)
    requires Sound(t) && Among(t, n, nodes) && n in t.height && forall m :: m in Region(t, n) ==> !m.cls.DataType?
    ensures forall c :: c in nodes ==> c in t.args && Region(t, c) <= WalkedAll(t, n, nodes)
    decreases t.height[n], 0, |nodes|
  {
    hide Walked, WalkedAll, Region, Sound, Among;
    if nodes == [] {
    } else {
      WalkSplits(t, n, nodes);
      WalkOfAll(t, n, nodes[..|nodes| - 1]);
      WalkIsWhole(t, nodes[|nodes| - 1]);
    }
  }
}

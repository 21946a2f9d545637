/**
 The type annotator (sqlglot/annotate.go): a recursive function of a node in a
 forest, and the methods that compute it with one remembered answer per node.
 */
module Annotator {
  import opened Options
  import opened TypeRules
  import opened Nodes

  /** The generated tables, as far as the rules here ask them. */
  datatype Tables = Tables(
    widens: (string, string) -> bool,
    isConnectorOrPredicate: Class -> bool,
    isUnary: Class -> bool,
    isBinary: Class -> bool,
    byArgs: (string, Class) -> Option<seq<Key>>,
    returnRule: (string, Class) -> Option<FuncReturn>,
    namesTheCall: (string, string) -> bool,
    isUnannotated: (string, Class) -> bool,
    supportsNull: string -> bool)

  // ---------------------------------------------------------- the type of a node

  predicate IsIntegerText(text: string) {
    text != "" && forall k :: 0 <= k < |text| ==> '0' <= text[k] <= '9'
  }

  /** The nodes under a key, one or many. */
  function NodesUnder(args: seq<Arg>, key: Key): seq<Node> {
    var c := FindChild(args, key);
    if c != null then [c] else FindList(args, key)
  }

  function NodesUnderAll(args: seq<Arg>, keys: seq<Key>): (nodes: seq<Node>)
    ensures forall c :: c in nodes ==> c in Flatten(args)
  {
    if keys == [] then [] else NodesUnderAll(args, keys[..|keys| - 1]) + NodesUnder(args, keys[|keys| - 1])
  }

  /** The values of a CASE's branches. */
  ghost function BranchValues(t: Forest, branches: seq<Node>): seq<Node>
    requires forall b :: b in branches ==> b in t.args
  {
    if branches == [] then []
    else
      var value := FindChild(t.args[branches[|branches| - 1]], TRUE_VALUE);
      BranchValues(t, branches[..|branches| - 1]) + (if value == null then [] else [value])
  }

  lemma {:induction false} BranchValuesBelow(t: Forest, n: Node, branches: seq<Node>)
    requires Sound(t) && Below(t, n, branches)
    ensures Below(t, n, BranchValues(t, branches))
  {
    hide Sound;
    if branches == [] {
    } else {
      var b := branches[|branches| - 1];
      assert b in branches;
      BranchValuesBelow(t, n, branches[..|branches| - 1]);
      ArgumentsBelow(t, b);
    }
  }

  lemma CaseValuesBelow(t: Forest, n: Node)
    requires Sound(t) && n in t.args
    ensures Below(t, n, FindList(t.args[n], IFS)) && Below(t, n, BranchValues(t, FindList(t.args[n], IFS)))
    ensures FindChild(t.args[n], DEFAULT) != null ==> Below(t, n, [FindChild(t.args[n], DEFAULT)])
  {
    hide Sound, BranchValues;
    ArgumentsBelow(t, n);
    BranchValuesBelow(t, n, FindList(t.args[n], IFS));
  }

  ghost function CaseValues(t: Forest, n: Node): (nodes: seq<Node>)
    requires Sound(t) && n in t.args
    ensures Below(t, n, nodes)
  {
    hide Sound, BranchValues;
    CaseValuesBelow(t, n);
    var value := FindChild(t.args[n], DEFAULT);
    BranchValues(t, FindList(t.args[n], IFS)) + (if value == null then [] else [value])
  }

  /** The keys a call's return type is read from. */
  function ReturnKeys(rule: FuncReturn): seq<Key> {
    if rule.Element? || rule.ArrayOf? then [THIS] else [THIS, EXPRESSION, EXPRESSIONS]
  }

  /** The type of a node, worked out from scratch, in a forest. */
  ghost function Raw(n: Node, d: string, tb: Tables, t: Forest): Option<Ty>
    requires Sound(t) && n in t.args
    decreases t.height[n], 2, 0
  {
    match n.cls
    case Literal =>
      Some(Bare(if n.isString then "VARCHAR" else if IsIntegerText(n.text) then "INT" else "DOUBLE"))
    case BooleanLiteral => Some(Bare("BOOLEAN"))
    case Null => Some(Bare("NULL"))
    case Cast => n.to
    case TryCast => n.to
    case Paren => ChildRaw(n, THIS, d, tb, t)
    case Not => Some(Bare("BOOLEAN"))
    case Div => DivType(tb.widens, n.typed, ChildRaw(n, THIS, d, tb, t), ChildRaw(n, EXPRESSION, d, tb, t))
    case Array => ArrayType(tb.widens, Answers(n, FindList(t.args[n], EXPRESSIONS), d, tb, t), None)
    case Case => CaseType(tb.widens, d, Answers(n, CaseValues(t, n), d, tb, t), None, None, None)
    case Bracket =>
      var base :- ChildRaw(n, THIS, d, tb, t);
      Some(SubscriptType(base, FindList(t.args[n], EXPRESSIONS)[0].cls.Slice?))
    case Slice => Some(UNKNOWN)
    case Column => Some(UNKNOWN)
    case Identifier => Some(UNKNOWN)
    case Star => Some(UNKNOWN)
    case _ => ByTables(n, d, tb, t)
  }

  /** The classes the tables speak of, in the order they are asked. */
  ghost function ByTables(n: Node, d: string, tb: Tables, t: Forest): Option<Ty>
    requires Sound(t) && n in t.args
    decreases t.height[n], 1, 0
  {
    if tb.isConnectorOrPredicate(n.cls) then Some(Bare("BOOLEAN"))
    else if tb.isUnary(n.cls) then ChildRaw(n, THIS, d, tb, t)
    else if tb.byArgs(d, n.cls).Some? then
      ByArgs(tb.widens, d, Answers(n, NodesUnderAll(t.args[n], tb.byArgs(d, n.cls).value), d, tb, t))
    else if tb.returnRule(d, n.cls).Some? then
      var rule := tb.returnRule(d, n.cls).value;
      if rule.Fixed? then Some(Bare(rule.kind))
      else ReturnType(rule, Coerced(tb.widens, Answers(n, NodesUnderAll(t.args[n], ReturnKeys(rule)), d, tb, t), None))
    else if tb.isBinary(n.cls) then
      BinaryType(tb.widens, d, ChildAnswer(n, THIS, d, tb, t), ChildAnswer(n, EXPRESSION, d, tb, t))
    else if n.cls.Anonymous? && (!tb.namesTheCall(d, n.text) || IsCallIn(t, n)) then Some(UNKNOWN)
    else if n.cls.Dot? && IsCall(FindChild(t.args[n], EXPRESSION)) && ChildRaw(n, EXPRESSION, d, tb, t).Some? then
      Some(UNKNOWN)
    else if tb.isUnannotated(d, n.cls) then Some(UNKNOWN)
    else None
  }

  predicate IsCall(c: Node?) {
    c != null && c.cls.Anonymous?
  }

  ghost function ChildRaw(n: Node, key: Key, d: string, tb: Tables, t: Forest): Option<Ty>
    requires Sound(t) && n in t.args
    decreases t.height[n], 0, 0
  {
    var c := FindChild(t.args[n], key);
    if c == null then None else Raw(c, d, tb, t)
  }

  ghost function ChildAnswer(n: Node, key: Key, d: string, tb: Tables, t: Forest): Answer
    requires Sound(t) && n in t.args
    decreases t.height[n], 0, 1
  {
    var c := FindChild(t.args[n], key);
    Answer(c != null && c.cls.Literal?, ChildRaw(n, key, d, tb, t))
  }

  ghost function Answers(n: Node, nodes: seq<Node>, d: string, tb: Tables, t: Forest): (a: seq<Answer>)
    requires Sound(t) && Below(t, n, nodes) && n in t.args
    ensures |a| == |nodes|
    decreases t.height[n], 0, |nodes|
  {
    if nodes == [] then []
    else
      var last := nodes[|nodes| - 1];
      Answers(n, nodes[..|nodes| - 1], d, tb, t) + [Answer(last.cls.Literal?, Raw(last, d, tb, t))]
  }

  lemma {:induction false} AnswersAt(n: Node, nodes: seq<Node>, d: string, tb: Tables, t: Forest, k: nat)
    requires Sound(t) && Below(t, n, nodes) && n in t.args && k < |nodes|
    ensures Answers(n, nodes, d, tb, t)[k] == Answer(nodes[k].cls.Literal?, Raw(nodes[k], d, tb, t))
    decreases |nodes|
  {
    hide Raw;
    if k == |nodes| - 1 {
    } else {
      AnswersAt(n, nodes[..|nodes| - 1], d, tb, t, k);
    }
  }

  // ------------------------------------------------------------------- the memo

  /** What is remembered of nodes is what the forest gives them, each in the dialect it was asked for. */
  ghost predicate Right(u: set<Node>, tb: Tables, t: Forest)
    requires Sound(t) && u <= t.args.Keys
    reads u`rawType, u`rawTypeDialect, u`rawTypeKnown
  {
    forall n :: n in u && n.rawTypeKnown ==> n.rawType == Raw(n, n.rawTypeDialect, tb, t)
  }

  /** Every answer remembered in u is the one its node has now. */
  ghost predicate Remembered(u: set<Node>, tb: Tables)
    reads u`rawType, u`rawTypeDialect, u`rawTypeKnown, u`args, u`parent, u`height
  {
    Sound(ForestOf(u)) && Right(u, tb, ForestOf(u))
  }

  /** The raw type of a node that may be missing. */
  ghost function RawOf(n: Node?, d: string, tb: Tables, t: Forest): Option<Ty>
    requires Sound(t) && (n != null ==> n in t.args)
  {
    if n == null then None else Raw(n, d, tb, t)
  }

  /** annotate: the remembered answer where it is for this dialect, and otherwise one worked out and kept. */
  method RawType(n: Node?, d: string, tb: Tables, ghost u: set<Node>) returns (t: Option<Ty>)
    requires Remembered(u, tb) && (n != null ==> n in u)
    modifies u`rawType, u`rawTypeDialect, u`rawTypeKnown
    ensures Remembered(u, tb) && t == RawOf(n, d, tb, ForestOf(u))
    ensures n != null ==> n.rawTypeKnown && n.rawTypeDialect == d && n.rawType == t
    decreases if n == null then 0 else n.height + 1, 3
  {
    hide Raw, Sound, ForestOf;
    if n == null {
      return None;
    }
    if n.rawTypeKnown && n.rawTypeDialect == d {
      return n.rawType;
    }
    t := AnnotateNode(n, d, tb, u);
    n.rawType, n.rawTypeDialect, n.rawTypeKnown := t, d, true;
  }

  method AnnotateNode(n: Node, d: string, tb: Tables, ghost u: set<Node>) returns (t: Option<Ty>)
    requires Remembered(u, tb) && n in u
    modifies u`rawType, u`rawTypeDialect, u`rawTypeKnown
    ensures Remembered(u, tb) && t == Raw(n, d, tb, ForestOf(u))
    decreases n.height + 1, 2
  {
    hide ByTables, Right, Sound, ForestOf, Answers, ChildRaw, DivType, ArrayType, CaseType, CaseValues;
    hide SubscriptType, IsIntegerText;
    InForest(u, n);
    match n.cls {
      case Literal =>
        t := Some(Bare(if n.isString then "VARCHAR" else if IsIntegerText(n.text) then "INT" else "DOUBLE"));
      case BooleanLiteral => t := Some(Bare("BOOLEAN"));
      case Null => t := Some(Bare("NULL"));
      case Cast => t := n.to;
      case TryCast => t := n.to;
      case Paren => t := ChildType(n, THIS, d, tb, u);
      case Not => t := Some(Bare("BOOLEAN"));
      case Div => t := AnnotateDiv(n, d, tb, u);
      case Array => t := AnnotateArray(n, d, tb, u);
      case Case => t := AnnotateCase(n, d, tb, u);
      case Bracket =>
        var base := ChildType(n, THIS, d, tb, u);
        if base.None? {
          return None;
        }
        return Some(SubscriptType(base.value, n.ListOf(EXPRESSIONS)[0].cls.Slice?));
      case Slice => t := Some(UNKNOWN);
      case Column => t := Some(UNKNOWN);
      case Identifier => t := Some(UNKNOWN);
      case Star => t := Some(UNKNOWN);
      case _ => t := AnnotateByTables(n, d, tb, u);
    }
  }

  method ChildType(n: Node, key: Key, d: string, tb: Tables, ghost u: set<Node>) returns (t: Option<Ty>)
    requires Remembered(u, tb) && n in u
    modifies u`rawType, u`rawTypeDialect, u`rawTypeKnown
    ensures Remembered(u, tb) && t == ChildRaw(n, key, d, tb, ForestOf(u))
    decreases n.height + 1, 0, 0
  {
    hide Raw, Right, Sound, ForestOf;
    InForest(u, n);
    var c := n.ChildOf(key);
    t := RawType(c, d, tb, u);
  }

  method AnnotateDiv(n: Node, d: string, tb: Tables, ghost u: set<Node>) returns (t: Option<Ty>)
    requires Remembered(u, tb) && n in u && n.cls.Div?
    modifies u`rawType, u`rawTypeDialect, u`rawTypeKnown
    ensures Remembered(u, tb) && t == Raw(n, d, tb, ForestOf(u))
    decreases n.height + 1, 1
  {
    hide ChildRaw, Right, Sound, ForestOf, Coerce, IsIntegerKind, IsRealKind;
    var left := ChildType(n, THIS, d, tb, u);
    var right := ChildType(n, EXPRESSION, d, tb, u);
    if n.typed && IsIntegerKind(KindOf(left)) && IsIntegerKind(KindOf(right)) {
      return Some(Bare("BIGINT"));
    }
    t := Coerce(tb.widens, left, right);
    if t.None? || !IsRealKind(KindOf(t)) {
      t := Coerce(tb.widens, t, Some(Bare("DOUBLE")));
    }
  }

  /** One operand of a list, asked for. */
  method NextAnswer(n: Node, nodes: seq<Node>, k: nat, d: string, tb: Tables, ghost u: set<Node>) returns (a: Answer)
    requires Remembered(u, tb) && n in u && Below(ForestOf(u), n, nodes) && k < |nodes|
    modifies u`rawType, u`rawTypeDialect, u`rawTypeKnown
    ensures Remembered(u, tb) && a == Answers(n, nodes, d, tb, ForestOf(u))[k]
    decreases n.height + 1, 0, 0
  {
    hide Raw, Right, Sound, ForestOf, Answers;
    assert nodes[k] in nodes;
    InForest(u, n);
    InForest(u, nodes[k]);
    AnswersAt(n, nodes, d, tb, ForestOf(u), k);
    var t := RawType(nodes[k], d, tb, u);
    a := Answer(nodes[k].cls.Literal?, t);
  }

  method AnnotateArray(n: Node, d: string, tb: Tables, ghost u: set<Node>) returns (t: Option<Ty>)
    requires Remembered(u, tb) && n in u && n.cls.Array?
    modifies u`rawType, u`rawTypeDialect, u`rawTypeKnown
    ensures Remembered(u, tb) && t == Raw(n, d, tb, ForestOf(u))
    decreases n.height + 1, 1
  {
    hide Answers, Right, Sound, ForestOf, Coerce;
    InForest(u, n);
    var items := n.ListOf(EXPRESSIONS);
    ghost var f := ForestOf(u);
    ghost var answers := Answers(n, items, d, tb, f);
    var element: Option<Ty> := None;
    for k := 0 to |items|
      invariant Remembered(u, tb) && ForestOf(u) == f
      invariant ArrayType(tb.widens, answers[k..], element) == ArrayType(tb.widens, answers, None)
    {
      var a := NextAnswer(n, items, k, d, tb, u);
      assert answers[k..][0] == a && answers[k..][1..] == answers[k + 1..];
      if a.typ.None? {
        return None;
      }
      if KindOf(a.typ) == "UNKNOWN" {
        return Some(UNKNOWN);
      }
      element := Coerce(tb.widens, element, a.typ);
    }
    if element.None? {
      element := Some(UNKNOWN);
    }
    t := Some(ArrayOfType(Unwrapped(element.value)));
  }

  /** The running state of a CASE: take's three variables. */
  datatype Taken = Taken(nested: Option<Ty>, literal: Option<Ty>, other: Option<Ty>)

  /** take: one branch value's type. */
  function Take(widens: (string, string) -> bool, st: Taken, literal: bool, t: Ty): Taken {
    if st.nested.Some? then st
    else if IsNested(t) then st.(nested := Some(t))
    else if literal then st.(literal := Coerce(widens, st.literal, Some(t)))
    else st.(other := Coerce(widens, st.other, Some(t)))
  }

  lemma TakeStep(widens: (string, string) -> bool, d: string, answers: seq<Answer>, st: Taken)
    requires answers != []
    ensures CaseType(widens, d, answers, st.nested, st.literal, st.other)
         == if answers[0].typ.None? then None
            else
              var next := Take(widens, st, answers[0].literal, answers[0].typ.value);
              CaseType(widens, d, answers[1..], next.nested, next.literal, next.other)
  {
    hide Coerce;
  }

  lemma NextBranch(t: Forest, branches: seq<Node>, k: nat)
    requires k < |branches| && forall b :: b in branches ==> b in t.args
    ensures var value := FindChild(t.args[branches[k]], TRUE_VALUE);
            BranchValues(t, branches[..k + 1])
            == BranchValues(t, branches[..k]) + (if value == null then [] else [value])
  {
    assert branches[..k + 1][..k] == branches[..k];
  }

  /** The loop over a CASE's branches, and its default. */
  method ListCaseValues(n: Node, ghost u: set<Node>) returns (values: seq<Node>)
    requires Sound(ForestOf(u)) && n in u
    ensures values == CaseValues(ForestOf(u), n)
  {
    hide Sound, ForestOf, BranchValues, Below;
    InForest(u, n);
    ghost var t := ForestOf(u);
    var branches := n.ListOf(IFS);
    values := [];
    assert BranchValues(t, []) == [] by {
      NoBranches(t);
    }
    for k := 0 to |branches|
      invariant values == BranchValues(t, branches[..k])
    {
      InForest(u, branches[k]);
      NextBranch(t, branches, k);
      var value := branches[k].ChildOf(TRUE_VALUE);
      if value != null {
        values := values + [value];
      }
    }
    assert branches[..|branches|] == branches;
    var value := n.ChildOf(DEFAULT);
    if value != null {
      values := values + [value];
    }
  }

  lemma NoBranches(t: Forest)
    ensures BranchValues(t, []) == []
  {
  }

  method AnnotateCase(n: Node, d: string, tb: Tables, ghost u: set<Node>) returns (t: Option<Ty>)
    requires Remembered(u, tb) && n in u && n.cls.Case?
    modifies u`rawType, u`rawTypeDialect, u`rawTypeKnown
    ensures Remembered(u, tb) && t == Raw(n, d, tb, ForestOf(u))
    decreases n.height + 1, 1
  {
    hide Answers, Right, Sound, ForestOf, Take, Pick, CaseType, CaseValues;
    var values := ListCaseValues(n, u);
    ghost var f := ForestOf(u);
    ghost var answers := Answers(n, values, d, tb, f);
    assert Raw(n, d, tb, f) == CaseType(tb.widens, d, answers, None, None, None);
    var st := Taken(None, None, None);
    for k := 0 to |values|
      invariant Remembered(u, tb) && ForestOf(u) == f
      invariant Raw(n, d, tb, f) == CaseType(tb.widens, d, answers[k..], st.nested, st.literal, st.other)
    {
      hide Raw;
      var a := NextAnswer(n, values, k, d, tb, u);
      assert answers[k..][0] == a && answers[k..][1..] == answers[k + 1..];
      TakeStep(tb.widens, d, answers[k..], st);
      if a.typ.None? {
        return None;
      }
      st := Take(tb.widens, st, a.literal, a.typ.value);
    }
    hide Raw;
    CaseEnds(tb.widens, d, st);
    assert answers[|values|..] == [];
    t := if st.nested.Some? then st.nested else Pick(tb.widens, d, st.literal, st.other);
  }

  lemma CaseEnds(widens: (string, string) -> bool, d: string, st: Taken)
    ensures CaseType(widens, d, [], st.nested, st.literal, st.other)
         == if st.nested.Some? then st.nested else Pick(widens, d, st.literal, st.other)
  {
  }

  method AnnotateByTables(n: Node, d: string, tb: Tables, ghost u: set<Node>) returns (t: Option<Ty>)
    requires Remembered(u, tb) && n in u
    modifies u`rawType, u`rawTypeDialect, u`rawTypeKnown
    ensures Remembered(u, tb) && t == ByTables(n, d, tb, ForestOf(u))
    decreases n.height + 1, 1
  {
    hide Answers, Right, Sound, ForestOf, ChildRaw, Coerced, ReturnType, ByArgs, BinaryType, NodesUnderAll;
    InForest(u, n);
    if tb.isConnectorOrPredicate(n.cls) {
      return Some(Bare("BOOLEAN"));
    }
    if tb.isUnary(n.cls) {
      t := ChildType(n, THIS, d, tb, u);
      return;
    }
    if tb.byArgs(d, n.cls).Some? {
      t := AnnotateByArgs(n, tb.byArgs(d, n.cls).value, d, tb, u);
      return;
    }
    if tb.returnRule(d, n.cls).Some? {
      var rule := tb.returnRule(d, n.cls).value;
      if rule.Fixed? {
        return Some(Bare(rule.kind));
      }
      t := AnnotateFunction(n, rule, d, tb, u);
      return;
    }
    if tb.isBinary(n.cls) {
      t := AnnotateBinary(n, d, tb, u);
      return;
    }
    if n.cls.Anonymous? && (!tb.namesTheCall(d, n.text) || IsMethodCall(n)) {
      return Some(UNKNOWN);
    }
    if n.cls.Dot? && IsCall(n.ChildOf(EXPRESSION)) {
      var call := ChildType(n, EXPRESSION, d, tb, u);
      if call.Some? {
        return Some(UNKNOWN);
      }
    }
    if tb.isUnannotated(d, n.cls) {
      return Some(UNKNOWN);
    }
    return None;
  }

  method AnnotateBinary(n: Node, d: string, tb: Tables, ghost u: set<Node>) returns (t: Option<Ty>)
    requires Remembered(u, tb) && n in u
    modifies u`rawType, u`rawTypeDialect, u`rawTypeKnown
    ensures Remembered(u, tb)
    ensures t == BinaryType(tb.widens, d, ChildAnswer(n, THIS, d, tb, ForestOf(u)),
                            ChildAnswer(n, EXPRESSION, d, tb, ForestOf(u)))
    decreases n.height + 1, 0, 1
  {
    hide ChildRaw, Right, Sound, ForestOf, Coerce, Pick;
    InForest(u, n);
    var thisNode, exprNode := n.ChildOf(THIS), n.ChildOf(EXPRESSION);
    var left := ChildType(n, THIS, d, tb, u);
    var right := ChildType(n, EXPRESSION, d, tb, u);
    if left.None? || right.None? {
      return None;
    }
    var operands := [Answer(thisNode != null && thisNode.cls.Literal?, left),
                     Answer(exprNode != null && exprNode.cls.Literal?, right)];
    var literal, other := CollectOperands(tb.widens, operands);
    t := Pick(tb.widens, d, literal, other);
  }

  /** The loop over a binary operator's two operands. */
  method CollectOperands(widens: (string, string) -> bool, operands: seq<Answer>)
    returns (literal: Option<Ty>, other: Option<Ty>)
    requires forall a :: a in operands ==> a.typ.Some?
    ensures (literal, other) == Collect(widens, operands, None, None)
  {
    hide Coerce;
    literal, other := None, None;
    for k := 0 to |operands|
      invariant Collect(widens, operands[k..], literal, other) == Collect(widens, operands, None, None)
    {
      var a := operands[k];
      assert operands[k..][0] == a && operands[k..][1..] == operands[k + 1..];
      if a.literal {
        literal := Coerce(widens, literal, a.typ);
      } else {
        other := Coerce(widens, other, a.typ);
      }
    }
  }

  method AnnotateByArgs(n: Node, keys: seq<Key>, d: string, tb: Tables, ghost u: set<Node>) returns (t: Option<Ty>)
    requires Remembered(u, tb) && n in u
    modifies u`rawType, u`rawTypeDialect, u`rawTypeKnown
    ensures Remembered(u, tb) && t == ByArgs(tb.widens, d, Answers(n, NodesUnderAll(n.args, keys), d, tb, ForestOf(u)))
    decreases n.height + 1, 0, 1
  {
    hide Answers, Right, Sound, ForestOf, Coerce, Pick, NodesUnderAll;
    InForest(u, n);
    var nodes := NodesUnderAll(n.args, keys);
    ghost var f := ForestOf(u);
    ghost var answers := Answers(n, nodes, d, tb, f);
    var literal: Option<Ty>, other: Option<Ty> := None, None;
    for k := 0 to |nodes|
      invariant Remembered(u, tb) && ForestOf(u) == f
      invariant Collect(tb.widens, answers[k..], literal, other) == Collect(tb.widens, answers, None, None)
    {
      var a := NextAnswer(n, nodes, k, d, tb, u);
      assert answers[k..][0] == a && answers[k..][1..] == answers[k + 1..];
      if a.typ.None? {
        continue;
      }
      if a.literal {
        literal := Coerce(tb.widens, literal, a.typ);
      } else {
        other := Coerce(tb.widens, other, a.typ);
      }
    }
    t := Pick(tb.widens, d, literal, other);
  }

  method AnnotateFunction(n: Node, rule: FuncReturn, d: string, tb: Tables, ghost u: set<Node>) returns (t: Option<Ty>)
    requires Remembered(u, tb) && n in u && !rule.Fixed?
    modifies u`rawType, u`rawTypeDialect, u`rawTypeKnown
    ensures Remembered(u, tb)
    ensures var answers := Answers(n, NodesUnderAll(n.args, ReturnKeys(rule)), d, tb, ForestOf(u));
            t == ReturnType(rule, Coerced(tb.widens, answers, None))
    decreases n.height + 1, 0, 1
  {
    hide Answers, Right, Sound, ForestOf, Coerce, NodesUnderAll;
    InForest(u, n);
    var nodes := NodesUnderAll(n.args, ReturnKeys(rule));
    ghost var f := ForestOf(u);
    ghost var answers := Answers(n, nodes, d, tb, f);
    var coerced: Option<Ty> := None;
    for k := 0 to |nodes|
      invariant Remembered(u, tb) && ForestOf(u) == f
      invariant Coerced(tb.widens, answers[k..], coerced) == Coerced(tb.widens, answers, None)
    {
      var a := NextAnswer(n, nodes, k, d, tb, u);
      assert answers[k..][0] == a && answers[k..][1..] == answers[k + 1..];
      if a.typ.None? {
        return None;
      }
      coerced := Coerce(tb.widens, coerced, a.typ);
    }
    if coerced.None? {
      return None;
    }
    t := ReturnType(rule, coerced);
  }

  /** Annotate. */
  method Annotate(n: Node, d: string, tb: Tables, ghost u: set<Node>) returns (t: Option<Ty>)
    requires Remembered(u, tb) && n in u
    modifies u`rawType, u`rawTypeDialect, u`rawTypeKnown
    ensures Remembered(u, tb) && t == Final(tb.supportsNull, d, Raw(n, d, tb, ForestOf(u)))
  {
    hide Raw;
    t := RawType(n, d, tb, u);
    if KindOf(t) == "NULL" && !tb.supportsNull(d) {
      if d == "bigquery" {
        return Some(Bare("BIGINT"));
      }
      return Some(UNKNOWN);
    }
  }
}

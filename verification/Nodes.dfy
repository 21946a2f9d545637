/**
 Expression nodes (sqlglot/expression.go), which are updated in place, and the
 forests they make up: the arguments and parents of a universe of nodes at one
 moment, as a value.
 */
module Nodes {
  import opened Options
  import opened TypeRules

  /** The classes with a rule of their own here, and every other by its name. */
  datatype Class =
    | Literal | BooleanLiteral | Null | Cast | TryCast | Paren | Not | Div | Array | Case | Bracket | Slice
    | Column | Identifier | Star | Anonymous | Dot | DataType | Other(name: string)

  datatype Key = THIS | EXPRESSION | EXPRESSIONS | IFS | TRUE_VALUE | DEFAULT | OTHER_KEY(name: string)

  /** An argument under its key: a node, or a list of them. An empty list is an absent argument. */
  datatype Arg = Child(key: Key, node: Node) | Items(key: Key, nodes: seq<Node>)

  function NodesOf(arg: Arg): seq<Node> {
    match arg
    case Child(_, c) => [c]
    case Items(_, cs) => cs
  }

  ghost function SetOf(nodes: seq<Node>): set<Node> {
    set c | c in nodes
  }

  /** The nodes of the arguments, in the order of their keys. */
  function Flatten(args: seq<Arg>): seq<Node> {
    if args == [] then [] else Flatten(args[..|args| - 1]) + NodesOf(args[|args| - 1])
  }

  predicate HasKey(args: seq<Arg>, key: Key) {
    exists k :: 0 <= k < |args| && args[k].key == key
  }

  /** The arguments after one is set: in its key's place, or last under a new key. */
  function SetArg(args: seq<Arg>, arg: Arg): (r: seq<Arg>)
    ensures forall c :: c in Flatten(r) ==> c in Flatten(args) || c in NodesOf(arg)
  {
    if !HasKey(args, arg.key) then
      assert (args + [arg])[..|args|] == args;
      args + [arg]
    else
      var front, last := args[..|args| - 1], args[|args| - 1];
      if last.key == arg.key then front + [arg] else SetArg(front, arg) + [last]
  }

  function SetAll(args: seq<Arg>): (r: seq<Arg>)
    ensures forall c :: c in Flatten(r) ==> c in Flatten(args)
  {
    if args == [] then [] else SetArg(SetAll(args[..|args| - 1]), args[|args| - 1])
  }

  function FindChild(args: seq<Arg>, key: Key): (c: Node?)
    ensures c != null ==> c in Flatten(args)
  {
    if args == [] then null
    else
      var last := args[|args| - 1];
      if last.key == key then if last.Child? then last.node else null
      else FindChild(args[..|args| - 1], key)
  }

  function FindList(args: seq<Arg>, key: Key): (cs: seq<Node>)
    ensures forall c :: c in cs ==> c in Flatten(args)
  {
    if args == [] then []
    else
      var last := args[|args| - 1];
      if last.key == key then if last.Items? then last.nodes else []
      else FindList(args[..|args| - 1], key)
  }

  /** What is set is found, and nothing else changes. */
  lemma {:induction false} FindAfterSet(args: seq<Arg>, arg: Arg, key: Key)
    ensures FindChild(SetArg(args, arg), key)
         == if key == arg.key then (if arg.Child? then arg.node else null) else FindChild(args, key)
    ensures FindList(SetArg(args, arg), key)
         == if key == arg.key then (if arg.Items? then arg.nodes else []) else FindList(args, key)
  {
    var r := SetArg(args, arg);
    if !HasKey(args, arg.key) {
      assert r[..|r| - 1] == args;
    } else {
      var front, last := args[..|args| - 1], args[|args| - 1];
      assert r == if last.key == arg.key then front + [arg] else SetArg(front, arg) + [last];
      assert r[..|r| - 1] == if last.key == arg.key then front else SetArg(front, arg);
      FindAfterSet(front, arg, key);
    }
  }

  /** Of several arguments under one key the last counts. */
  lemma {:induction false} FindAfterSetAll(args: seq<Arg>, key: Key)
    ensures FindChild(SetAll(args), key) == FindChild(args, key)
    ensures FindList(SetAll(args), key) == FindList(args, key)
  {
    if args == [] {
    } else {
      FindAfterSet(SetAll(args[..|args| - 1]), args[|args| - 1], key);
      FindAfterSetAll(args[..|args| - 1], key);
    }
  }

  lemma {:induction false} FlattenHolds(args: seq<Arg>, j: nat)
    requires j < |args|
    ensures forall c :: c in NodesOf(args[j]) ==> c in Flatten(args)
    ensures forall c :: c in Flatten(args[..j]) ==> c in Flatten(args)
  {
    if j == |args| - 1 {
    } else {
      FlattenHolds(args[..|args| - 1], j);
      assert args[..|args| - 1][..j] == args[..j];
    }
  }

  lemma NothingSet()
    ensures SetAll([]) == [] && SetOf(Flatten([])) == {}
  {
  }

  lemma NextSet(args: seq<Arg>, j: nat)
    requires j < |args|
    ensures SetAll(args[..j + 1]) == SetArg(SetAll(args[..j]), args[j])
    ensures SetOf(Flatten(args[..j + 1])) == SetOf(Flatten(args[..j])) + SetOf(NodesOf(args[j]))
  {
    assert args[..j + 1][..j] == args[..j];
  }

  class Node {
    const cls: Class
    /** Args["this"] where it is a word: a literal's text, a call's name. */
    const text: string
    const isString: bool
    const typed: bool
    /** Args["to"] of a cast. */
    const to: Option<Ty>
    /** Args, in the order of Keys. */
    var args: seq<Arg>
    var parent: Node?
    /** The stamped type. */
    var typ: Option<Ty>
    /** The remembered answer, with the dialect it was for. */
    var rawType: Option<Ty>
    var rawTypeDialect: string
    var rawTypeKnown: bool
    /** More than the heights of the arguments. */
    ghost var height: nat

    /** childOf: the argument under a key, where it is a node. */
    function ChildOf(key: Key): (c: Node?)
      reads this`args
      ensures c != null ==> c in Flatten(args)
    {
      FindChild(args, key)
    }

    /** The argument under a key, where it is a list. */
    function ListOf(key: Key): (cs: seq<Node>)
      reads this`args
      ensures forall c :: c in cs ==> c in Flatten(args)
    {
      FindList(args, key)
    }

    /** New: the arguments are set one by one, and nothing is remembered. */
    constructor (cls: Class, text: string, isString: bool, typed: bool, to: Option<Ty>, args: seq<Arg>)
      modifies SetOf(Flatten(args))`parent
      ensures this.cls == cls && this.text == text && this.isString == isString && this.typed == typed && this.to == to
      ensures this.args == SetAll(args) && parent == null && typ == None && !rawTypeKnown
      ensures forall c :: c in Flatten(args) ==> c.parent == this && c.height < height
    {
      hide SetAll, Flatten, TallestOf, FindChild, FindList, SetArg, HasKey, NodesOf;
      this.cls, this.text, this.isString, this.typed, this.to, this.args := cls, text, isString, typed, to, [];
      parent, typ, rawType, rawTypeDialect, rawTypeKnown := null, None, None, "", false;
      height := 1 + TallestOf(Flatten(args));
      new;
      TallestBounds(Flatten(args));
      SetEach(args);
    }

    method SetEach(list: seq<Arg>)
      requires args == []
      modifies this`args, this`rawTypeKnown, SetOf(Flatten(list))`parent
      ensures args == SetAll(list) && (!old(rawTypeKnown) ==> !rawTypeKnown)
      ensures forall c :: c in Flatten(list) ==> c.parent == this
    {
      hide SetAll, SetArg, Flatten, NodesOf;
      NothingSet();
      ghost var done: set<Node> := {};
      for j := 0 to |list|
        invariant args == SetAll(list[..j]) && (!old(rawTypeKnown) ==> !rawTypeKnown)
        invariant done == SetOf(Flatten(list[..j])) && forall c :: c in done ==> c.parent == this
      {
        NextSet(list, j);
        FlattenHolds(list, j);
        Set(list[j]);
        done := done + SetOf(NodesOf(list[j]));
      }
      assert list[..|list|] == list;
    }

    /** Set: the nodes set take this one for their parent, and what this node remembered is forgotten. */
    method Set(arg: Arg)
      modifies this`args, this`rawTypeKnown, SetOf(NodesOf(arg))`parent
      ensures args == SetArg(old(args), arg) && !rawTypeKnown
      ensures forall c :: c in NodesOf(arg) ==> c.parent == this
    {
      Adopt(NodesOf(arg), this);
      args := SetArg(args, arg);
      rawTypeKnown := false;
    }
  }

  method Adopt(nodes: seq<Node>, parent: Node)
    modifies SetOf(nodes)`parent
    ensures forall c :: c in nodes ==> c.parent == parent
  {
    for j := 0 to |nodes|
      invariant forall l :: 0 <= l < j ==> nodes[l].parent == parent
    {
      nodes[j].parent := parent;
    }
  }

  ghost function TallestOf(nodes: seq<Node>): nat
    reads SetOf(nodes)`height
  {
    if nodes == [] then 0
    else
      var rest := TallestOf(nodes[1..]);
      if nodes[0].height > rest then nodes[0].height else rest
  }

  lemma {:induction false} TallestBounds(nodes: seq<Node>)
    ensures forall c :: c in nodes ==> c.height <= TallestOf(nodes)
  {
    if nodes == [] {
    } else {
      TallestBounds(nodes[1..]);
    }
  }

  // --------------------------------------------------------------------- forests

  /** The arguments and parents of some nodes, and heights that show there is no cycle. */
  datatype Forest = Forest(args: map<Node, seq<Arg>>, parent: map<Node, Node?>, height: map<Node, nat>)

  ghost function ArgsOf(u: set<Node>): map<Node, seq<Arg>>
    reads u`args
  {
    map n | n in u :: n.args
  }

  ghost function ParentsOf(u: set<Node>): map<Node, Node?>
    reads u`parent
  {
    map n | n in u :: n.parent
  }

  ghost function HeightsOf(u: set<Node>): map<Node, nat>
    reads u`height
  {
    map n | n in u :: n.height
  }

  ghost function ForestOf(u: set<Node>): (t: Forest)
    reads u`args, u`parent, u`height
    ensures t.args.Keys == u
  {
    Forest(ArgsOf(u), ParentsOf(u), HeightsOf(u))
  }

  /** Arguments are there, and lower than the node they are of. */
  ghost predicate Acyclic(t: Forest) {
    && t.height.Keys == t.args.Keys
    && forall n, c {:trigger c in Flatten(t.args[n])} :: n in t.args && c in Flatten(t.args[n]) ==>
         c in t.args && t.height[c] < t.height[n]
  }

  ghost predicate ParentsIn(t: Forest) {
    && t.parent.Keys == t.args.Keys
    && forall n {:trigger t.parent[n]} :: n in t.parent ==> t.parent[n] == null || t.parent[n] in t.args
  }

  /** A subscript has an index. */
  ghost predicate Indexed(t: Forest) {
    forall n {:trigger FindList(t.args[n], EXPRESSIONS)} :: n in t.args && n.cls.Bracket? ==>
      FindList(t.args[n], EXPRESSIONS) != []
  }

  ghost predicate Sound(t: Forest) {
    Acyclic(t) && ParentsIn(t) && Indexed(t)
  }

  /** Nodes of a list that are lower than n. */
  ghost predicate Below(t: Forest, n: Node, nodes: seq<Node>) {
    n in t.height && forall c :: c in nodes ==> c in t.args && c in t.height && t.height[c] < t.height[n]
  }

  lemma ArgumentsBelow(t: Forest, n: Node)
    requires Sound(t) && n in t.args
    ensures Below(t, n, Flatten(t.args[n]))
  {
  }

  /** The nodes of the subtree. */
  ghost function Region(t: Forest, n: Node): (r: set<Node>)
    requires Sound(t) && n in t.args
    ensures n in r && r <= t.args.Keys
    decreases t.height[n]
  {
    {n} + set c, m | c in Flatten(t.args[n]) && m in Region(t, c) :: m
  }

  /** The argument whose subtree a node below n is in. */
  lemma BelowThrough(t: Forest, n: Node, m: Node) returns (c: Node)
    requires Sound(t) && n in t.args && m in Region(t, n) && m != n
    ensures c in Flatten(t.args[n]) && c in t.args && m in Region(t, c)
  {
    c :| c in Flatten(t.args[n]) && m in Region(t, c);
  }

  lemma ChildRegion(t: Forest, n: Node, c: Node)
    requires Sound(t) && n in t.args && c in Flatten(t.args[n])
    ensures c in t.args && Region(t, c) <= Region(t, n)
  {
  }

  lemma {:induction false} RegionIsLower(t: Forest, n: Node, m: Node)
    requires Sound(t) && n in t.args && m in Region(t, n)
    ensures m == n || t.height[m] < t.height[n]
    decreases t.height[n]
  {
    if m == n {
    } else {
      var c := BelowThrough(t, n, m);
      RegionIsLower(t, c, m);
    }
  }

  /** A subtree holds the subtrees of its nodes. */
  lemma {:induction false} RegionsNest(t: Forest, n: Node, m: Node)
    requires Sound(t) && n in t.args && m in Region(t, n)
    ensures Region(t, m) <= Region(t, n)
    decreases t.height[n]
  {
    if m == n {
    } else {
      var c := BelowThrough(t, n, m);
      RegionsNest(t, c, m);
      ChildRegion(t, n, c);
    }
  }

  /** methodCall: the right-hand side of a dot. */
  predicate IsMethodCall(n: Node)
    reads n`parent, (if n.parent == null then {} else {n.parent})`args
  {
    n.parent != null && n.parent.cls.Dot? && n.parent.ChildOf(EXPRESSION) == n
  }

  /** The same of a forest. */
  ghost predicate IsCallIn(t: Forest, n: Node) {
    && n in t.parent && t.parent[n] != null && t.parent[n] in t.args
    && t.parent[n].cls.Dot? && FindChild(t.args[t.parent[n]], EXPRESSION) == n
  }

  /** What a forest says of its nodes. */
  lemma InForest(u: set<Node>, n: Node)
    requires n in u && Sound(ForestOf(u))
    ensures ForestOf(u).args[n] == n.args && ForestOf(u).parent[n] == n.parent && ForestOf(u).height[n] == n.height
    ensures Below(ForestOf(u), n, Flatten(n.args)) && forall c :: c in Flatten(n.args) ==> c in u && c.height < n.height
    ensures IsMethodCall(n) <==> IsCallIn(ForestOf(u), n)
    ensures n.cls.Bracket? ==> n.ListOf(EXPRESSIONS) != []
  {
    var t := ForestOf(u);
    assert n in t.args && t.args[n] == n.args;
    forall c | c in Flatten(n.args) ensures c in u && c.height < n.height {
      assert c in t.args && t.height[c] < t.height[n];
    }
    assert n.parent == null || n.parent in t.args;
  }
}

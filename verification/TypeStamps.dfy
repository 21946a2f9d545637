/** Stamping a type on every node of a tree (AnnotateFully in sqlglot/annotate.go). */
module TypeStamps {
  import opened Options
  import opened TypeRules
  import opened Nodes
  import opened Annotator

  ghost predicate Among(t: Forest, n: Node, nodes: seq<Node>) {
    n in t.args && forall c :: c in nodes ==> c in Flatten(t.args[n])
  }

  /** The nodes the walk stamps: all but the type words themselves. */
  ghost function Walked(t: Forest, n: Node): (w: set<Node>)
    requires Sound(t) && n in t.args
    ensures w <= Region(t, n) && forall m :: m in w ==> !m.cls.DataType?
    decreases t.height[n], 1, 0
  {
    ArgumentsBelow(t, n);
    if n.cls.DataType? then WalkedAll(t, n, FindList(t.args[n], EXPRESSIONS))
    else WalkedAll(t, n, Flatten(t.args[n])) + {n}
  }

  ghost function WalkedAll(t: Forest, n: Node, nodes: seq<Node>): (w: set<Node>)
    requires Sound(t) && Among(t, n, nodes)
    ensures w <= Region(t, n) && forall m :: m in w ==> !m.cls.DataType?
    decreases t.height[n], 0, |nodes|
  {
    if nodes == [] then {}
    else
      var last := nodes[|nodes| - 1];
      ChildRegion(t, n, last);
      WalkedAll(t, n, nodes[..|nodes| - 1]) + Walked(t, last)
  }

  // ------------------------------------------------------------- stamps as a map

  /** The stamps of a universe of nodes. */
  ghost function Stamps(u: set<Node>): map<Node, Option<Ty>>
    reads u`typ
  {
    map m | m in u :: m.typ
  }

  /** What Annotate answers for a node, worked out from scratch. */
  ghost function AnswerOf(n: Node, d: string, tb: Tables, t: Forest): Option<Ty> {
    if Sound(t) && n in t.args then Final(tb.supportsNull, d, Raw(n, d, tb, t)) else None
  }

  /** A walk replaces no stamp, and gives every node it comes by without one its answer. */
  ghost function AfterWalk(before: map<Node, Option<Ty>>, walked: set<Node>, d: string, tb: Tables, t: Forest):
    map<Node, Option<Ty>>
  {
    map m | m in before :: if before[m].Some? || m !in walked then before[m] else AnswerOf(m, d, tb, t)
  }

  ghost predicate AllStamped(stamps: map<Node, Option<Ty>>, nodes: set<Node>) {
    forall m :: m in nodes ==> m in stamps && stamps[m].Some?
  }

  /** Two walks are one walk over the nodes of both, and the first one's verdict stands. */
  lemma WalksJoin(before: map<Node, Option<Ty>>, v: set<Node>, w: set<Node>, d: string, tb: Tables, t: Forest)
    requires v <= before.Keys
    ensures var first := AfterWalk(before, v, d, tb, t);
            var second := AfterWalk(first, w, d, tb, t);
            && second == AfterWalk(before, v + w, d, tb, t)
            && (AllStamped(second, v) <==> AllStamped(first, v))
            && (AllStamped(second, v + w) <==> AllStamped(first, v) && AllStamped(second, w))
  {
    hide AnswerOf;
  }

  lemma EmptyWalk(before: map<Node, Option<Ty>>, d: string, tb: Tables, t: Forest)
    ensures AfterWalk(before, {}, d, tb, t) == before && AllStamped(before, {})
  {
    hide AnswerOf;
  }

  lemma OneStamp(before: map<Node, Option<Ty>>, n: Node, d: string, tb: Tables, t: Forest)
    requires n in before
    ensures AfterWalk(before, {n}, d, tb, t)
         == if before[n].Some? then before else before[n := AnswerOf(n, d, tb, t)]
  {
    hide AnswerOf;
  }

  // -------------------------------------------------------------------- the walk

  /** AnnotateFully: no stamp is replaced, every node walked that has an answer ends up with it, no other is touched,
      and the result says whether all the nodes walked are stamped. */
  method AnnotateFully(n: Node, d: string, tb: Tables, ghost u: set<Node>) returns (complete: bool)
    requires Remembered(u, tb) && n in u
    modifies u`typ, u`rawType, u`rawTypeDialect, u`rawTypeKnown
    ensures Remembered(u, tb)
    ensures Stamps(u) == AfterWalk(old(Stamps(u)), Walked(ForestOf(u), n), d, tb, ForestOf(u))
    ensures complete <==> AllStamped(Stamps(u), Walked(ForestOf(u), n))
    decreases n.height, 1
  {
    hide AfterWalk, AllStamped, Right, Sound, ForestOf, WalkedAll;
    InForest(u, n);
    if n.cls.DataType? {
      complete := StampAll(n, n.ListOf(EXPRESSIONS), d, tb, u);
      return;
    }
    ghost var below := WalkedAll(ForestOf(u), n, Flatten(n.args));
    WalksJoin(Stamps(u), below, {n}, d, tb, ForestOf(u));
    complete := StampAll(n, Flatten(n.args), d, tb, u);
    var stamped := StampNode(n, d, tb, u);
    complete := complete && stamped;
  }

  /** The node's own stamp, after its arguments'. */
  method StampNode(n: Node, d: string, tb: Tables, ghost u: set<Node>) returns (stamped: bool)
    requires Remembered(u, tb) && n in u
    modifies n`typ, u`rawType, u`rawTypeDialect, u`rawTypeKnown
    ensures Remembered(u, tb)
    ensures Stamps(u) == AfterWalk(old(Stamps(u)), {n}, d, tb, ForestOf(u))
    ensures stamped <==> AllStamped(Stamps(u), {n})
    decreases n.height, 0
  {
    hide Raw, Final, Right, Sound, ForestOf, AfterWalk;
    ghost var before := Stamps(u);
    InForest(u, n);
    OneStamp(before, n, d, tb, ForestOf(u));
    if n.typ.Some? {
      return true;
    }
    var t := Annotate(n, d, tb, u);
    if t.None? {
      assert before[n := None] == before;
      return false;
    }
    n.typ := t;
    assert Stamps(u) == before[n := t];
    return true;
  }

  lemma NothingWalked(t: Forest, n: Node)
    requires Sound(t) && n in t.args
    ensures Among(t, n, []) && WalkedAll(t, n, []) == {}
  {
  }

  lemma OneMoreWalked(t: Forest, n: Node, nodes: seq<Node>, k: nat)
    requires Sound(t) && Among(t, n, nodes) && k < |nodes|
    ensures Among(t, n, nodes[..k]) && Among(t, n, nodes[..k + 1]) && nodes[k] in t.args
    ensures n in t.height && nodes[k] in t.height && t.height[nodes[k]] < t.height[n]
    ensures WalkedAll(t, n, nodes[..k + 1]) == WalkedAll(t, n, nodes[..k]) + Walked(t, nodes[k])
  {
    ArgumentsBelow(t, n);
    hide Walked, Sound;
    assert nodes[..k + 1][..k] == nodes[..k] && nodes[k] in nodes;
  }

  /** The loop over the arguments. */
  method StampAll(n: Node, nodes: seq<Node>, d: string, tb: Tables, ghost u: set<Node>) returns (complete: bool)
    requires Remembered(u, tb) && n in u && Among(ForestOf(u), n, nodes)
    modifies u`typ, u`rawType, u`rawTypeDialect, u`rawTypeKnown
    ensures Remembered(u, tb)
    ensures Stamps(u) == AfterWalk(old(Stamps(u)), WalkedAll(ForestOf(u), n, nodes), d, tb, ForestOf(u))
    ensures complete <==> AllStamped(Stamps(u), WalkedAll(ForestOf(u), n, nodes))
    decreases n.height, 0
  {
    hide AfterWalk, AllStamped, Right, Sound, ForestOf, Walked, WalkedAll, Among, Region;
    InForest(u, n);
    ghost var f, before := ForestOf(u), Stamps(u);
    NothingWalked(f, n);
    EmptyWalk(before, d, tb, f);
    complete := true;
    for k := 0 to |nodes|
      invariant Among(f, n, nodes[..k]) && Remembered(u, tb) && ForestOf(u) == f
      invariant Stamps(u) == AfterWalk(before, WalkedAll(f, n, nodes[..k]), d, tb, f)
      invariant complete <==> AllStamped(Stamps(u), WalkedAll(f, n, nodes[..k]))
    {
      OneMoreWalked(f, n, nodes, k);
      InForest(u, nodes[k]);
      WalksJoin(before, WalkedAll(f, n, nodes[..k]), Walked(f, nodes[k]), d, tb, f);
      var ok := AnnotateFully(nodes[k], d, tb, u);
      complete := ok && complete;
    }
    assert nodes[..|nodes|] == nodes;
  }

  /** A second walk in the same dialect finds nothing left to do. */
  method AnnotateTwice(n: Node, d: string, tb: Tables, ghost u: set<Node>) returns (first: bool, second: bool)
    requires Remembered(u, tb) && n in u
    modifies u`typ, u`rawType, u`rawTypeDialect, u`rawTypeKnown
    ensures Remembered(u, tb) && first == second
    ensures Stamps(u) == AfterWalk(old(Stamps(u)), Walked(ForestOf(u), n), d, tb, ForestOf(u))
  {
    hide AfterWalk, AllStamped, Right, Sound, ForestOf, Walked;
    InForest(u, n);
    WalksJoin(Stamps(u), Walked(ForestOf(u), n), Walked(ForestOf(u), n), d, tb, ForestOf(u));
    assert Walked(ForestOf(u), n) + Walked(ForestOf(u), n) == Walked(ForestOf(u), n);
    first := AnnotateFully(n, d, tb, u);
    second := AnnotateFully(n, d, tb, u);
  }
}

/**
 Runs of the annotator: trees are built, changed, asked about and stamped, as a
 parser and a rewriter do with the nodes they have so far. A run with the memo
 answers as one without.
 */
module AnnotatorRuns {
  import opened Options
  import opened TypeRules
  import opened Nodes
  import opened Annotator
  import opened Adoption
  import opened TreeChanges
  import opened TypeStamps

  /** An argument of a node to be made, its nodes given by their places among those there are. */
  datatype Slot = ChildAt(key: Key, index: nat) | ItemsAt(key: Key, indexes: seq<nat>)

  /** Asking for a node's type, stamping its tree, making a node of nodes there are, or setting an argument of one. */
  datatype Request =
    | Ask(index: nat, dialect: string)
    | Stamp(index: nat, dialect: string)
    | Make(cls: Class, text: string, isString: bool, typed: bool, to: Option<Ty>, slots: seq<Slot>)
    | Change(index: nat, slot: Slot)

  predicate Within(slot: Slot, size: nat) {
    match slot
    case ChildAt(_, index) => index < size
    case ItemsAt(_, indexes) => forall i :: i in indexes ==> i < size
  }

  function Filled(slot: Slot, nodes: seq<Node>): Arg
    requires Within(slot, |nodes|)
  {
    match slot
    case ChildAt(key, index) => Child(key, nodes[index])
    case ItemsAt(key, indexes) =>
      Items(key, seq(|indexes|, k requires 0 <= k < |indexes| => assert indexes[k] in indexes; nodes[indexes[k]]))
  }

  function Resolve(slots: seq<Slot>, nodes: seq<Node>): (args: seq<Arg>)
    requires forall s :: s in slots ==> Within(s, |nodes|)
  {
    if slots == [] then []
    else Resolve(slots[..|slots| - 1], nodes) + [Filled(slots[|slots| - 1], nodes)]
  }

  /** A subscript has an index. */
  predicate HasIndex(slots: seq<Slot>) {
    slots != []
    && var last := slots[|slots| - 1];
       if last.key == EXPRESSIONS then last.ItemsAt? && last.indexes != [] else HasIndex(slots[..|slots| - 1])
  }

  /** Requests that speak only of nodes there are by then. */
  predicate WellFormed(requests: seq<Request>, size: nat) {
    requests == []
    || match requests[0] {
         case Ask(index, _) => index < size && WellFormed(requests[1..], size)
         case Stamp(index, _) => index < size && WellFormed(requests[1..], size)
         case Change(index, slot) => index < size && Within(slot, size) && WellFormed(requests[1..], size)
         case Make(cls, _, _, _, _, slots) =>
           && (forall s :: s in slots ==> Within(s, size)) && (cls.Bracket? ==> HasIndex(slots))
           && WellFormed(requests[1..], size + 1)
       }
  }

  lemma {:induction false} ResolvedNodes(slots: seq<Slot>, nodes: seq<Node>)
    requires forall s :: s in slots ==> Within(s, |nodes|)
    ensures forall c :: c in Flatten(Resolve(slots, nodes)) ==> c in nodes
    ensures HasIndex(slots) ==> FindList(Resolve(slots, nodes), EXPRESSIONS) != []
  {
    if slots == [] {
    } else {
      var args, front := Resolve(slots, nodes), slots[..|slots| - 1];
      ResolvedNodes(front, nodes);
      assert args[..|args| - 1] == Resolve(front, nodes);
      FilledNodes(slots[|slots| - 1], nodes);
    }
  }

  lemma FilledNodes(slot: Slot, nodes: seq<Node>)
    requires Within(slot, |nodes|)
    ensures forall c :: c in NodesOf(Filled(slot, nodes)) ==> c in nodes
  {
    if slot.ItemsAt? {
      var cs := NodesOf(Filled(slot, nodes));
      forall k | 0 <= k < |cs| ensures cs[k] in nodes {
        assert slot.indexes[k] in slot.indexes;
      }
    }
  }

  // ------------------------------------------------------ what would be disturbed

  /** A subtree has one of these nodes, or one of these calls where only the name table has a type for it. */
  ghost predicate Met(t: Forest, n: Node, hit: set<Node>, calls: set<Node>, d: string, tb: Tables)
    requires Sound(t) && n in t.args
  {
    exists m :: m in Region(t, n) && MetAt(m, hit, calls, d, tb)
  }

  predicate MetAt(m: Node, hit: set<Node>, calls: set<Node>, d: string, tb: Tables) {
    m in hit || (m in calls && IsNamedCall(m, d, tb))
  }

  lemma MetBelow(t: Forest, n: Node, hit: set<Node>, calls: set<Node>, d: string, tb: Tables)
    requires Sound(t) && n in t.args
    ensures forall c :: c in Flatten(t.args[n]) ==> c in t.args
    ensures Met(t, n, hit, calls, d, tb)
       <==> MetAt(n, hit, calls, d, tb) || exists c :: c in Flatten(t.args[n]) && Met(t, c, hit, calls, d, tb)
  {
    ArgumentsBelow(t, n);
    hide Sound, MetAt;
    forall m | m in Region(t, n) && m != n && MetAt(m, hit, calls, d, tb)
      ensures exists c :: c in Flatten(t.args[n]) && Met(t, c, hit, calls, d, tb)
    {
      var c := BelowThrough(t, n, m);
      assert Met(t, c, hit, calls, d, tb);
    }
    forall c | c in Flatten(t.args[n]) && Met(t, c, hit, calls, d, tb) ensures Met(t, n, hit, calls, d, tb) {
      ChildRegion(t, n, c);
    }
  }

  method Meets(n: Node, hit: set<Node>, calls: set<Node>, d: string, tb: Tables, ghost u: set<Node>) returns (b: bool)
    requires Sound(ForestOf(u)) && n in u
    ensures b <==> Met(ForestOf(u), n, hit, calls, d, tb)
    decreases n.height
  {
    hide Sound, ForestOf, Met, MetAt;
    InForest(u, n);
    MetBelow(ForestOf(u), n, hit, calls, d, tb);
    if MetAt(n, hit, calls, d, tb) {
      return true;
    }
    var nodes := Flatten(n.args);
    for k := 0 to |nodes|
      invariant forall j :: 0 <= j < k ==> !Met(ForestOf(u), nodes[j], hit, calls, d, tb)
    {
      InForest(u, nodes[k]);
      b := Meets(nodes[k], hit, calls, d, tb, u);
      if b {
        return true;
      }
    }
    return false;
  }

  /** A subtree that was asked about meets these, in the dialect it was asked for. */
  ghost predicate MemoMeets(u: set<Node>, t: Forest, hit: set<Node>, calls: set<Node>, tb: Tables)
    requires Sound(t) && u <= t.args.Keys
    reads u`rawTypeKnown, u`rawTypeDialect
  {
    exists n :: n in u && n.rawTypeKnown && Met(t, n, hit, calls, n.rawTypeDialect, tb)
  }

  method AnyMeets(nodes: seq<Node>, but: set<Node>, hit: set<Node>, calls: set<Node>, tb: Tables, ghost u: set<Node>)
    returns (b: bool)
    requires Sound(ForestOf(u)) && u == SetOf(nodes)
    ensures b <==> MemoMeets(u - but, ForestOf(u), hit, calls, tb)
  {
    hide Sound, ForestOf, Met;
    for k := 0 to |nodes|
      invariant forall j :: 0 <= j < k && nodes[j].rawTypeKnown && nodes[j] !in but ==>
                  !Met(ForestOf(u), nodes[j], hit, calls, nodes[j].rawTypeDialect, tb)
    {
      var n := nodes[k];
      if n.rawTypeKnown && n !in but {
        b := Meets(n, hit, calls, n.rawTypeDialect, tb, u);
        if b {
          return true;
        }
      }
    }
    return false;
  }

  /** Making a node would disturb one that was asked about. */
  ghost predicate MakingUnsettles(u: set<Node>, tb: Tables, t: Forest, cls: Class, args: seq<Arg>)
    requires Sound(t) && u <= t.args.Keys
    reads u`rawTypeKnown, u`rawTypeDialect
  {
    exists n, c :: n in u && n.rawTypeKnown && c in Region(t, n)
                   && IsNamedCall(c, n.rawTypeDialect, tb) && MakingMoves(c, t, cls, args)
  }

  /** Setting an argument of n would disturb another node that was asked about. */
  ghost predicate PuttingUnsettles(u: set<Node>, tb: Tables, t: Forest, n: Node, arg: Arg)
    requires Sound(t) && u <= t.args.Keys && n in t.args
    reads u`rawTypeKnown, u`rawTypeDialect
  {
    exists m :: m in u && m != n && m.rawTypeKnown && Disturbed(m, m.rawTypeDialect, tb, t, PutIn(t, n, arg))
  }

  method CheckMaking(cls: Class, args: seq<Arg>, nodes: seq<Node>, tb: Tables, ghost u: set<Node>) returns (b: bool)
    requires Sound(ForestOf(u)) && u == SetOf(nodes) && forall c :: c in Flatten(args) ==> c in u
    ensures b <==> MakingUnsettles(u, tb, ForestOf(u), cls, args)
  {
    var moved := set c | c in Flatten(args) && IsMethodCall(c) != (cls.Dot? && FindChild(args, EXPRESSION) == c);
    hide Sound, ForestOf, IsNamedCall, Region;
    forall c | c in u ensures c in moved <==> MakingMoves(c, ForestOf(u), cls, args) {
      InForest(u, c);
    }
    hide MakingMoves, Flatten, FindChild;
    assert u - {} == u;
    b := AnyMeets(nodes, {}, {}, moved, tb, u);
  }

  method CallsMoved(n: Node, arg: Arg, nodes: seq<Node>, ghost u: set<Node>) returns (moved: set<Node>)
    requires Sound(ForestOf(u)) && u == SetOf(nodes) && n in u
    ensures forall c :: c in u ==> (c in moved <==> PuttingMoves(c, ForestOf(u), n, arg))
  {
    InForest(u, n);
    var after := SetArg(n.args, arg);
    moved := set c | c in nodes && (c in NodesOf(arg) || c.parent == n)
                     && IsMethodCall(c) != (n.cls.Dot? && FindChild(after, EXPRESSION) == c);
    hide Sound, ForestOf, SetArg, NodesOf, FindChild, IsMethodCall, IsCallIn;
    ParentsRead(u);
    forall c | c in u ensures c in moved <==> PuttingMoves(c, ForestOf(u), n, arg) {
      InForest(u, c);
    }
  }

  lemma PuttingIsMet(m: Node, d: string, tb: Tables, t: Forest, n: Node, arg: Arg, hit: set<Node>, moved: set<Node>)
    requires Sound(t) && m in t.args && n in t.args && hit == if SetArg(t.args[n], arg) == t.args[n] then {} else {n}
    requires forall c :: c in t.args ==> (c in moved <==> PuttingMoves(c, t, n, arg))
    ensures Met(t, m, hit, moved, d, tb) <==> Disturbed(m, d, tb, t, PutIn(t, n, arg))
  {
    PuttingDisturbs(m, d, tb, t, n, arg);
    hide Sound, Region, SetArg, PuttingMoves, IsNamedCall, Disturbed, PutIn;
  }

  method CheckPutting(n: Node, arg: Arg, nodes: seq<Node>, tb: Tables, ghost u: set<Node>) returns (b: bool)
    requires Sound(ForestOf(u)) && u == SetOf(nodes) && n in u
    ensures b <==> PuttingUnsettles(u, tb, ForestOf(u), n, arg)
  {
    hide Sound, ForestOf, SetArg, PuttingMoves, Met, Disturbed, PutIn;
    InForest(u, n);
    var moved := CallsMoved(n, arg, nodes, u);
    var hit := if SetArg(n.args, arg) == n.args then {} else {n};
    forall m, d | m in u
      ensures Met(ForestOf(u), m, hit, moved, d, tb) <==> Disturbed(m, d, tb, ForestOf(u), PutIn(ForestOf(u), n, arg))
    {
      PuttingIsMet(m, d, tb, ForestOf(u), n, arg, hit, moved);
    }
    b := AnyMeets(nodes, {n}, hit, moved, tb, u);
  }

  method CheckAllowed(n: Node, arg: Arg, tb: Tables, ghost u: set<Node>) returns (b: bool)
    requires Sound(ForestOf(u)) && n in u && forall c :: c in NodesOf(arg) ==> c in u
    ensures b <==> MayPut(ForestOf(u), n, arg)
  {
    hide Sound, ForestOf, SetArg, FindList, Region, IsNamedCall;
    InForest(u, n);
    if n.cls.Bracket? && FindList(SetArg(n.args, arg), EXPRESSIONS) == [] {
      return false;
    }
    var nodes := NodesOf(arg);
    for k := 0 to |nodes|
      invariant forall j :: 0 <= j < k ==> n !in Region(ForestOf(u), nodes[j])
    {
      var over := Meets(nodes[k], {n}, {}, "", tb, u);
      if over {
        return false;
      }
    }
    return true;
  }

  // -------------------------------------------------------------------- the runs

  /** What a request makes of the nodes and their forest. */
  ghost predicate Follows(r: Request, nodes: seq<Node>, a: Forest, after: seq<Node>, b: Forest) {
    match r
    case Ask(_, _) => after == nodes && b == a
    case Stamp(_, _) => after == nodes && b == a
    case Change(index, slot) =>
      && index < |nodes| && Within(slot, |nodes|) && nodes[index] in a.args
      && after == nodes && SameTrees(b, PutIn(a, nodes[index], Filled(slot, nodes)))
    case Make(cls, text, isString, typed, to, slots) =>
      && (forall s :: s in slots ==> Within(s, |nodes|))
      && |after| == |nodes| + 1 && after[..|nodes|] == nodes
      && var p := after[|nodes|];
         && p.cls == cls && p.text == text && p.isString == isString && p.typed == typed && p.to == to
         && p !in a.args && SameTrees(b, MadeIn(a, p, Resolve(slots, nodes)))
  }

  /** Why a request may be declined: it would disturb a node that was asked about, or leave no tree. */
  ghost predicate Unfit(r: Request, nodes: seq<Node>, u: set<Node>, tb: Tables, t: Forest)
    requires Sound(t) && u <= t.args.Keys
    reads u`rawTypeKnown, u`rawTypeDialect
  {
    match r
    case Ask(_, _) => false
    case Stamp(_, _) => false
    case Change(index, slot) =>
      && index < |nodes| && Within(slot, |nodes|) && nodes[index] in t.args
      && (!MayPut(t, nodes[index], Filled(slot, nodes))
          || PuttingUnsettles(u, tb, t, nodes[index], Filled(slot, nodes)))
    case Make(cls, _, _, _, _, slots) =>
      (forall s :: s in slots ==> Within(s, |nodes|)) && MakingUnsettles(u, tb, t, cls, Resolve(slots, nodes))
  }

  /** Unless it is unsettling, making a node leaves what is remembered right. */
  lemma SettledMaking(u: set<Node>, tb: Tables, t: Forest, p: Node, args: seq<Arg>, after: Forest)
    requires Sound(t) && Sound(after) && t.args.Keys == u && u <= after.args.Keys && p !in u
    requires SameTrees(after, MadeIn(t, p, args)) && forall c :: c in Flatten(args) ==> c in t.args
    requires !MakingUnsettles(u, tb, t, p.cls, args)
    ensures DisturbedKeep(u, tb, t, after)
  {
    hide Raw, Sound, Disturbed, MadeIn, IsNamedCall, Region, MakingMoves;
    forall n | n in u && n.rawTypeKnown ensures !Disturbed(n, n.rawTypeDialect, tb, t, after) {
      SameTreesDisturbAlike(n, n.rawTypeDialect, tb, t, after, MadeIn(t, p, args));
      MakingDisturbs(n, n.rawTypeDialect, tb, t, p, args);
    }
  }

  method MakeNode(cls: Class, text: string, isString: bool, typed: bool, to: Option<Ty>, args: seq<Arg>, tb: Tables,
                  ghost u: set<Node>)
    returns (p: Node)
    requires Remembered(u, tb) && forall c :: c in Flatten(args) ==> c in u
    requires cls.Bracket? ==> FindList(args, EXPRESSIONS) != []
    requires !MakingUnsettles(u, tb, ForestOf(u), cls, args)
    modifies SetOf(Flatten(args))`parent
    ensures fresh(p) && p.cls == cls && p.text == text && p.isString == isString && p.typed == typed && p.to == to
    ensures Remembered(u + {p}, tb) && SameTrees(ForestOf(u + {p}), MadeIn(old(ForestOf(u)), p, args))
  {
    hide Raw, Sound, Right, Disturbed, DisturbedKeep, MadeIn, ForestOf, SameTrees, Linked, Noisy, MakingUnsettles;
    ghost var before := ForestOf(u);
    p := Build(cls, text, isString, typed, to, args, tb, u);
    SettledMaking(u, tb, before, p, args, ForestOf(u + {p}));
  }

  lemma SettledPutting(u: set<Node>, tb: Tables, t: Forest, n: Node, arg: Arg, after: Forest)
    requires Sound(t) && Sound(after) && t.args.Keys == u == after.args.Keys && n in u && !n.rawTypeKnown
    requires SameTrees(after, PutIn(t, n, arg)) && !PuttingUnsettles(u, tb, t, n, arg)
    ensures DisturbedKeep(u, tb, t, after)
  {
    hide Raw, Sound, Disturbed, PutIn;
    forall m | m in u && m.rawTypeKnown ensures !Disturbed(m, m.rawTypeDialect, tb, t, after) {
      SameTreesDisturbAlike(m, m.rawTypeDialect, tb, t, after, PutIn(t, n, arg));
    }
  }

  method ChangeNode(n: Node, arg: Arg, tb: Tables, ghost u: set<Node>)
    requires Remembered(u, tb) && MayPut(ForestOf(u), n, arg) && !PuttingUnsettles(u, tb, ForestOf(u), n, arg)
    modifies n`args, n`rawTypeKnown, SetOf(NodesOf(arg))`parent, u`height
    ensures Remembered(u, tb) && SameTrees(ForestOf(u), PutIn(old(ForestOf(u)), n, arg))
  {
    hide Raw, Sound, Right, Disturbed, DisturbedKeep, PutIn, ForestOf, SameTrees, MayPut;
    ghost var before := ForestOf(u);
    assert n in u by {
      MayPutThere(before, n, arg);
    }
    Put(n, arg, tb, u);
    assert !PuttingUnsettles(u, tb, before, n, arg);
    hide PuttingUnsettles;
    SettledPutting(u, tb, before, n, arg, ForestOf(u));
  }

  /** One request, answered, done or declined; declined only where it is unfit. */
  method ServeOne(r: Request, nodes: seq<Node>, tb: Tables, ghost u: set<Node>)
    returns (served: bool, t: Option<Ty>, after: seq<Node>, ghost v: set<Node>)
    requires Remembered(u, tb) && u == SetOf(nodes) && WellFormed([r], |nodes|)
    modifies u
    ensures Remembered(v, tb) && u <= v && fresh(v - u) && v == SetOf(after)
    ensures served ==> Follows(r, nodes, old(ForestOf(u)), after, ForestOf(v))
    ensures served && r.Ask? ==> r.index < |nodes| && t == AnswerOf(nodes[r.index], r.dialect, tb, ForestOf(v))
    ensures !served ==> after == nodes && v == u && ForestOf(u) == old(ForestOf(u))
    ensures !served ==> Unfit(r, nodes, u, tb, ForestOf(u))
  {
    hide Raw, Right, Sound, ForestOf, SameTrees, PutIn, MadeIn, AnswerOf, AfterWalk, AllStamped, Walked, Resolve;
    hide MayPut;
    hide MakingUnsettles, PuttingUnsettles;
    served, t, after, v := true, None, nodes, u;
    match r {
      case Ask(index, d) =>
        t := AskNode(nodes[index], d, tb, u);
      case Stamp(index, d) =>
        var _ := AnnotateFully(nodes[index], d, tb, u);
      case Change(index, slot) =>
        FilledNodes(slot, nodes);
        served := TryChange(nodes[index], Filled(slot, nodes), nodes, tb, u);
      case Make(cls, text, isString, typed, to, slots) =>
        var args := Resolve(slots, nodes);
        ResolvedNodes(slots, nodes);
        var unfit := CheckMaking(cls, args, nodes, tb, u);
        if unfit {
          served := false;
          return;
        }
        var p := MakeNode(cls, text, isString, typed, to, args, tb, u);
        after := nodes + [p];
        v := u + {p};
    }
  }

  method AskNode(n: Node, d: string, tb: Tables, ghost u: set<Node>) returns (t: Option<Ty>)
    requires Remembered(u, tb) && n in u
    modifies u`rawType, u`rawTypeDialect, u`rawTypeKnown
    ensures Remembered(u, tb) && t == AnswerOf(n, d, tb, ForestOf(u))
  {
    hide Raw, Sound, Right, ForestOf;
    t := Annotate(n, d, tb, u);
  }

  method TryChange(n: Node, arg: Arg, nodes: seq<Node>, tb: Tables, ghost u: set<Node>) returns (served: bool)
    requires Remembered(u, tb) && u == SetOf(nodes) && n in u && forall c :: c in NodesOf(arg) ==> c in u
    modifies u
    ensures Remembered(u, tb)
    ensures served ==> SameTrees(ForestOf(u), PutIn(old(ForestOf(u)), n, arg))
    ensures !served ==> ForestOf(u) == old(ForestOf(u))
    ensures !served ==> !MayPut(ForestOf(u), n, arg) || PuttingUnsettles(u, tb, ForestOf(u), n, arg)
  {
    hide Raw, Right, Sound, ForestOf, SameTrees, PutIn, MayPut, PuttingUnsettles;
    var allowed := CheckAllowed(n, arg, tb, u);
    if !allowed {
      return false;
    }
    var unfit := CheckPutting(n, arg, nodes, tb, u);
    if unfit {
      return false;
    }
    ChangeNode(n, arg, tb, u);
    return true;
  }

  /** The stages of a run without a memo: the nodes and the forest before each request and after the last, and the
      answers, each worked out from scratch on the forest there is when it is asked for. */
  ghost predicate IsRun(requests: seq<Request>, stages: seq<seq<Node>>, forests: seq<Forest>, answers: seq<Option<Ty>>,
                        tb: Tables) {
    && |stages| == |forests| == |answers| + 1 && |requests| == |answers|
    && (forall k :: 0 <= k < |forests| ==> Sound(forests[k]) && forests[k].args.Keys == SetOf(stages[k]))
    && forall k :: 0 <= k < |requests| ==>
         && Follows(requests[k], stages[k], forests[k], stages[k + 1], forests[k + 1])
         && (requests[k].Ask? ==>
               && requests[k].index < |stages[k]|
               && answers[k] == AnswerOf(stages[k][requests[k].index], requests[k].dialect, tb, forests[k]))
  }

  lemma OneMore(requests: seq<Request>, stages: seq<seq<Node>>, forests: seq<Forest>, answers: seq<Option<Ty>>,
                tb: Tables, r: Request, after: seq<Node>, t: Option<Ty>, b: Forest)
    requires IsRun(requests, stages, forests, answers, tb)
    requires Sound(b) && b.args.Keys == SetOf(after)
    requires Follows(r, stages[|answers|], forests[|answers|], after, b)
    requires r.Ask? ==> r.index < |after| && t == AnswerOf(after[r.index], r.dialect, tb, b)
    ensures IsRun(requests + [r], stages + [after], forests + [b], answers + [t], tb)
  {
    hide Sound, AnswerOf;
    var n := |answers|;
    forall k | 0 <= k < |requests + [r]|
      ensures Follows((requests + [r])[k], (stages + [after])[k], (forests + [b])[k], (stages + [after])[k + 1],
                      (forests + [b])[k + 1])
    {
      assert k < n ==> Follows(requests[k], stages[k], forests[k], stages[k + 1], forests[k + 1]);
    }
  }

  lemma NextWellFormed(requests: seq<Request>, size: nat)
    requires requests != [] && WellFormed(requests, size)
    ensures WellFormed([requests[0]], size)
    ensures WellFormed(requests[1..], size + if requests[0].Make? then 1 else 0)
  {
    hide HasIndex, Within;
  }

  /** Whatever is made, changed, asked and stamped, in whatever order and under whatever dialects, a run with the memo
      is a run without one, answer for answer. It only stops short before a request that would disturb a node that was
      asked about, or close a cycle, or leave a subscript without an index. */
  method Serve(requests: seq<Request>, pool: seq<Node>, tb: Tables, ghost u: set<Node>)
    returns (nodes: seq<Node>, answers: seq<Option<Ty>>, ghost all: set<Node>, ghost stages: seq<seq<Node>>,
             ghost forests: seq<Forest>)
    requires Remembered(u, tb) && u == SetOf(pool) && WellFormed(requests, |pool|)
    modifies u
    ensures Remembered(all, tb) && |answers| <= |requests|
    ensures IsRun(requests[..|answers|], stages, forests, answers, tb)
    ensures stages[0] == pool && forests[0] == old(ForestOf(u))
    ensures stages[|answers|] == nodes && forests[|answers|] == ForestOf(all)
    ensures |answers| < |requests| ==> Unfit(requests[|answers|], nodes, all, tb, ForestOf(all))
  {
    hide Right, Sound, ForestOf, WellFormed, AnswerOf, Follows, Unfit, IsRun;
    nodes, answers, all, stages, forests := pool, [], u, [pool], [ForestOf(u)];
    assert IsRun([], stages, forests, [], tb) by {
      NoRequests(pool, ForestOf(u), tb);
    }
    assert requests[0..] == requests && requests[..0] == [];
    for i := 0 to |requests|
      invariant Remembered(all, tb) && fresh(all - u) && all == SetOf(nodes) && |answers| == i
      invariant WellFormed(requests[i..], |nodes|) && IsRun(requests[..i], stages, forests, answers, tb)
      invariant |stages| == |forests| == i + 1 && stages[0] == pool && forests[0] == old(ForestOf(u))
      invariant stages[i] == nodes && forests[i] == ForestOf(all)
    {
      var r := requests[i];
      assert requests[i..][0] == r && requests[i..][1..] == requests[i + 1..];
      assert requests[..i + 1] == requests[..i] + [r];
      NextWellFormed(requests[i..], |nodes|);
      ghost var before := ForestOf(all);
      var served, t, after, v := ServeOne(r, nodes, tb, all);
      all := v;
      if !served {
        return;
      }
      NodesCounted(r, nodes, before, after, ForestOf(v), t, tb);
      OneMore(requests[..i], stages, forests, answers, tb, r, after, t, ForestOf(v));
      nodes, answers, stages, forests := after, answers + [t], stages + [after], forests + [ForestOf(v)];
    }
    assert requests[..|requests|] == requests;
  }

  lemma NoRequests(pool: seq<Node>, t: Forest, tb: Tables)
    requires Sound(t) && t.args.Keys == SetOf(pool)
    ensures IsRun([], [pool], [t], [], tb)
  {
  }

  lemma NodesCounted(r: Request, nodes: seq<Node>, a: Forest, after: seq<Node>, b: Forest, t: Option<Ty>, tb: Tables)
    requires Follows(r, nodes, a, after, b)
    ensures |after| == |nodes| + if r.Make? then 1 else 0
    ensures r.Ask? ==> after == nodes
  {
  }

  /** An answer stays right for as long as nothing done disturbs the subtree it is of. */
  lemma {:induction false} AnswersStay(requests: seq<Request>, stages: seq<seq<Node>>, forests: seq<Forest>,
                                       answers: seq<Option<Ty>>, tb: Tables, n: Node, d: string, i: nat, j: nat)
    requires IsRun(requests, stages, forests, answers, tb) && i <= j < |forests| && n in forests[i].args
    requires forall k :: i <= k < j && n in forests[k].args ==>
               Sound(forests[k]) && !Disturbed(n, d, tb, forests[k], forests[k + 1])
    ensures n in forests[j].args && AnswerOf(n, d, tb, forests[j]) == AnswerOf(n, d, tb, forests[i])
    decreases j - i
  {
    hide Raw, Final, Sound, Disturbed;
    if i == j {
    } else {
      AnswersStay(requests, stages, forests, answers, tb, n, d, i, j - 1);
      NodesStay(requests[j - 1], stages[j - 1], forests[j - 1], stages[j], forests[j], n);
      SubtreeDecides(n, d, tb, forests[j - 1], forests[j]);
    }
  }

  lemma NodesStay(r: Request, nodes: seq<Node>, a: Forest, after: seq<Node>, b: Forest, n: Node)
    requires Follows(r, nodes, a, after, b) && n in a.args
    ensures n in b.args
  {
  }
}

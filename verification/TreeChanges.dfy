/**
 New and Set on trees that have been asked about (sqlglot/expression.go and the
 memo of sqlglot/annotate.go): what the forest is afterwards, and exactly when
 what is remembered is still right.
 */
module TreeChanges {
  import opened Options
  import opened TypeRules
  import opened Nodes
  import opened Annotator
  import opened Adoption

  function Adopted(parent: map<Node, Node?>, nodes: seq<Node>, p: Node): map<Node, Node?> {
    map m | m in parent :: if m in nodes then p else parent[m]
  }

  /** The forest after an argument of n is set. A node that was replaced still has n for its parent. */
  ghost function PutIn(t: Forest, n: Node, arg: Arg): Forest
    requires n in t.args
  {
    Forest(t.args[n := SetArg(t.args[n], arg)], Adopted(t.parent, NodesOf(arg), n), t.height)
  }

  /** The forest after p is made of nodes in it. */
  ghost function MadeIn(t: Forest, p: Node, args: seq<Arg>): Forest {
    Forest(t.args[p := SetAll(args)], Adopted(t.parent, Flatten(args), p)[p := null], t.height)
  }

  /** The same but for the heights, which only show that there is no cycle. */
  ghost predicate SameTrees(a: Forest, b: Forest) {
    a.args == b.args && a.parent == b.parent
  }

  lemma SameTreesDisturbAlike(n: Node, d: string, tb: Tables, t: Forest, a: Forest, b: Forest)
    requires Sound(t) && n in t.args && SameTrees(a, b)
    ensures Disturbed(n, d, tb, t, a) == Disturbed(n, d, tb, t, b)
  {
    hide Sound;
    assert forall m :: m in Region(t, n) ==> IsCallIn(a, m) == IsCallIn(b, m);
  }

  /** An argument may be set if that closes no cycle, and a subscript keeps an index. */
  ghost predicate MayPut(t: Forest, n: Node, arg: Arg)
    requires Sound(t)
  {
    && n in t.args
    && (forall c :: c in NodesOf(arg) ==> c in t.args && n !in Region(t, c))
    && (n.cls.Bracket? ==> FindList(SetArg(t.args[n], arg), EXPRESSIONS) != [])
  }

  /** The nodes whose subtree n is in. */
  ghost function Over(t: Forest, n: Node): (over: set<Node>)
    requires Sound(t)
    ensures over <= t.args.Keys
  {
    set m | m in t.args && n in Region(t, m)
  }

  ghost function Raised(height: map<Node, nat>, over: set<Node>, k: nat): map<Node, nat> {
    map m | m in height :: if m in over then height[m] + k else height[m]
  }

  /** Raising n and what stands over it makes room for what is put under n. */
  lemma PutIsSound(t: Forest, n: Node, arg: Arg, k: nat, after: Forest)
    requires Sound(t) && MayPut(t, n, arg) && SameTrees(after, PutIn(t, n, arg))
    requires after.height == Raised(t.height, Over(t, n), k)
    requires forall c :: c in NodesOf(arg) ==> c in t.height && t.height[c] < k
    ensures Sound(after)
  {
    hide Acyclic, ParentsIn, Indexed, Raised;
    AdoptedStayIn(t, NodesOf(arg), n, after);
    PutKeepsIndexes(t, n, arg, after);
    hide PutIn, MayPut;
    PutIsAcyclic(t, n, arg, k, after);
  }

  lemma PutIsAcyclic(t: Forest, n: Node, arg: Arg, k: nat, after: Forest)
    requires Sound(t) && MayPut(t, n, arg) && SameTrees(after, PutIn(t, n, arg))
    requires after.height == Raised(t.height, Over(t, n), k)
    requires forall c :: c in NodesOf(arg) ==> c in t.height && t.height[c] < k
    ensures Acyclic(after)
  {
    hide ParentsIn, Indexed, FindList, SetArg, Flatten, Region;
    forall m, c | m in after.args && c in Flatten(after.args[m])
      ensures c in after.args && after.height[c] < after.height[m]
    {
      if c in Flatten(t.args[m]) {
        ChildRegion(t, m, c);
      } else {
        assert m == n && c in NodesOf(arg) && n !in Region(t, c);
        SelfInRegion(t, n);
      }
    }
  }

  lemma SelfInRegion(t: Forest, n: Node)
    requires Sound(t) && n in t.args
    ensures n in Region(t, n)
  {
  }

  lemma PutKeepsIndexes(t: Forest, n: Node, arg: Arg, after: Forest)
    requires Sound(t) && MayPut(t, n, arg) && SameTrees(after, PutIn(t, n, arg))
    ensures Indexed(after)
  {
    hide Acyclic, ParentsIn, FindList, SetArg;
  }

  lemma AdoptedStayIn(t: Forest, nodes: seq<Node>, p: Node, after: Forest)
    requires ParentsIn(t) && p in after.args && t.args.Keys + {p} == after.args.Keys
    requires after.parent == Adopted(t.parent, nodes, p) || (after.parent == Adopted(t.parent, nodes, p)[p := null])
    requires p !in t.args ==> p in after.parent
    ensures ParentsIn(after)
  {
  }

  lemma MadeIsSound(t: Forest, p: Node, args: seq<Arg>, after: Forest)
    requires Sound(t) && p !in t.args && (forall c :: c in Flatten(args) ==> c in t.args)
    requires SameTrees(after, MadeIn(t, p, args)) && after.height.Keys == after.args.Keys
    requires forall m :: m in t.args ==> after.height[m] == t.height[m]
    requires forall c :: c in Flatten(args) ==> t.height[c] < after.height[p]
    requires p.cls.Bracket? ==> FindList(args, EXPRESSIONS) != []
    ensures Sound(after)
  {
    hide Acyclic, ParentsIn, Indexed, FindList, SetAll, Adopted;
    AdoptedStayIn(t, Flatten(args), p, after);
    MadeIsIndexed(t, p, args, after);
    MadeIsAcyclic(t, p, args, after);
  }

  lemma MadeIsIndexed(t: Forest, p: Node, args: seq<Arg>, after: Forest)
    requires Indexed(t) && after.args == t.args[p := SetAll(args)]
    requires p.cls.Bracket? ==> FindList(args, EXPRESSIONS) != []
    ensures Indexed(after)
  {
    FindAfterSetAll(args, EXPRESSIONS);
    hide FindList, SetAll;
  }

  lemma MadeIsAcyclic(t: Forest, p: Node, args: seq<Arg>, after: Forest)
    requires Acyclic(t) && p !in t.args
    requires after.args == t.args[p := SetAll(args)] && after.height.Keys == after.args.Keys
    requires forall m :: m in t.args ==> after.height[m] == t.height[m]
    requires forall c :: c in Flatten(args) ==> c in t.args && t.height[c] < after.height[p]
    ensures Acyclic(after)
  {
    hide FindList, SetAll, Flatten;
  }

  // ------------------------------------------------------------------- as they run

  method SetIn(n: Node, arg: Arg, ghost u: set<Node>)
    requires n in u && forall c :: c in NodesOf(arg) ==> c in u
    modifies n`args, n`rawTypeKnown, SetOf(NodesOf(arg))`parent
    ensures ArgsOf(u) == old(ArgsOf(u))[n := SetArg(old(n.args), arg)] && !n.rawTypeKnown
    ensures ParentsOf(u) == Adopted(old(ParentsOf(u)), NodesOf(arg), n)
  {
    hide SetArg;
    n.Set(arg);
  }

  /** Room for what was put under a node. */
  ghost method Raise(u: set<Node>, over: set<Node>, k: nat)
    requires over <= u
    modifies u`height
    ensures HeightsOf(u) == Raised(old(HeightsOf(u)), over, k)
  {
    forall m | m in over {
      m.height := m.height + k;
    }
  }

  /** Set, on a node of a universe. */
  method PutSoundly(n: Node, arg: Arg, ghost u: set<Node>)
    requires Sound(ForestOf(u)) && MayPut(ForestOf(u), n, arg)
    modifies n`args, n`rawTypeKnown, SetOf(NodesOf(arg))`parent, u`height
    ensures Sound(ForestOf(u)) && SameTrees(ForestOf(u), PutIn(old(ForestOf(u)), n, arg)) && !n.rawTypeKnown
  {
    hide Sound, Region, TallestOf, SetArg, Adopted, Over, Raised, ArgsOf, ParentsOf, HeightsOf, SetOf, FindList;
    ghost var before := ForestOf(u);
    ghost var k := 1 + TallestOf(NodesOf(arg));
    TallestBounds(NodesOf(arg));
    ArgumentsRead(before, n, arg, u);
    hide MayPut;
    SetIn(n, arg, u);
    Raise(u, Over(before, n), k);
    PutIsSound(before, n, arg, k, ForestOf(u));
  }

  lemma ArgumentsRead(t: Forest, n: Node, arg: Arg, u: set<Node>)
    requires t == ForestOf(u) && Sound(t) && MayPut(t, n, arg)
    ensures n in u && n.args == t.args[n] && t.args.Keys == u
    ensures forall c :: c in NodesOf(arg) ==> c in u && c in t.height && t.height[c] == c.height
  {
    hide Region, SetArg, FindList;
  }

  /** What is remembered is right afterwards exactly if the types of disturbed nodes are the same, and no other type
      changes in any dialect. */
  method Put(n: Node, arg: Arg, tb: Tables, ghost u: set<Node>)
    requires Remembered(u, tb) && MayPut(ForestOf(u), n, arg)
    modifies n`args, n`rawTypeKnown, SetOf(NodesOf(arg))`parent, u`height
    ensures Sound(ForestOf(u)) && SameTrees(ForestOf(u), PutIn(old(ForestOf(u)), n, arg)) && !n.rawTypeKnown
    ensures old(Linked(ForestOf(u))) ==> Linked(ForestOf(u))
    ensures Remembered(u, tb) <==> DisturbedKeep(u, tb, old(ForestOf(u)), ForestOf(u))
    ensures forall m, d :: m in u && !Disturbed(m, d, tb, old(ForestOf(u)), ForestOf(u)) ==>
              Raw(m, d, tb, ForestOf(u)) == Raw(m, d, tb, old(ForestOf(u)))
  {
    hide Raw, Sound, MayPut, Disturbed, DisturbedKeep, PutIn, ForestOf, SameTrees, Linked, NodesOf;
    ghost var before := ForestOf(u);
    MayPutThere(before, n, arg);
    PutSoundly(n, arg, u);
    LinkedAfterPutting(before, n, arg, ForestOf(u));
    assert Right(u, tb, before);
    hide Right;
    UndisturbedTypes(u, tb, before, ForestOf(u));
    StaysRightIff(u, tb, before, ForestOf(u));
  }

  lemma MayPutThere(t: Forest, n: Node, arg: Arg)
    requires Sound(t) && MayPut(t, n, arg)
    ensures n in t.args && forall c :: c in NodesOf(arg) ==> c in t.args
  {
  }

  lemma UndisturbedTypes(u: set<Node>, tb: Tables, a: Forest, b: Forest)
    requires Sound(a) && Sound(b) && u <= a.args.Keys && u <= b.args.Keys
    ensures forall m, d :: m in u && !Disturbed(m, d, tb, a, b) ==> Raw(m, d, tb, b) == Raw(m, d, tb, a)
  {
    hide Raw, Sound, Disturbed;
    forall m, d | m in u && !Disturbed(m, d, tb, a, b) ensures Raw(m, d, tb, b) == Raw(m, d, tb, a) {
      SubtreeDecides(m, d, tb, a, b);
    }
  }

  lemma PlacedReads(u: set<Node>, p: Node, args: seq<Arg>, t: Forest, after: Forest)
    requires p !in u && after == ForestOf(u + {p}) && t.args.Keys == t.parent.Keys == t.height.Keys == u
    requires forall m :: m in u ==> m.args == t.args[m] && m.height == t.height[m]
    requires forall m :: m in u ==> m.parent == if m in Flatten(args) then p else t.parent[m]
    requires p.args == SetAll(args) && p.parent == null
    requires forall c :: c in Flatten(args) ==> c in u && c.height < p.height
    ensures SameTrees(after, MadeIn(t, p, args)) && after.height.Keys == after.args.Keys
    ensures forall m :: m in t.args ==> after.height[m] == t.height[m]
    ensures forall c :: c in Flatten(args) ==> t.height[c] < after.height[p]
  {
    hide SetAll, Flatten;
    PlacedParents(u, p, args, t.parent);
    PlacedArguments(u, p, args, t.args);
    PlacedHeights(u, p, t.height);
    hide ArgsOf, ParentsOf, HeightsOf, Adopted;
  }

  lemma PlacedArguments(u: set<Node>, p: Node, args: seq<Arg>, had: map<Node, seq<Arg>>)
    requires p !in u && had.Keys == u && p.args == SetAll(args) && forall m :: m in u ==> m.args == had[m]
    ensures ArgsOf(u + {p}) == had[p := SetAll(args)]
  {
    hide SetAll;
  }

  lemma PlacedHeights(u: set<Node>, p: Node, height: map<Node, nat>)
    requires p !in u && height.Keys == u && forall m :: m in u ==> m.height == height[m]
    ensures HeightsOf(u + {p}) == height[p := p.height]
  {
  }

  lemma PlacedParents(u: set<Node>, p: Node, args: seq<Arg>, parent: map<Node, Node?>)
    requires p !in u && parent.Keys == u && p.parent == null
    requires forall m :: m in u ==> m.parent == if m in Flatten(args) then p else parent[m]
    ensures ParentsOf(u + {p}) == Adopted(parent, Flatten(args), p)[p := null]
  {
    hide Flatten;
  }

  lemma ParentsRead(u: set<Node>)
    ensures ForestOf(u).parent.Keys == u && forall c :: c in u ==> ForestOf(u).parent[c] == c.parent
  {
  }

  /** New, on nodes of a universe. */
  method Place(cls: Class, text: string, isString: bool, typed: bool, to: Option<Ty>, args: seq<Arg>,
               ghost u: set<Node>)
    returns (p: Node)
    requires Sound(ForestOf(u)) && forall c :: c in Flatten(args) ==> c in u
    requires cls.Bracket? ==> FindList(args, EXPRESSIONS) != []
    modifies SetOf(Flatten(args))`parent
    ensures fresh(p) && p.cls == cls && p.text == text && p.isString == isString && p.typed == typed && p.to == to
    ensures p.typ == None && !p.rawTypeKnown
    ensures Sound(ForestOf(u + {p})) && SameTrees(ForestOf(u + {p}), MadeIn(old(ForestOf(u)), p, args))
  {
    ghost var before := ForestOf(u);
    assert before.parent.Keys == before.height.Keys == u;
    hide Sound, SetAll, FindList;
    p := new Node(cls, text, isString, typed, to, args);
    PlacedReads(u, p, args, before, ForestOf(u + {p}));
    MadeIsSound(before, p, args, ForestOf(u + {p}));
  }

  /** What is remembered is right afterwards exactly if the types of disturbed nodes are the same, and no other type
      changes in any dialect. Where the nodes adopted stood alone, exactly if none of them is noisy. */
  method Build(cls: Class, text: string, isString: bool, typed: bool, to: Option<Ty>, args: seq<Arg>, tb: Tables,
               ghost u: set<Node>)
    returns (p: Node)
    requires Remembered(u, tb) && forall c :: c in Flatten(args) ==> c in u
    requires cls.Bracket? ==> FindList(args, EXPRESSIONS) != []
    modifies SetOf(Flatten(args))`parent
    ensures fresh(p) && p.cls == cls && p.text == text && p.isString == isString && p.typed == typed && p.to == to
    ensures p.typ == None && !p.rawTypeKnown
    ensures Sound(ForestOf(u + {p})) && SameTrees(ForestOf(u + {p}), MadeIn(old(ForestOf(u)), p, args))
    ensures old(Linked(ForestOf(u))) ==> Linked(ForestOf(u + {p}))
    ensures Remembered(u + {p}, tb) <==> DisturbedKeep(u, tb, old(ForestOf(u)), ForestOf(u + {p}))
    ensures forall m, d :: m in u && !Disturbed(m, d, tb, old(ForestOf(u)), ForestOf(u + {p})) ==>
              Raw(m, d, tb, ForestOf(u + {p})) == Raw(m, d, tb, old(ForestOf(u)))
    ensures old(Linked(ForestOf(u)) && forall c :: c in Flatten(args) ==> c.parent == null) ==>
              (Remembered(u + {p}, tb) <==> forall c :: c in u ==> !Noisy(c, tb, old(ForestOf(u)), ForestOf(u + {p})))
  {
    hide Raw, Sound, Disturbed, DisturbedKeep, MadeIn, ForestOf, SameTrees, Linked, Noisy;
    ghost var before := ForestOf(u);
    ghost var alone := Linked(before) && forall c :: c in Flatten(args) ==> c.parent == null;
    ParentsRead(u);
    p := Place(cls, text, isString, typed, to, args, u);
    ghost var after := ForestOf(u + {p});
    assert Right(u, tb, before);
    assert Right(u + {p}, tb, after) == Right(u, tb, after);
    hide Right;
    UndisturbedTypes(u, tb, before, after);
    StaysRightIff(u, tb, before, after);
    LinkedAfterMaking(before, p, args, after);
    if alone {
      LoneAdoption(u, tb, before, p, args, after);
    }
  }

  // ------------------------------------------------------------- which are disturbed

  /** Making a node disturbs the subtrees with a call that only the name table has a type for, and that it puts behind a
      dot or takes from there. */
  lemma MakingDisturbs(n: Node, d: string, tb: Tables, t: Forest, p: Node, args: seq<Arg>)
    requires Sound(t) && n in t.args && p !in t.args && forall c :: c in Flatten(args) ==> c in t.args
    ensures Disturbed(n, d, tb, t, MadeIn(t, p, args))
       <==> exists c :: c in Region(t, n) && IsNamedCall(c, d, tb) && MakingMoves(c, t, p.cls, args)
  {
    hide Sound, IsNamedCall, SetAll, Flatten, FindChild;
    forall m | m in Region(t, n)
      ensures ChangedAt(m, d, tb, t, MadeIn(t, p, args)) <==> IsNamedCall(m, d, tb) && MakingMoves(m, t, p.cls, args)
    {
      CallAfterMaking(m, t, p, args);
    }
  }

  ghost predicate MakingMoves(c: Node, t: Forest, cls: Class, args: seq<Arg>) {
    c in Flatten(args) && IsCallIn(t, c) != (cls.Dot? && FindChild(args, EXPRESSION) == c)
  }

  lemma CallAfterMaking(m: Node, t: Forest, p: Node, args: seq<Arg>)
    requires Sound(t) && m in t.args && p !in t.args
    ensures IsCallIn(MadeIn(t, p, args), m)
         == if m in Flatten(args) then p.cls.Dot? && FindChild(args, EXPRESSION) == m else IsCallIn(t, m)
  {
    FindAfterSetAll(args, EXPRESSION);
    hide SetAll, Flatten, FindChild;
  }

  /** Setting an argument of n disturbs what stands over n, unless nothing changes, and the subtrees with a call that
      becomes a method call of n's or ceases to be one. */
  lemma PuttingDisturbs(m: Node, d: string, tb: Tables, t: Forest, n: Node, arg: Arg)
    requires Sound(t) && m in t.args && n in t.args
    ensures Disturbed(m, d, tb, t, PutIn(t, n, arg))
       <==> || (n in Region(t, m) && SetArg(t.args[n], arg) != t.args[n])
            || exists c :: c in Region(t, m) && IsNamedCall(c, d, tb) && PuttingMoves(c, t, n, arg)
  {
    hide Sound, IsNamedCall, SetArg, NodesOf, FindChild;
    forall c | c in Region(t, m)
      ensures ChangedAt(c, d, tb, t, PutIn(t, n, arg))
         <==> (c == n && SetArg(t.args[n], arg) != t.args[n]) || (IsNamedCall(c, d, tb) && PuttingMoves(c, t, n, arg))
    {
      CallAfterPutting(c, t, n, arg);
    }
  }

  ghost predicate PuttingMoves(c: Node, t: Forest, n: Node, arg: Arg)
    requires n in t.args
  {
    && (c in NodesOf(arg) || (c in t.parent && t.parent[c] == n))
    && IsCallIn(t, c) != (n.cls.Dot? && FindChild(SetArg(t.args[n], arg), EXPRESSION) == c)
  }

  lemma CallAfterPutting(c: Node, t: Forest, n: Node, arg: Arg)
    requires Sound(t) && c in t.args && n in t.args
    ensures IsCallIn(PutIn(t, n, arg), c)
         == if c in NodesOf(arg) || t.parent[c] == n
            then n.cls.Dot? && FindChild(SetArg(t.args[n], arg), EXPRESSION) == c
            else IsCallIn(t, c)
  {
    hide SetArg, NodesOf, FindChild;
  }

  // ------------------------------------------------------------------- lone nodes

  /** Every argument of a node has a parent. */
  ghost predicate Linked(t: Forest) {
    forall m, c {:trigger c in Flatten(t.args[m])} :: m in t.args && c in Flatten(t.args[m]) ==>
      c in t.parent && t.parent[c] != null
  }

  lemma LinkedAfterMaking(t: Forest, p: Node, args: seq<Arg>, after: Forest)
    requires Sound(t) && p !in t.args && (forall c :: c in Flatten(args) ==> c in t.args)
    requires SameTrees(after, MadeIn(t, p, args))
    ensures Linked(t) ==> Linked(after)
  {
    hide SetAll, Flatten, Acyclic, Indexed;
    if Linked(t) {
      forall m, c | m in after.args && c in Flatten(after.args[m]) ensures c in after.parent && after.parent[c] != null {
        assert m != p ==> c in Flatten(t.args[m]) && c in t.parent;
      }
    }
  }

  lemma LinkedAfterPutting(t: Forest, n: Node, arg: Arg, after: Forest)
    requires Sound(t) && n in t.args && (forall c :: c in NodesOf(arg) ==> c in t.args)
    requires SameTrees(after, PutIn(t, n, arg))
    ensures Linked(t) ==> Linked(after)
  {
    hide SetArg, Flatten, Acyclic, Indexed;
  }

  /** So a node without a parent is in no subtree but its own. */
  lemma NoParentNoAncestor(m: Node, c: Node, t: Forest)
    requires Sound(t) && Linked(t) && m in t.args && c in Region(t, m) && t.parent[c] == null
    ensures c == m
  {
    hide Sound, Region;
    if c != m {
      LowerHasParent(m, c, t);
    }
  }

  lemma {:induction false} LowerHasParent(m: Node, c: Node, t: Forest)
    requires Sound(t) && Linked(t) && m in t.args && c in Region(t, m) && c != m
    ensures c in t.parent && t.parent[c] != null
    decreases t.height[m]
  {
    hide Region;
    var k := BelowThrough(t, m, c);
    if k == c {
    } else {
      LowerHasParent(k, c, t);
    }
  }

  /** Where the nodes adopted stood alone, only a noisy one turns the memo wrong. */
  lemma LoneAdoption(u: set<Node>, tb: Tables, t: Forest, p: Node, args: seq<Arg>, after: Forest)
    requires Sound(t) && Sound(after) && Linked(t) && u <= t.args.Keys && p !in t.args && Right(u, tb, t)
    requires u <= after.args.Keys && SameTrees(after, MadeIn(t, p, args))
    requires forall c :: c in Flatten(args) ==> c in t.args && t.parent[c] == null
    ensures Right(u, tb, after) <==> forall c :: c in u ==> !Noisy(c, tb, t, after)
  {
    hide Raw, Sound, Right, Disturbed, MadeIn, IsNamedCall, Linked, IsCallIn, Region;
    StaysRightIff(u, tb, t, after);
    forall c | c in u && Noisy(c, tb, t, after) ensures !Right(u, tb, after) {
      NoisyTurnsWrong(c, u, tb, t, after);
    }
    forall n | n in u && n.rawTypeKnown && Disturbed(n, n.rawTypeDialect, tb, t, after) ensures Noisy(n, tb, t, after) {
      SameTreesDisturbAlike(n, n.rawTypeDialect, tb, t, after, MadeIn(t, p, args));
      MakingDisturbs(n, n.rawTypeDialect, tb, t, p, args);
      var c :| c in Region(t, n) && IsNamedCall(c, n.rawTypeDialect, tb) && MakingMoves(c, t, p.cls, args);
      NoParentNoAncestor(n, c, t);
      CallAfterMaking(n, t, p, args);
      SameCalls(n, after, MadeIn(t, p, args));
    }
  }

  lemma SameCalls(n: Node, a: Forest, b: Forest)
    requires SameTrees(a, b)
    ensures IsCallIn(a, n) == IsCallIn(b, n)
  {
  }

  // --------------------------------------------------------------- stale answers

  lemma NothingYet(tb: Tables)
    ensures Remembered({}, tb) && Linked(ForestOf({}))
  {
  }

  /** Where nothing was asked, nothing goes stale. */
  method BuildUnasked(cls: Class, text: string, isString: bool, args: seq<Arg>, tb: Tables, ghost u: set<Node>)
    returns (p: Node)
    requires Remembered(u, tb) && (forall m :: m in u ==> !m.rawTypeKnown) && !cls.Bracket?
    requires forall c :: c in Flatten(args) ==> c in u
    modifies SetOf(Flatten(args))`parent
    ensures fresh(p) && p.cls == cls && p.text == text && p.isString == isString
    ensures Remembered(u + {p}, tb) && forall m :: m in u + {p} ==> !m.rawTypeKnown
    ensures Sound(ForestOf(u + {p})) && SameTrees(ForestOf(u + {p}), MadeIn(old(ForestOf(u)), p, args))
  {
    hide Raw, Sound, Disturbed, MadeIn, ForestOf, SameTrees, Linked, Noisy, Right;
    p := Build(cls, text, isString, false, None, args, tb, u);
  }

  lemma NestedType(t: Forest, outer: Node, inner: Node, word: Node, d: string, tb: Tables)
    requires Sound(t) && outer in t.args && inner in t.args && word in t.args
    requires outer.cls.Paren? && FindChild(t.args[outer], THIS) == inner
    requires inner.cls.Paren? && FindChild(t.args[inner], THIS) == word
    requires word.cls.Literal? && word.text == "1"
    ensures Raw(outer, d, tb, t) == Some(Bare(if word.isString then "VARCHAR" else "INT"))
  {
    hide Sound;
    assert IsIntegerText("1");
    hide IsIntegerText;
    assert ChildRaw(outer, THIS, d, tb, t) == Raw(inner, d, tb, t);
    assert ChildRaw(inner, THIS, d, tb, t) == Raw(word, d, tb, t);
  }

  method MakeOne(isString: bool, tb: Tables, ghost u: set<Node>) returns (p: Node)
    requires Remembered(u, tb) && forall m :: m in u ==> !m.rawTypeKnown
    ensures fresh(p) && p.cls.Literal? && p.text == "1" && p.isString == isString
    ensures Remembered(u + {p}, tb) && forall m :: m in u + {p} ==> !m.rawTypeKnown
    ensures ForestOf(u + {p}).args == old(ForestOf(u).args)[p := []]
  {
    hide Raw, Sound, Right, ForestOf;
    p := BuildUnasked(Literal, "1", isString, [], tb, u);
  }

  method MakeParen(inside: Node, tb: Tables, ghost u: set<Node>) returns (p: Node)
    requires Remembered(u, tb) && inside in u && forall m :: m in u ==> !m.rawTypeKnown
    modifies {inside}`parent
    ensures fresh(p) && p.cls.Paren?
    ensures Remembered(u + {p}, tb) && forall m :: m in u + {p} ==> !m.rawTypeKnown
    ensures ForestOf(u + {p}).args == old(ForestOf(u).args)[p := [Child(THIS, inside)]]
  {
    var args := [Child(THIS, inside)];
    assert args[..0] == [] && Flatten(args[..0]) == [] && SetAll(args[..0]) == [];
    assert Flatten(args) == [inside] && SetAll(args) == args;
    hide Raw, Sound, Right, ForestOf, SetAll, Flatten;
    p := BuildUnasked(Paren, "", false, args, tb, u);
  }

  method MakeNested(tb: Tables) returns (outer: Node, inner: Node, word: Node, ghost u: set<Node>, ghost number: Node)
    ensures Remembered(u, tb) && outer in u && inner in u && word in u && number in u && fresh(u) && inner != outer
    ensures outer.cls.Paren? && inner.cls.Paren? && number.cls.Literal? && word.cls.Literal? && inner != word
    ensures !number.isString && word.isString && number.text == word.text == "1"
    ensures var t := ForestOf(u);
            && t.args[outer] == [Child(THIS, inner)] && t.args[inner] == [Child(THIS, number)] && t.args[word] == []
  {
    NothingYet(tb);
    hide *;
    u := {};
    var one := MakeOne(false, tb, u);
    u := u + {one};
    word := MakeOne(true, tb, u);
    u := u + {word};
    inner := MakeParen(one, tb, u);
    u := u + {inner};
    outer := MakeParen(inner, tb, u);
    u := u + {outer};
    number := one;
  }

  /** Set forgets what its node remembered, and nothing above it: a number between two pairs of parentheses is asked
      about, a string is put in its place, and the outer parentheses still remember a number. */
  method SetLeavesStaleAnswer(d: string, tb: Tables) returns (outer: Node, ghost u: set<Node>)
    ensures outer in u && Sound(ForestOf(u)) && outer.rawTypeKnown && outer.rawTypeDialect == d
    ensures outer.rawType == Some(Bare("INT")) && Raw(outer, d, tb, ForestOf(u)) == Some(Bare("VARCHAR"))
  {
    hide Raw, Sound, Right, ForestOf, Disturbed, DisturbedKeep, Region, Flatten, Adopted;
    var inner, word;
    ghost var number;
    outer, inner, word, u, number := MakeNested(tb);
    NestedType(ForestOf(u), outer, inner, number, d, tb);
    var t := RawType(outer, d, tb, u);
    LowWord(ForestOf(u), inner, word);
    Put(inner, Child(THIS, word), tb, u);
    NestedType(ForestOf(u), outer, inner, word, d, tb);
  }

  lemma LowWord(t: Forest, n: Node, word: Node)
    requires Sound(t) && n in t.args && word in t.args && t.args[word] == [] && n != word
    ensures n !in Region(t, word)
  {
  }

  /** What a noisy adoption does: a call asked about on its own and then put behind a dot is remembered as having no
      type, where a method call's type is UNKNOWN. */
  method AdoptionLeavesStaleAnswer(name: string, d: string, tb: Tables) returns (call: Node, ghost u: set<Node>)
    requires OnlyNamesTheCall(tb, d, name)
    ensures call in u && Sound(ForestOf(u)) && call.rawTypeKnown && call.rawTypeDialect == d
    ensures call.rawType == None && Raw(call, d, tb, ForestOf(u)) == Some(UNKNOWN)
  {
    hide Raw, Sound, Right, Disturbed, DisturbedKeep, Linked, Region, ArgsOf, ParentsOf, HeightsOf, SetAll, Adopted;
    hide OnlyNamesTheCall;
    NothingYet(tb);
    u := {};
    call := BuildUnasked(Anonymous, name, false, [], tb, u);
    u := u + {call};
    CallType(call, d, tb, ForestOf(u));
    var before := RawType(call, d, tb, u);
    var args := [Child(EXPRESSION, call)];
    assert Flatten(args) == [call];
    ghost var alone := ForestOf(u);
    var dot := Build(Dot, "", false, false, None, args, tb, u);
    CallAfterMaking(call, alone, dot, args);
    SameCalls(call, ForestOf(u + {dot}), MadeIn(alone, dot, args));
    u := u + {dot};
    CallType(call, d, tb, ForestOf(u));
  }
}

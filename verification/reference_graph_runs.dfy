/** Whole runs: any interleaving of creations, additions, removals and lookups. */
module ReferenceGraphRuns {
  import opened Common
  import opened References
  import opened ReferenceGraph
  import opened ReferenceGraphMirroring
  import opened ReferenceGraphDerived

  datatype Step =
    | Create(id: NodeId, name: QualifiedName, refs: seq<Reference>)
    | Add(at: NodeId, ref: Reference)
    | Remove(at: NodeId, ref: Reference)
    | Lookup(at: NodeId, referenceType: NodeId, forward: bool)
    | LookupChild(at: NodeId)
    | AskSubtype(at: NodeId, base: NodeId)

  /** A step on a node that is not there, or that would register an id twice, changes nothing. */
  predicate Enabled(g: Graph, s: Step) {
    if s.Create? then s.id !in g else s.at in g
  }

  function Apply(tb: TypeTable, g: Graph, s: Step): Graph {
    if !Enabled(g, s) then g
    else match s
      case Create(id, name, refs) => CreateNode(tb, g, id, name, refs).graph
      case Add(a, r) => AddReference(tb, g, a, r).graph
      case Remove(a, r) => RemoveReference(tb, g, a, r)
      case Lookup(a, t, fwd) => g[a := Find(tb, g[a], t, fwd).0]
      case LookupChild(a) => g[a := WithNameIndex(tb, Names(g), g[a])]
      case AskSubtype(a, b) => Ask(g, a, b).0
  }

  function Run(tb: TypeTable, g: Graph, steps: seq<Step>): Graph
    decreases |steps|
  {
    if steps == [] then g else Run(tb, Apply(tb, g, steps[0]), steps[1..])
  }

  ghost predicate Consistent(tb: TypeTable, g: Graph) {
    Mirrored(tb, g) && Derived(tb, g)
  }

  /** The one step that can break consistency: registering a node that something already points to. */
  ghost predicate Safe(tb: TypeTable, g: Graph, s: Step) {
    s.Create? && s.id !in g && NoDup(s.refs) ==> !Clashes(tb, g, s.id, s.refs)
  }

  ghost predicate SafeRun(tb: TypeTable, g: Graph, steps: seq<Step>)
    decreases |steps|
  {
    steps != [] ==> Safe(tb, g, steps[0]) && SafeRun(tb, Apply(tb, g, steps[0]), steps[1..])
  }

  lemma LookupKeepsMirrored(tb: TypeTable, g: Graph, a: NodeId, st: NodeState)
    requires Mirrored(tb, g) && a in g && st.own == g[a].own && st.back == g[a].back
    ensures Mirrored(tb, g[a := st])
  {
    var g' := g[a := st];
    forall x, r
      ensures OwnedIsMirrored(tb, g', x, r) && HeldIsMirror(tb, g', x, r)
    {
      assert OwnedIsMirrored(tb, g, x, r) && HeldIsMirror(tb, g, x, r);
    }
    assert forall x :: x in g ==> IndexesDisjoint(g[x]);
    assert IndexesDisjoint(g[a]);
    assert IndexesDisjoint(st);
  }

  /** A step keeps the graph consistent exactly when it is safe. */
  lemma StepKeepsConsistent(tb: TypeTable, g: Graph, s: Step)
    requires tb.Valid() && Consistent(tb, g)
    ensures Consistent(tb, Apply(tb, g, s)) <==> Safe(tb, g, s)
  {
    if Enabled(g, s) {
      match s
      case Create(id, name, refs) =>
        CreateKeepsMirrored(tb, g, id, name, refs);
        if NoDup(refs) && !Clashes(tb, g, id, refs) {
          CreateKeepsDerived(tb, g, id, name, refs);
        }
      case Add(a, r) =>
        AddKeepsMirrored(tb, g, a, r);
        AddKeepsDerived(tb, g, a, r);
      case Remove(a, r) =>
        RemoveKeepsMirrored(tb, g, a, r);
        RemoveKeepsDerived(tb, g, a, r);
      case Lookup(a, t, fwd) =>
        LookupKeepsMirrored(tb, g, a, Find(tb, g[a], t, fwd).0);
        FindKeepsDerived(tb, g, a, t, fwd);
      case LookupChild(a) =>
        LookupKeepsMirrored(tb, g, a, WithNameIndex(tb, Names(g), g[a]));
        BuildKeepsDerived(tb, g, a);
      case AskSubtype(a, b) =>
        AskKeepsConsistent(tb, g, a, b);
    }
  }

  lemma AskKeepsConsistent(tb: TypeTable, g: Graph, a: NodeId, b: NodeId)
    requires Consistent(tb, g) && a in g
    ensures Consistent(tb, Ask(g, a, b).0)
  {
    var st := Ask(g, a, b).0[a];
    assert Ask(g, a, b).0 == g[a := st];
    LookupKeepsMirrored(tb, g, a, st);
    assert DerivedOK(tb, Names(g), g[a]);
    assert Indexed(tb, st) == Indexed(tb, g[a]);
    assert forall t, fwd :: FindFresh(st, t, fwd) == FindFresh(g[a], t, fwd);
    UpdateKeepsDerived(tb, g, a, st);
  }

  lemma {:induction false} RunKeepsConsistent(tb: TypeTable, g: Graph, steps: seq<Step>)
    requires tb.Valid() && Consistent(tb, g) && SafeRun(tb, g, steps)
    ensures Consistent(tb, Run(tb, g, steps))
    decreases |steps|
  {
    if steps != [] {
      StepKeepsConsistent(tb, g, steps[0]);
      RunKeepsConsistent(tb, Apply(tb, g, steps[0]), steps[1..]);
    }
  }

  /** What a reader of any reachable graph may rely on. */
  lemma ReachableGraph(tb: TypeTable, steps: seq<Step>, a: NodeId, r: Reference, t: NodeId, fwd: bool)
    requires tb.Valid() && SafeRun(tb, map[], steps) && a in Run(tb, map[], steps)
    ensures var g := Run(tb, map[], steps);
      // the two indexes of all nodes are in bijection
      && (r.referenceType in tb.types && r.referenceType !in tb.massive && r.nodeId in g ==>
            (r in g[a].own <==> Reference(!r.isForward, r.referenceType, a) in g[r.nodeId].back))
      && (r in g[a].back ==> r.nodeId in g && r.referenceType in tb.types && r.referenceType !in tb.massive)
      && IndexesDisjoint(g[a])
      // removal returns after at most two calls
      && RemoveWithin(tb, g, a, r, 2) == Some(RemoveReference(tb, g, a, r))
      // the index of children by name is the one a rescan would build
      && (g[a].nameIndex.Some? ==>
            SameGrouping(g[a].nameIndex.value, IndexAll(Names(g), FindHierarchical(tb, g[a]))))
      // an answer of findReferences lists the live references asked for, in order, and nothing of another kind
      && (t in tb.types ==> var answer := Find(tb, g[a], t, fwd).1;
            && Subsequence(FindFresh(g[a], t, fwd), answer)
            && (r in g[a].own + g[a].back && r.referenceType == t && r.isForward == fwd ==> r in answer)
            && (r in answer ==> r.referenceType == t && r.isForward == fwd))
  {
    EmptyConsistent(tb);
    RunKeepsConsistent(tb, map[], steps);
    var g := Run(tb, map[], steps);
    if tb.Mirrored(r.referenceType) && r.nodeId in g {
      MirrorBijection(tb, g, a, r);
    }
    assert HeldIsMirror(tb, g, a, r);
    RemoveAtMostTwoDeep(tb, g, a, r);
    NameIndexIsRescan(tb, g, a);
    FindKeepsDerived(tb, g, a, t, fwd);
    FoundExactly(g[a], t, fwd);
    if t in tb.types {
      SubsequenceMembers(FindFresh(g[a], t, fwd), Find(tb, g[a], t, fwd).1);
    }
  }

  lemma EmptyConsistent(tb: TypeTable)
    ensures Consistent(tb, map[])
  {
    forall x, r
      ensures OwnedIsMirrored(tb, map[], x, r) && HeldIsMirror(tb, map[], x, r)
    {
    }
  }

  /** Same names, single entries equal, arrays equal up to order. */
  ghost predicate SameGrouping(i1: NameIndex, i2: NameIndex) {
    && i1.Keys == i2.Keys
    && (forall name :: name in i1 ==>
          && i1[name].Single? == i2[name].Single?
          && (i1[name].Single? ==> i1[name] == i2[name])
          && multiset(SlotRefs(i1, name)) == multiset(SlotRefs(i2, name)))
  }

  lemma NameIndexIsRescan(tb: TypeTable, g: Graph, a: NodeId)
    requires Consistent(tb, g) && a in g
    ensures g[a].nameIndex.Some? ==>
      SameGrouping(g[a].nameIndex.value, IndexAll(Names(g), FindHierarchical(tb, g[a])))
  {
    if g[a].nameIndex.Some? {
      assert DerivedOK(tb, Names(g), g[a]);
      FindHierarchicalIsScan(tb, g[a]);
      IndexAllHolds(Names(g), FindHierarchical(tb, g[a]));
      SameIndex(Names(g), g[a].nameIndex.value, IndexAll(Names(g), FindHierarchical(tb, g[a])), Indexed(tb, g[a]));
    }
  }

  // ---- runs without dangling references -------------------------------------------------------

  ghost predicate NoDangling(tb: TypeTable, g: Graph) {
    forall a, r :: Owns(g, a, r) && tb.Mirrored(r.referenceType) ==> r.nodeId in g
  }

  /** What a caller can look up before the step: every new reference leads to a registered node, or to
      the node being created, and then not in both directions. */
  predicate Grounded(tb: TypeTable, g: Graph, s: Step) {
    match s
    case Create(id, _, refs) =>
      forall r :: r in refs && tb.Mirrored(r.referenceType) ==>
        r.nodeId in g || (r.nodeId == id && Mirror(r, id) !in refs)
    case Add(_, r) => tb.Mirrored(r.referenceType) ==> r.nodeId in g
    case _ => true
  }

  ghost predicate GroundedRun(tb: TypeTable, g: Graph, steps: seq<Step>)
    decreases |steps|
  {
    steps != [] ==> Grounded(tb, g, steps[0]) && GroundedRun(tb, Apply(tb, g, steps[0]), steps[1..])
  }

  lemma {:induction false} PropagateAllKeepsOwned(tb: TypeTable, g: Graph, a: NodeId, refs: seq<Reference>)
    ensures var g' := PropagateAll(tb, g, a, refs).graph;
      g'.Keys == g.Keys && forall x :: x in g ==> g'[x].own == g[x].own
  {
    if refs != [] {
      PropagateAllKeepsOwned(tb, g, a, refs[..|refs| - 1]);
    }
  }

  /** `g'` has the nodes and owned references of `g` and possibly more, the new ones on `a`. */
  ghost predicate Grows(g: Graph, g': Graph, a: NodeId, news: seq<Reference>) {
    g.Keys <= g'.Keys && forall x, r :: Owns(g', x, r) ==> Owns(g, x, r) || (x == a && r in news)
  }

  lemma StillNoDangling(tb: TypeTable, g: Graph, g': Graph, a: NodeId, news: seq<Reference>)
    requires NoDangling(tb, g) && Grows(g, g', a, news)
    requires forall r :: r in news && tb.Mirrored(r.referenceType) ==> r.nodeId in g'
    ensures NoDangling(tb, g')
  {
  }

  lemma CreateGrows(tb: TypeTable, g: Graph, id: NodeId, name: QualifiedName, refs: seq<Reference>)
    requires id !in g
    ensures var created := CreateNode(tb, g, id, name, refs);
      Grows(g, created.graph, id, refs) && created.graph.Keys == if NoDup(refs) then g.Keys + {id} else g.Keys
    ensures !NoDup(refs) ==> CreateNode(tb, g, id, name, refs).graph == g
  {
    PropagateAllKeepsOwned(tb, g[id := NodeState(name, refs, [], map[], None, map[])], id, refs);
  }

  lemma RemoveGrows(tb: TypeTable, g: Graph, a: NodeId, r: Reference)
    requires a in g
    ensures Grows(g, RemoveReference(tb, g, a, r), a, [])
  {
    if r.nodeId in g {
      OwnerGrows(tb, g, a, r);
      OwnerGrows(tb, g, r.nodeId, Mirror(r, a));
    }
    hide RemoveOwned;
  }

  lemma OwnerGrows(tb: TypeTable, g: Graph, a: NodeId, r: Reference)
    requires a in g && r.nodeId in g
    ensures Grows(g, RemoveOwned(tb, g, a, r), a, [])
  {
    RemoveEdges(tb, g, a, r);
    hide RemoveOwned;
  }

  lemma AddNoDangling(tb: TypeTable, g: Graph, a: NodeId, r: Reference)
    requires Mirrored(tb, g) && NoDangling(tb, g) && a in g && (tb.Mirrored(r.referenceType) ==> r.nodeId in g)
    ensures NoDangling(tb, AddReference(tb, g, a, r).graph)
  {
    if Fresh(g, a, r) {
      AddEdges(tb, g, a, r);
      StillNoDangling(tb, g, AddReference(tb, g, a, r).graph, a, [r]);
    }
  }

  lemma ReadNoDangling(tb: TypeTable, g: Graph, a: NodeId, st: NodeState)
    requires NoDangling(tb, g) && a in g && st.own == g[a].own
    ensures NoDangling(tb, g[a := st])
  {
    StillNoDangling(tb, g, g[a := st], a, []);
  }

  lemma GroundedStep(tb: TypeTable, g: Graph, s: Step)
    requires Mirrored(tb, g) && NoDangling(tb, g) && Grounded(tb, g, s)
    ensures Safe(tb, g, s) && NoDangling(tb, Apply(tb, g, s))
  {
    hide Mirrored, AddReference, RemoveReference, CreateNode;
    if Enabled(g, s) {
      match s
      case Create(id, name, refs) =>
        CreateGrows(tb, g, id, name, refs);
        if NoDup(refs) {
          StillNoDangling(tb, g, Apply(tb, g, s), id, refs);
        }
      case Add(a, r) => AddNoDangling(tb, g, a, r);
      case Remove(a, r) =>
        RemoveGrows(tb, g, a, r);
        StillNoDangling(tb, g, Apply(tb, g, s), a, []);
      case Lookup(a, t, fwd) => ReadNoDangling(tb, g, a, Find(tb, g[a], t, fwd).0);
      case LookupChild(a) => ReadNoDangling(tb, g, a, WithNameIndex(tb, Names(g), g[a]));
      case AskSubtype(a, b) => ReadNoDangling(tb, g, a, Ask(g, a, b).0[a]);
    }
  }

  /** So a run that never declares a dangling reference is safe, whatever else it does. */
  lemma {:induction false} GroundedRunSafe(tb: TypeTable, g: Graph, steps: seq<Step>)
    requires tb.Valid() && Consistent(tb, g) && NoDangling(tb, g) && GroundedRun(tb, g, steps)
    ensures SafeRun(tb, g, steps)
    ensures Consistent(tb, Run(tb, g, steps)) && NoDangling(tb, Run(tb, g, steps))
    decreases |steps|
  {
    if steps != [] {
      GroundedStep(tb, g, steps[0]);
      StepKeepsConsistent(tb, g, steps[0]);
      GroundedRunSafe(tb, Apply(tb, g, steps[0]), steps[1..]);
    }
  }

  // ---- when remembered answers are exact ------------------------------------------------------

  ghost predicate AllExact(g: Graph) {
    forall a :: a in g ==> CacheExact(g[a])
  }

  /** The node at the other end still has an answer that lists the mirror of the removed reference. */
  predicate RemembersMirror(tb: TypeTable, g: Graph, a: NodeId, r: Reference) {
    && r.nodeId in g && r.nodeId != a && tb.Mirrored(r.referenceType)
    && (r.referenceType, !r.isForward) in g[r.nodeId].refCache
  }

  /** removeReference leaves all remembered answers exact unless the far end remembers the mirror:
      only the owner's cache is cleared. */
  lemma RemovalExact(tb: TypeTable, g: Graph, a: NodeId, r: Reference)
    requires tb.Valid() && Consistent(tb, g) && AllExact(g) && Owns(g, a, r)
    ensures AllExact(RemoveReference(tb, g, a, r)) <==> !RemembersMirror(tb, g, a, r)
    ensures tb.Mirrored(r.referenceType) && r.nodeId in g ==>
      RemoveReference(tb, g, r.nodeId, Mirror(r, a)) == RemoveReference(tb, g, a, r)
  {
    if r.nodeId in g {
      if tb.Mirrored(r.referenceType) {
        EitherEnd(tb, g, a, r);
      }
      var g' := RemoveReference(tb, g, a, r);
      RemoveCaches(tb, g, a, r);
      RemoveEdges(tb, g, a, r);
      if r.nodeId != a {
        FarEndExact(tb, g, a, r, g'[r.nodeId]);
      }
      forall x | x in g' && x != a && x != r.nodeId
        ensures CacheExact(g'[x])
      {
        assert CacheExact(g[x]);
        assert forall t, fwd :: FindFresh(g'[x], t, fwd) == FindFresh(g[x], t, fwd);
      }
    }
  }

  lemma FarEndExact(tb: TypeTable, g: Graph, a: NodeId, r: Reference, far: NodeState)
    requires Mirrored(tb, g) && AllExact(g) && Owns(g, a, r) && r.nodeId in g && r.nodeId != a
    requires far.own == g[r.nodeId].own && far.back == Without(g[r.nodeId].back, Mirror(r, a))
    requires far.refCache == g[r.nodeId].refCache
    ensures CacheExact(far) <==> !RemembersMirror(tb, g, a, r)
  {
    var st, m := g[r.nodeId], Mirror(r, a);
    assert IndexesDisjoint(st) && CacheExact(st);
    if tb.Mirrored(r.referenceType) {
      MirrorBijection(tb, g, a, r);
      FarCacheExact(st, far, m);
    } else {
      assert HeldIsMirror(tb, g, r.nodeId, m);
      WithoutAbsent(st.back, m);
      assert forall t, fwd :: FindFresh(far, t, fwd) == FindFresh(st, t, fwd);
    }
  }

  lemma RemoveCaches(tb: TypeTable, g: Graph, a: NodeId, r: Reference)
    requires a in g && r.nodeId in g
    ensures var g' := RemoveOwned(tb, g, a, r);
      && g'.Keys == g.Keys
      && (forall x :: x in g ==> g'[x].refCache == if x == a then map[] else g[x].refCache)
  {
  }

  lemma FarCacheExact(st: NodeState, far: NodeState, m: Reference)
    requires IndexesDisjoint(st) && CacheExact(st) && m in st.back
    requires far.own == st.own && far.back == Without(st.back, m) && far.refCache == st.refCache
    ensures CacheExact(far) <==> (m.referenceType, m.isForward) !in st.refCache
  {
    forall t, fwd | (t, fwd) in st.refCache
      ensures far.refCache[(t, fwd)] == FindFresh(far, t, fwd) <==> (t, fwd) != (m.referenceType, m.isForward)
    {
      FreshAfterRemoval(st, far, m, t, fwd);
      FilterMembers(st.own, Matches(t, fwd));
      FilterMembers(st.back, Matches(t, fwd));
      if m in FindFresh(st, t, fwd) {
        assert m !in FindFresh(far, t, fwd);
      } else {
        WithoutAbsent(FindFresh(st, t, fwd), m);
      }
    }
  }

  /** As long as nothing is removed, a remembered answer is the fresh one, on every node. */
  lemma {:induction false} RunWithoutRemovalExact(tb: TypeTable, g: Graph, steps: seq<Step>, a: NodeId, t: NodeId,
      fwd: bool)
    requires AllExact(g) && (forall s :: s in steps ==> !s.Remove?)
    ensures AllExact(Run(tb, g, steps))
    ensures a in Run(tb, g, steps) && t in tb.types ==>
      Find(tb, Run(tb, g, steps)[a], t, fwd).1 == FindFresh(Run(tb, g, steps)[a], t, fwd)
    decreases |steps|
  {
    if steps != [] {
      StepExact(tb, g, steps[0]);
      RunWithoutRemovalExact(tb, Apply(tb, g, steps[0]), steps[1..], a, t, fwd);
    } else if a in g {
      assert CacheExact(g[a]);
    }
  }

  lemma StepExact(tb: TypeTable, g: Graph, s: Step)
    requires AllExact(g) && !s.Remove?
    ensures AllExact(Apply(tb, g, s))
  {
    hide AddReference, PropagateAll, IndexAll, FindHierarchical, FindFresh;
    if Enabled(g, s) {
      match s
      case Create(id, name, refs) =>
        var st := NodeState(name, refs, [], map[], None, map[]);
        assert CacheExact(st);
        PropagateAllExact(tb, g[id := st], id, refs);
      case Add(a, r) => AddExact(tb, g, a, r);
      case Lookup(a, t, fwd) =>
        ReadingExact(g, a, Find(tb, g[a], t, fwd).0);
      case LookupChild(a) =>
        ReadingExact(g, a, WithNameIndex(tb, Names(g), g[a]));
      case AskSubtype(a, b) =>
        ReadingExact(g, a, Ask(g, a, b).0[a]);
    }
  }

  /** A node that is only read may remember one more answer. */
  lemma ReadingExact(g: Graph, a: NodeId, st: NodeState)
    requires AllExact(g) && a in g && st.own == g[a].own && st.back == g[a].back
    requires forall t, fwd :: (t, fwd) in st.refCache ==>
      st.refCache[(t, fwd)] == if (t, fwd) in g[a].refCache then g[a].refCache[(t, fwd)] else FindFresh(g[a], t, fwd)
    ensures AllExact(g[a := st])
  {
    assert CacheExact(g[a]);
    assert forall t, fwd :: FindFresh(st, t, fwd) == FindFresh(g[a], t, fwd);
  }

  lemma AddExact(tb: TypeTable, g: Graph, a: NodeId, r: Reference)
    requires AllExact(g) && a in g
    ensures AllExact(AddReference(tb, g, a, r).graph)
  {
    if Fresh(g, a, r) {
      var st, linked := Declare(tb, Names(g), g[a], r), Link(tb, g, a, r);
      assert CacheExact(st);
      PropagateExact(tb, g[a := st], a, r);
      if linked.Done? {
        AnnounceOnlyIndexes(tb, linked.graph, a, r.nodeId);
        SameAnswers(linked.graph, AddReference(tb, g, a, r).graph);
      }
    }
  }

  lemma SameAnswers(g: Graph, g': Graph)
    requires AllExact(g) && OnlyIndexesDiffer(g, g')
    ensures AllExact(g')
  {
    forall x | x in g'
      ensures CacheExact(g'[x])
    {
      assert CacheExact(g[x]);
      assert forall t, fwd :: FindFresh(g'[x], t, fwd) == FindFresh(g[x], t, fwd);
    }
  }

  lemma PropagateExact(tb: TypeTable, g: Graph, a: NodeId, r: Reference)
    requires AllExact(g)
    ensures AllExact(Propagate(tb, g, a, r).graph)
  {
    if tb.Mirrored(r.referenceType) && r.nodeId in g {
      var b, m := r.nodeId, Mirror(r, a);
      assert CacheExact(ClearCache(HandleHierarchical(tb, Names(g), g[b].(back := g[b].back + [m]), m)));
    }
  }

  lemma {:induction false} PropagateAllExact(tb: TypeTable, g: Graph, a: NodeId, refs: seq<Reference>)
    requires AllExact(g)
    ensures AllExact(PropagateAll(tb, g, a, refs).graph)
  {
    if refs != [] {
      var init := refs[..|refs| - 1];
      PropagateAllExact(tb, g, a, init);
      PropagateExact(tb, PropagateAll(tb, g, a, init).graph, a, refs[|refs| - 1]);
    }
  }

  // ---- the two conditions are needed ----------------------------------------------------------

  const ORGANIZING: TypeTable := TypeTable({"Organizes"}, {}, {"Organizes"}, {})
  const A_TO_B: Reference := Reference(true, "Organizes", "B")
  const B_FROM_A: Reference := Reference(false, "Organizes", "A")

  function NodeA(own: seq<Reference>): NodeState {
    NodeState(QualifiedName(1, "a"), own, [], map[], None, map[])
  }

  function NodeB(back: seq<Reference>, refCache: map<(NodeId, bool), seq<Reference>>): NodeState {
    NodeState(QualifiedName(1, "b"), [], back, refCache, None, map[])
  }

  /** A reference declared towards a node that is registered later: the back reference never appears. */
  lemma DanglingBreaksMirroring()
    ensures var steps := [Create("A", QualifiedName(1, "a"), [A_TO_B]), Create("B", QualifiedName(1, "b"), [])];
      var g := Run(ORGANIZING, map[], steps);
      && ORGANIZING.Valid() && Owns(g, "A", A_TO_B) && "B" in g && !Holds(g, "B", B_FROM_A)
      && !SafeRun(ORGANIZING, map[], steps)
  {
    var s1, s2 := Create("A", QualifiedName(1, "a"), [A_TO_B]), Create("B", QualifiedName(1, "b"), []);
    var g1: Graph := map["A" := NodeA([A_TO_B])];
    assert [A_TO_B][..0] == [];
    assert PropagateAll(ORGANIZING, g1, "A", [A_TO_B]) == Done(g1) by {
      assert PropagateAll(ORGANIZING, g1, "A", []) == Done(g1);
    }
    assert Apply(ORGANIZING, map[], s1) == g1;
    var g2 := g1["B" := NodeB([], map[])];
    assert Apply(ORGANIZING, g1, s2) == g2;
    RunTwo(ORGANIZING, map[], s1, s2);
    assert Owns(g1, "A", A_TO_B) && Clashes(ORGANIZING, g1, "B", []);
    assert !Safe(ORGANIZING, g1, s2);
    assert [s1, s2][1..] == [s2];
    assert SafeRun(ORGANIZING, map[], [s1, s2]) ==> SafeRun(ORGANIZING, g1, [s2]);
  }

  lemma RunTwo(tb: TypeTable, g: Graph, s1: Step, s2: Step)
    ensures Run(tb, g, [s1, s2]) == Apply(tb, Apply(tb, g, s1), s2)
  {
    assert [s1, s2][1..] == [s2];
    assert [s2][1..] == [];
    assert Run(tb, Apply(tb, g, s1), [s2]) == Run(tb, Apply(tb, Apply(tb, g, s1), s2), []);
  }

  lemma ADeclares()
    ensures Apply(ORGANIZING, map["B" := NodeB([], map[])], Create("A", QualifiedName(1, "a"), [A_TO_B]))
      == map["A" := NodeA([A_TO_B]), "B" := NodeB([B_FROM_A], map[])]
  {
    var g := map["B" := NodeB([], map[]), "A" := NodeA([A_TO_B])];
    assert [A_TO_B][..0] == [] && [] + [B_FROM_A] == [B_FROM_A];
    assert PropagateAll(ORGANIZING, g, "A", []) == Done(g);
  }

  lemma BIsAsked()
    ensures Apply(ORGANIZING, map["A" := NodeA([A_TO_B]), "B" := NodeB([B_FROM_A], map[])],
      Lookup("B", "Organizes", false))
      == map["A" := NodeA([A_TO_B]), "B" := NodeB([B_FROM_A], map[("Organizes", false) := [B_FROM_A]])]
  {
    var before, after := NodeB([B_FROM_A], map[]), NodeB([B_FROM_A], map[("Organizes", false) := [B_FROM_A]]);
    assert [B_FROM_A][1..] == [] && [B_FROM_A] + [] == [B_FROM_A] == [] + [B_FROM_A];
    assert FindFresh(before, "Organizes", false) == [] + [B_FROM_A];
    assert "Organizes" in ORGANIZING.types;
    assert before.refCache[("Organizes", false) := [B_FROM_A]] == after.refCache;
    assert map["A" := NodeA([A_TO_B]), "B" := before]["B" := after] == map["A" := NodeA([A_TO_B]), "B" := after];
  }

  lemma ARemoves(cache: map<(NodeId, bool), seq<Reference>>)
    ensures Apply(ORGANIZING, map["A" := NodeA([A_TO_B]), "B" := NodeB([B_FROM_A], cache)], Remove("A", A_TO_B))
      == map["A" := NodeA([]), "B" := NodeB([], cache)]
  {
    var g := map["A" := NodeA([A_TO_B]), "B" := NodeB([B_FROM_A], cache)];
    WithoutLast([], A_TO_B);
    WithoutLast([], B_FROM_A);
    assert [] + [A_TO_B] == [A_TO_B] && [] + [B_FROM_A] == [B_FROM_A];
    assert RemoveOwned(ORGANIZING, g, "A", A_TO_B) == map["A" := NodeA([]), "B" := NodeB([], cache)];
  }

  /** "A" declares a reference to "B", "B" is asked for it, and "A" removes it again: "B" still gives the
      old answer. */
  lemma RemovalLeavesStaleAnswer()
    ensures var g := Run(ORGANIZING, map[],
      [Create("B", QualifiedName(1, "b"), []), Create("A", QualifiedName(1, "a"), [A_TO_B]),
       Lookup("B", "Organizes", false), Remove("A", A_TO_B)]);
      && ORGANIZING.Valid() && "B" in g && FindFresh(g["B"], "Organizes", false) == []
      && Find(ORGANIZING, g["B"], "Organizes", false).1 == [B_FROM_A]
  {
    var s1, s2 := Create("B", QualifiedName(1, "b"), []), Create("A", QualifiedName(1, "a"), [A_TO_B]);
    var cache := map[("Organizes", false) := [B_FROM_A]];
    assert Apply(ORGANIZING, map[], s1) == map["B" := NodeB([], map[])];
    assert FindFresh(NodeB([], cache), "Organizes", false) == [];
    assert Find(ORGANIZING, NodeB([], cache), "Organizes", false).1 == [B_FROM_A];
    hide Apply, Run, Find, FindFresh;
    ADeclares();
    BIsAsked();
    ARemoves(cache);
    RunFour(ORGANIZING, map[], s1, s2, Lookup("B", "Organizes", false), Remove("A", A_TO_B));
  }

  lemma RunFour(tb: TypeTable, g: Graph, s1: Step, s2: Step, s3: Step, s4: Step)
    ensures Run(tb, g, [s1, s2, s3, s4]) == Apply(tb, Apply(tb, Apply(tb, Apply(tb, g, s1), s2), s3), s4)
  {
    var g1 := Apply(tb, g, s1);
    assert [s1, s2, s3, s4][1..] == [s2, s3, s4] && [s2, s3, s4][1..] == [s3, s4];
    RunTwo(tb, Apply(tb, g1, s2), s3, s4);
    assert Run(tb, g1, [s2, s3, s4]) == Run(tb, Apply(tb, g1, s2), [s3, s4]);
  }
}

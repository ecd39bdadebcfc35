/** Runs of the reference graph as runs of the type hierarchy: every step drives a few lattice steps,
    so what is known about the memo there holds for the memos of the nodes. */
module SubtypeRuns {
  import opened Common
  import opened References
  import opened ReferenceGraph
  import opened ReferenceGraphMirroring
  import opened ReferenceGraphDerived
  import opened ReferenceGraphRuns
  import opened SubtypeReferences
  import T = TypeLattice

  function Memos(g: Graph): map<NodeId, map<NodeId, bool>> {
    map d | d in g && g[d].memo != map[] :: g[d].memo
  }

  /** The hierarchy and the memos a graph holds. */
  function TypeView(g: Graph): T.Lattice {
    T.Lattice(SupertypesOf(g), Memos(g))
  }

  // ---- the lattice steps of a graph step ------------------------------------------------------

  function LinkTypes(tb: TypeTable, g: Graph, a: NodeId, r: Reference): seq<T.Step>
    requires a in g
  {
    if !Fresh(g, a, r) then []
    else if r.referenceType == HAS_SUBTYPE && Hangs(g, r) then [T.Subtype(Ends(a, r).0, Ends(a, r).1)]
    else if tb.Mirrored(r.referenceType) then [T.Touch(a), T.Touch(r.nodeId)]
    else [T.Touch(a)]
  }

  function LinkAll(tb: TypeTable, g: Graph, a: NodeId, refs: seq<Reference>): (g': Graph)
    requires a in g
    ensures a in g'
  {
    if refs == [] then g
    else
      var g1 := LinkAll(tb, g, a, refs[..|refs| - 1]);
      LinkKeepsNode(tb, g1, a, refs[|refs| - 1]);
      Link(tb, g1, a, refs[|refs| - 1]).graph
  }

  lemma LinkKeepsNode(tb: TypeTable, g: Graph, a: NodeId, r: Reference)
    requires a in g
    ensures a in Link(tb, g, a, r).graph
  {
  }

  function LinkAllTypes(tb: TypeTable, g: Graph, a: NodeId, refs: seq<Reference>): seq<T.Step>
    requires a in g
  {
    if refs == [] then []
    else
      var init := refs[..|refs| - 1];
      LinkAllTypes(tb, g, a, init) + LinkTypes(tb, LinkAll(tb, g, a, init), a, refs[|refs| - 1])
  }

  function OwnRemoved(owner: NodeId, r: Reference): seq<T.Step> {
    if r.referenceType == HAS_SUBTYPE then [T.Unsubtype(Ends(owner, r).0, owner)] else [T.Touch(owner)]
  }

  function RemoveTypes(g: Graph, a: NodeId, r: Reference): seq<T.Step>
    requires a in g
  {
    if r.nodeId !in g then []
    else if r in g[a].own then OwnRemoved(a, r)
    else if r in g[a].back then OwnRemoved(r.nodeId, Mirror(r, a))
    else []
  }

  function Bare(g: Graph, id: NodeId, name: QualifiedName): Graph {
    g[id := NodeState(name, [], [], map[], None, map[])]
  }

  ghost function Types(tb: TypeTable, g: Graph, s: Step): seq<T.Step> {
    if !Enabled(g, s) then []
    else match s
      case Create(id, name, refs) => if NoDup(refs) then LinkAllTypes(tb, Bare(g, id, name), id, refs) else []
      case Add(a, r) => LinkTypes(tb, g, a, r)
      case Remove(a, r) => RemoveTypes(g, a, r)
      case AskSubtype(d, b) => if ReferenceGraph.Ask(g, d, b).1.Answers? then [T.Ask(d, b)] else []
      case _ => []
  }

  ghost function RunTypes(tb: TypeTable, g: Graph, steps: seq<Step>): seq<T.Step>
    decreases |steps|
  {
    if steps == [] then [] else Types(tb, g, steps[0]) + RunTypes(tb, Apply(tb, g, steps[0]), steps[1..])
  }

  // ---- one step -------------------------------------------------------------------------------

  lemma ClearedMemos(g: Graph, g': Graph, cleared: set<NodeId>)
    requires ClearedExactly(g, g', cleared)
    ensures Memos(g') == Memos(g) - cleared
  {
    forall d
      ensures d in Memos(g') <==> d in Memos(g) && d !in cleared
      ensures d in Memos(g') ==> Memos(g')[d] == Memos(g)[d]
    {
    }
  }

  lemma SameTypes(g: Graph, g': Graph)
    requires g'.Keys == g.Keys
    requires forall d :: d in g ==> g'[d].own == g[d].own && g'[d].back == g[d].back && g'[d].memo == g[d].memo
    ensures TypeView(g') == TypeView(g) && (SingleInheritance(g') <==> SingleInheritance(g))
  {
    SameHierarchy(g, g');
    SameMemos(g, g');
  }

  lemma SameMemos(g: Graph, g': Graph)
    requires g'.Keys == g.Keys && forall d :: d in g ==> g'[d].memo == g[d].memo
    ensures Memos(g') == Memos(g)
  {
    forall d
      ensures d in Memos(g') <==> d in Memos(g)
      ensures d in Memos(g') ==> Memos(g')[d] == Memos(g)[d]
    {
    }
  }

  lemma OneMemo(g: Graph, d: NodeId, st: NodeState)
    requires d in g && st.memo != map[]
    ensures Memos(g[d := st]) == Memos(g)[d := st.memo]
  {
    forall x
      ensures x in Memos(g[d := st]) <==> x == d || x in Memos(g)
      ensures x in Memos(g[d := st]) ==> Memos(g[d := st])[x] == if x == d then st.memo else Memos(g)[x]
    {
    }
  }

  /** The two indexes decide the hierarchy. */
  lemma SameHierarchy(g: Graph, g': Graph)
    requires g'.Keys == g.Keys && forall d :: d in g ==> Supers(g'[d]) == Supers(g[d])
    ensures SupersIn(g') == SupersIn(g) && SupertypesOf(g') == SupertypesOf(g)
    ensures SingleInheritance(g') <==> SingleInheritance(g)
  {
  }

  lemma AddOtherReference(tb: TypeTable, g: Graph, a: NodeId, r: Reference, g': Graph)
    requires a in g && AddedEdges(tb, g, a, r, g') && r.referenceType != HAS_SUBTYPE
    ensures SupertypesOf(g') == SupertypesOf(g) && (SingleInheritance(g') <==> SingleInheritance(g))
  {
    forall d | d in g
      ensures Supers(g'[d]) == Supers(g[d])
    {
      SupersSplit(g[d]);
      SupersSplit(g'[d]);
      SupersAmongAppend(g[d].own, r);
      SupersAmongAppend(g[d].back, Mirror(r, a));
      assert SupersAmong(g[d].own) + [] == SupersAmong(g[d].own);
      assert SupersAmong(g[d].back) + [] == SupersAmong(g[d].back);
    }
    SameHierarchy(g, g');
  }

  lemma RemoveOtherReference(g: Graph, a: NodeId, r: Reference, g': Graph)
    requires a in g && RemovedEdges(g, a, r, g') && r.referenceType != HAS_SUBTYPE
    ensures SupertypesOf(g') == SupertypesOf(g) && (SingleInheritance(g') <==> SingleInheritance(g))
  {
    forall d | d in g
      ensures Supers(g'[d]) == Supers(g[d])
    {
      SupersSplit(g[d]);
      SupersSplit(g'[d]);
      SupersAmongWithout(g[d].own, r);
      SupersAmongWithout(g[d].back, Mirror(r, a));
      FilterMembers(g[d].own, IsSuper);
      FilterMembers(g[d].back, IsSuper);
      WithoutAbsent(SupersAmong(g[d].own), r);
      WithoutAbsent(SupersAmong(g[d].back), Mirror(r, a));
    }
    SameHierarchy(g, g');
  }

  lemma TwoTouches(l: T.Lattice, a: NodeId, b: NodeId)
    ensures T.Run(l, [T.Touch(a), T.Touch(b)]) == l.(memo := l.memo - {a, b})
    ensures T.LegalRun(l, [T.Touch(a), T.Touch(b)]) && T.SafeRun(l, [T.Touch(a), T.Touch(b)])
  {
    var l1 := T.Apply(l, T.Touch(a));
    assert [T.Touch(a), T.Touch(b)][1..] == [T.Touch(b)];
    T.OneStep(l1, T.Touch(b));
    assert l.memo - {a} - {b} == l.memo - {a, b};
  }

  lemma LinkSimulates(tb: TypeTable, g: Graph, a: NodeId, r: Reference)
    requires Mirrored(tb, g) && SingleInheritance(g) && Fresh(g, a, r) && tb.Mirrored(HAS_SUBTYPE)
    requires T.LegalRun(TypeView(g), LinkTypes(tb, g, a, r))
    ensures var g' := Link(tb, g, a, r).graph;
      TypeView(g') == T.Run(TypeView(g), LinkTypes(tb, g, a, r)) && SingleInheritance(g')
  {
    hide Link, Mirrored, AddedEdges, ClearedExactly, SingleInheritance, SupertypesOf, Memos;
    var g' := Link(tb, g, a, r).graph;
    LinkEdges(tb, g, a, r);
    LinkWipes(tb, g, a, r);
    ClearedMemos(g, g', BothEnds(tb, a, r));
    if r.referenceType == HAS_SUBTYPE && Hangs(g, r) {
      SupersAfterAdd(tb, g, a, r, g');
      EdgeSimulated(TypeView(g), Ends(a, r).0, Ends(a, r).1);
      assert BothEnds(tb, a, r) == {Ends(a, r).0, Ends(a, r).1};
    } else {
      if r.referenceType == HAS_SUBTYPE {
        SupersAfterAdd(tb, g, a, r, g');
      } else {
        AddOtherReference(tb, g, a, r, g');
      }
      WipesSimulated(tb, TypeView(g), g, a, r);
    }
  }

  lemma EdgeSimulated(l: T.Lattice, c: NodeId, p: NodeId)
    requires T.LegalRun(l, [T.Subtype(c, p)])
    ensures c !in l.supertypes
    ensures T.Run(l, [T.Subtype(c, p)]) == T.Lattice(l.supertypes[c := p], l.memo - {c, p})
  {
    T.OneStep(l, T.Subtype(c, p));
  }

  lemma WipesSimulated(tb: TypeTable, l: T.Lattice, g: Graph, a: NodeId, r: Reference)
    requires Fresh(g, a, r) && !(r.referenceType == HAS_SUBTYPE && Hangs(g, r))
    ensures T.Run(l, LinkTypes(tb, g, a, r)) == l.(memo := l.memo - BothEnds(tb, a, r))
  {
    if tb.Mirrored(r.referenceType) {
      TwoTouches(l, a, r.nodeId);
      assert BothEnds(tb, a, r) == {a, r.nodeId};
    } else {
      T.OneStep(l, T.Touch(a));
      assert BothEnds(tb, a, r) == {a};
    }
  }

  lemma AddSimulates(tb: TypeTable, g: Graph, a: NodeId, r: Reference)
    requires Mirrored(tb, g) && SingleInheritance(g) && a in g && tb.Mirrored(HAS_SUBTYPE)
    requires T.LegalRun(TypeView(g), LinkTypes(tb, g, a, r))
    ensures var g' := AddReference(tb, g, a, r).graph;
      TypeView(g') == T.Run(TypeView(g), LinkTypes(tb, g, a, r)) && SingleInheritance(g')
  {
    if Fresh(g, a, r) {
      LinkSimulates(tb, g, a, r);
      var linked := Link(tb, g, a, r);
      if linked.Done? {
        LinkEdges(tb, g, a, r);
        AnnounceOnlyIndexes(tb, linked.graph, a, r.nodeId);
        SameTypes(linked.graph, AddReference(tb, g, a, r).graph);
      }
    }
  }

  lemma OwnRemovedSimulates(tb: TypeTable, g: Graph, a: NodeId, r: Reference)
    requires Mirrored(tb, g) && SingleInheritance(g) && Owns(g, a, r) && r.nodeId in g && tb.Mirrored(HAS_SUBTYPE)
    ensures T.LegalRun(TypeView(g), OwnRemoved(a, r))
    ensures var g' := RemoveOwned(tb, g, a, r);
      TypeView(g') == T.Run(TypeView(g), OwnRemoved(a, r)) && SingleInheritance(g')
  {
    var g' := RemoveOwned(tb, g, a, r);
    EndsWiped(tb, g, a, r);
    ClearedMemos(g, g', {a});
    if r.referenceType == HAS_SUBTYPE {
      RemoveSubtypeReference(tb, g, a, r);
      FewerSupers(tb, g, a, r);
      T.OneStep(TypeView(g), T.Unsubtype(Ends(a, r).0, a));
    } else {
      RemoveEdges(tb, g, a, r);
      RemoveOtherReference(g, a, r, g');
      T.OneStep(TypeView(g), T.Touch(a));
    }
  }

  lemma FewerSupers(tb: TypeTable, g: Graph, a: NodeId, r: Reference)
    requires SingleInheritance(g) && a in g && r.nodeId in g
    ensures SingleInheritance(RemoveOwned(tb, g, a, r))
  {
    var g' := RemoveOwned(tb, g, a, r);
    RemoveEdges(tb, g, a, r);
    forall d | d in g'
      ensures |SupersIn(g')[d]| <= 1
    {
      assert |SupersIn(g)[d]| <= 1;
      SupersSplit(g[d]);
      SupersSplit(g'[d]);
      SupersAmongWithout(g[d].own, r);
      SupersAmongWithout(g[d].back, Mirror(r, a));
    }
  }

  lemma RemoveSimulates(tb: TypeTable, g: Graph, a: NodeId, r: Reference)
    requires Mirrored(tb, g) && SingleInheritance(g) && a in g && tb.Mirrored(HAS_SUBTYPE)
    ensures T.LegalRun(TypeView(g), RemoveTypes(g, a, r))
    ensures var g' := RemoveReference(tb, g, a, r);
      TypeView(g') == T.Run(TypeView(g), RemoveTypes(g, a, r)) && SingleInheritance(g')
  {
    if r.nodeId in g {
      if r in g[a].own {
        OwnRemovedSimulates(tb, g, a, r);
      } else if r in g[a].back {
        assert HeldIsMirror(tb, g, a, r);
        OwnRemovedSimulates(tb, g, r.nodeId, Mirror(r, a));
      }
    }
  }

  lemma AskSimulates(g: Graph, d: NodeId, b: NodeId)
    requires d in g && ReferenceGraph.Ask(g, d, b).1.Answers?
    ensures TypeView(ReferenceGraph.Ask(g, d, b).0) == T.Apply(TypeView(g), T.Ask(d, b))
    ensures SingleInheritance(ReferenceGraph.Ask(g, d, b).0) <==> SingleInheritance(g)
  {
    if b !in g[d].memo {
      WalkUpAnswers(g, d, b, |g|);
      var st := g[d].(memo := g[d].memo[b := T.Above(SupertypesOf(g), d, b)]);
      assert ReferenceGraph.Ask(g, d, b).0 == g[d := st];
      SameHierarchy(g, g[d := st]);
      assert b in st.memo;
      OneMemo(g, d, st);
      AskedInView(g, d, b);
    } else {
      assert d in Memos(g);
    }
  }

  lemma AskedInView(g: Graph, d: NodeId, b: NodeId)
    requires d in g && b !in g[d].memo
    ensures var answer := T.Above(SupertypesOf(g), d, b);
      T.AskStep(TypeView(g), d, b) == (TypeView(g).(memo := Memos(g)[d := g[d].memo[b := answer]]), answer)
  {
    var known := if d in Memos(g) then Memos(g)[d] else map[];
    assert known == g[d].memo;
  }

  // ---- creating a node is linking it ----------------------------------------------------------

  /** The new node, whose references are still to come, is linked to nobody. */
  lemma BareKeepsMirrored(tb: TypeTable, g: Graph, id: NodeId, name: QualifiedName, refs: seq<Reference>)
    requires Mirrored(tb, g) && id !in g && !Clashes(tb, g, id, refs)
    ensures Mirrored(tb, Bare(g, id, name))
  {
    var g0 := Bare(g, id, name);
    forall x | x in g0
      ensures IndexesDisjoint(g0[x])
    {
      assert x in g ==> IndexesDisjoint(g[x]);
    }
    forall x, r
      ensures OwnedIsMirrored(tb, g0, x, r) && HeldIsMirror(tb, g0, x, r)
    {
      assert OwnedIsMirrored(tb, g, x, r) && HeldIsMirror(tb, g, x, r);
      assert Owns(g0, x, r) ==> Owns(g, x, r);
    }
  }

  lemma BareKeepsTypes(g: Graph, id: NodeId, name: QualifiedName)
    requires id !in g
    ensures TypeView(Bare(g, id, name)) == TypeView(g)
    ensures SingleInheritance(Bare(g, id, name)) <==> SingleInheritance(g)
  {
    BareSupers(g, id, name);
    NoSupersNoEdge(SupersIn(g), id);
    BareMemos(g, id, name);
  }

  lemma BareSupers(g: Graph, id: NodeId, name: QualifiedName)
    requires id !in g
    ensures SupersIn(Bare(g, id, name)) == SupersIn(g)[id := []]
  {
    assert Supers(Bare(g, id, name)[id]) == [];
  }

  lemma NoSupersNoEdge(m: map<NodeId, seq<Reference>>, id: NodeId)
    requires id !in m
    ensures TheOnes(m[id := []]) == TheOnes(m) && (AtMostOne(m[id := []]) <==> AtMostOne(m))
  {
    assert forall d :: d in m ==> m[id := []][d] == m[d];
  }

  lemma BareMemos(g: Graph, id: NodeId, name: QualifiedName)
    requires id !in g
    ensures Memos(Bare(g, id, name)) == Memos(g)
  {
    forall d
      ensures d in Memos(Bare(g, id, name)) <==> d in Memos(g)
      ensures d in Memos(g) ==> Memos(Bare(g, id, name))[d] == Memos(g)[d]
    {
    }
  }

  /** What linking `refs` one after the other to a bare node leads to. */
  ghost predicate Linked(tb: TypeTable, g: Graph, g': Graph, id: NodeId, refs: seq<Reference>) {
    && Mirrored(tb, g') && g'.Keys == g.Keys + {id} && g'[id].own == refs
    && (forall x :: x in g && x != id ==> g'[x].own == g[x].own)
    && g'[id].refCache == map[] && g'[id].nameIndex == None && g'[id].memo == map[]
  }

  lemma NextIsFresh(tb: TypeTable, g: Graph, g': Graph, id: NodeId, refs: seq<Reference>, r: Reference)
    requires id !in g && Linked(tb, g, g', id, refs) && !Clashes(tb, g, id, refs + [r]) && r !in refs
    ensures Fresh(g', id, r)
    ensures r.nodeId == id && tb.Mirrored(r.referenceType) ==> Mirror(r, id) !in refs + [r]
  {
    var m := Mirror(r, id);
    assert HeldIsMirror(tb, g', id, r);
    assert r in refs + [r] && (m in refs ==> m in refs + [r]);
    if Holds(g', id, r) {
      assert Owns(g', r.nodeId, m);
      assert r.nodeId != id ==> Owns(g, r.nodeId, m);
      assert false;
    }
  }

  lemma OneMoreLinked(tb: TypeTable, g: Graph, g': Graph, id: NodeId, refs: seq<Reference>, r: Reference)
    requires id !in g && Linked(tb, g, g', id, refs) && Fresh(g', id, r)
    ensures Linked(tb, g, Link(tb, g', id, r).graph, id, refs + [r])
  {
    LinkEdges(tb, g', id, r);
    LinkKeepsMirrored(tb, g', id, r);
    LinkParts(tb, g', id, r, Declare(tb, Names(g'), g'[id], r));
  }

  function With(g: Graph, id: NodeId, own: seq<Reference>): Graph
    requires id in g
  {
    g[id := g[id].(own := own)]
  }

  /** Propagation looks at the declared references of the far end only to find the mirror among them. */
  lemma PropagateIgnoresOwn(tb: TypeTable, g: Graph, id: NodeId, r: Reference, own: seq<Reference>)
    requires id in g
    requires r.nodeId == id && tb.Mirrored(r.referenceType) ==> (Mirror(r, id) in own <==> Mirror(r, id) in g[id].own)
    requires Propagate(tb, g, id, r).Done?
    ensures id in Propagate(tb, g, id, r).graph
    ensures Propagate(tb, With(g, id, own), id, r) == Done(With(Propagate(tb, g, id, r).graph, id, own))
  {
    var w := With(g, id, own);
    SameNames(g, id, g[id].(own := own));
    if tb.Mirrored(r.referenceType) && r.nodeId in g {
      var b, m := r.nodeId, Mirror(r, id);
      if m !in g[b].own {
        var st := ClearCache(HandleHierarchical(tb, Names(g), g[b].(back := g[b].back + [m]), m));
        if b != id {
          assert w[b := st] == With(g[b := st], id, own);
        } else {
          assert w[b := st.(own := own)] == With(g[b := st], id, own);
        }
      }
    }
  }

  lemma LinkIsPropagate(tb: TypeTable, g: Graph, g': Graph, id: NodeId, refs: seq<Reference>, r: Reference)
    requires id !in g && Linked(tb, g, g', id, refs) && Fresh(g', id, r)
    ensures Propagate(tb, With(g', id, refs + [r]), id, r) == Done(Link(tb, g', id, r).graph)
  {
    AddReachesMirror(tb, g', id, r);
    assert Declare(tb, Names(g'), g'[id], r) == g'[id].(own := refs + [r]);
  }

  /** After `n` references: the node linked to the first `n`, and the creation step as far as it has
      propagated them, differ in what the node declares. */
  ghost predicate InParallel(tb: TypeTable, g: Graph, id: NodeId, name: QualifiedName, all: seq<Reference>,
      refs: seq<Reference>, g': Graph)
    requires id !in g
  {
    && Linked(tb, g, g', id, refs)
    && PropagateAll(tb, With(Bare(g, id, name), id, all), id, refs) == Done(With(g', id, all))
  }

  lemma PropagateAllNext(tb: TypeTable, g: Graph, a: NodeId, refs: seq<Reference>, r: Reference)
    requires PropagateAll(tb, g, a, refs).Done?
    ensures PropagateAll(tb, g, a, refs + [r]) == Propagate(tb, PropagateAll(tb, g, a, refs).graph, a, r)
  {
    assert (refs + [r])[..|refs|] == refs;
  }

  lemma PropagatesWithAll(tb: TypeTable, g: Graph, g': Graph, id: NodeId, all: seq<Reference>, refs: seq<Reference>,
      r: Reference)
    requires id !in g && Linked(tb, g, g', id, refs) && Fresh(g', id, r)
    requires r.nodeId == id && tb.Mirrored(r.referenceType) ==> Mirror(r, id) !in all && Mirror(r, id) !in refs + [r]
    ensures id in Link(tb, g', id, r).graph
    ensures Propagate(tb, With(g', id, all), id, r) == Done(With(Link(tb, g', id, r).graph, id, all))
  {
    var w := With(g', id, refs + [r]);
    LinkIsPropagate(tb, g, g', id, refs, r);
    PropagateIgnoresOwn(tb, w, id, r, all);
    WithTwice(g', id, refs + [r], all);
  }

  lemma WithTwice(g: Graph, id: NodeId, own: seq<Reference>, own': seq<Reference>)
    requires id in g
    ensures With(With(g, id, own), id, own') == With(g, id, own')
  {
  }

  lemma StillInParallel(tb: TypeTable, g: Graph, id: NodeId, name: QualifiedName, all: seq<Reference>,
      refs: seq<Reference>, r: Reference, g': Graph)
    requires id !in g && InParallel(tb, g, id, name, all, refs, g') && !Clashes(tb, g, id, all)
    requires refs + [r] <= all && r !in refs && !Clashes(tb, g, id, refs + [r])
    ensures InParallel(tb, g, id, name, all, refs + [r], Link(tb, g', id, r).graph)
  {
    NextIsFresh(tb, g, g', id, refs, r);
    OneMoreLinked(tb, g, g', id, refs, r);
    assert r in refs + [r] && r in all;
    PropagatesWithAll(tb, g, g', id, all, refs, r);
    PropagateAllNext(tb, With(Bare(g, id, name), id, all), id, refs, r);
  }

  lemma NothingLinked(tb: TypeTable, g: Graph, id: NodeId, name: QualifiedName, all: seq<Reference>)
    requires Mirrored(tb, g) && id !in g && !Clashes(tb, g, id, all)
    ensures InParallel(tb, g, id, name, all, [], LinkAll(tb, Bare(g, id, name), id, []))
  {
    BareKeepsMirrored(tb, g, id, name, all);
  }

  lemma {:induction false} CreateIsLinks(tb: TypeTable, g: Graph, id: NodeId, name: QualifiedName, all: seq<Reference>,
      n: nat)
    requires Mirrored(tb, g) && id !in g && NoDup(all) && !Clashes(tb, g, id, all) && n <= |all|
    ensures InParallel(tb, g, id, name, all, all[..n], LinkAll(tb, Bare(g, id, name), id, all[..n]))
  {
    hide InParallel, Link;
    if n == 0 {
      NothingLinked(tb, g, id, name, all);
    } else {
      var r, refs := all[n - 1], all[..n - 1];
      assert all[..n] == refs + [r] && (refs + [r])[..n - 1] == refs;
      CreateIsLinks(tb, g, id, name, all, n - 1);
      FewerClashes(tb, g, id, all, n);
      StillInParallel(tb, g, id, name, all, refs, r, LinkAll(tb, Bare(g, id, name), id, refs));
    }
  }

  lemma FewerClashes(tb: TypeTable, g: Graph, id: NodeId, all: seq<Reference>, n: nat)
    requires n <= |all| && !Clashes(tb, g, id, all)
    ensures !Clashes(tb, g, id, all[..n])
  {
  }

  lemma CreateLinked(tb: TypeTable, g: Graph, id: NodeId, name: QualifiedName, refs: seq<Reference>)
    requires Mirrored(tb, g) && id !in g && NoDup(refs) && !Clashes(tb, g, id, refs)
    ensures CreateNode(tb, g, id, name, refs) == Done(LinkAll(tb, Bare(g, id, name), id, refs))
  {
    CreateIsLinks(tb, g, id, name, refs, |refs|);
    assert refs[..|refs|] == refs;
    WithItsOwn(LinkAll(tb, Bare(g, id, name), id, refs), id, refs);
    DeclaredAtOnce(g, id, name, refs);
  }

  lemma WithItsOwn(g: Graph, id: NodeId, own: seq<Reference>)
    requires id in g && g[id].own == own
    ensures With(g, id, own) == g
  {
  }

  lemma DeclaredAtOnce(g: Graph, id: NodeId, name: QualifiedName, own: seq<Reference>)
    ensures With(Bare(g, id, name), id, own) == g[id := NodeState(name, own, [], map[], None, map[])]
  {
  }

  /** The graph linked so far shows the lattice run so far. */
  ghost predicate Simulated(tb: TypeTable, g: Graph, g': Graph, id: NodeId, refs: seq<Reference>, types: seq<T.Step>) {
    Linked(tb, g, g', id, refs) && SingleInheritance(g') && TypeView(g') == T.Run(TypeView(g), types)
  }

  lemma OneMoreSimulated(tb: TypeTable, g: Graph, g': Graph, id: NodeId, refs: seq<Reference>, types: seq<T.Step>,
      r: Reference)
    requires id !in g && Simulated(tb, g, g', id, refs, types) && tb.Mirrored(HAS_SUBTYPE)
    requires !Clashes(tb, g, id, refs + [r]) && r !in refs
    requires T.LegalRun(TypeView(g), types + LinkTypes(tb, g', id, r))
    ensures Simulated(tb, g, Link(tb, g', id, r).graph, id, refs + [r], types + LinkTypes(tb, g', id, r))
  {
    T.RunAppend(TypeView(g), types, LinkTypes(tb, g', id, r));
    NextIsFresh(tb, g, g', id, refs, r);
    LinkSimulates(tb, g', id, r);
    OneMoreLinked(tb, g, g', id, refs, r);
  }

  lemma BareSimulated(tb: TypeTable, g: Graph, id: NodeId, name: QualifiedName)
    requires Mirrored(tb, g) && SingleInheritance(g) && id !in g && !Clashes(tb, g, id, [])
    ensures Simulated(tb, g, Bare(g, id, name), id, [], [])
  {
    BareKeepsTypes(g, id, name);
    BareKeepsMirrored(tb, g, id, name, []);
  }

  lemma LinkAllNext(tb: TypeTable, g: Graph, a: NodeId, refs: seq<Reference>, r: Reference)
    requires a in g
    ensures LinkAll(tb, g, a, refs + [r]) == Link(tb, LinkAll(tb, g, a, refs), a, r).graph
    ensures LinkAllTypes(tb, g, a, refs + [r]) ==
      LinkAllTypes(tb, g, a, refs) + LinkTypes(tb, LinkAll(tb, g, a, refs), a, r)
  {
    assert (refs + [r])[..|refs|] == refs;
  }

  lemma LastLinked(tb: TypeTable, g: Graph, id: NodeId, name: QualifiedName, init: seq<Reference>, r: Reference)
    requires id !in g && tb.Mirrored(HAS_SUBTYPE) && r !in init && !Clashes(tb, g, id, init + [r])
    requires Simulated(tb, g, LinkAll(tb, Bare(g, id, name), id, init), id, init,
      LinkAllTypes(tb, Bare(g, id, name), id, init))
    requires T.LegalRun(TypeView(g), LinkAllTypes(tb, Bare(g, id, name), id, init + [r]))
    ensures var refs := init + [r];
      Simulated(tb, g, LinkAll(tb, Bare(g, id, name), id, refs), id, refs,
        LinkAllTypes(tb, Bare(g, id, name), id, refs))
  {
    hide Clashes, LinkAll, LinkAllTypes, LinkTypes, Link, Simulated, TypeView;
    var g0 := Bare(g, id, name);
    LinkAllNext(tb, g0, id, init, r);
    OneMoreSimulated(tb, g, LinkAll(tb, g0, id, init), id, init, LinkAllTypes(tb, g0, id, init), r);
  }

  lemma {:induction false} LinkAllSimulates(tb: TypeTable, g: Graph, id: NodeId, name: QualifiedName,
      refs: seq<Reference>)
    requires Mirrored(tb, g) && SingleInheritance(g) && id !in g && NoDup(refs)
    requires !Clashes(tb, g, id, refs) && tb.Mirrored(HAS_SUBTYPE)
    requires T.LegalRun(TypeView(g), LinkAllTypes(tb, Bare(g, id, name), id, refs))
    ensures Simulated(tb, g, LinkAll(tb, Bare(g, id, name), id, refs), id, refs,
      LinkAllTypes(tb, Bare(g, id, name), id, refs))
  {
    if refs == [] {
      BareSimulated(tb, g, id, name);
    } else {
      hide Clashes, LinkAll, LinkAllTypes, LinkTypes, Link, Mirrored, Simulated, TypeView, SingleInheritance,
        T.LegalRun, T.SafeRun, T.Run;
      var init, r := refs[..|refs| - 1], refs[|refs| - 1];
      assert refs == init + [r];
      NoDupInit(init, r);
      FewerClashes(tb, g, id, refs, |init|);
      LinkAllNext(tb, Bare(g, id, name), id, init, r);
      var g1, types := LinkAll(tb, Bare(g, id, name), id, init), LinkAllTypes(tb, Bare(g, id, name), id, init);
      T.RunAppend(TypeView(g), types, LinkTypes(tb, g1, id, r));
      LinkAllSimulates(tb, g, id, name, init);
      LastLinked(tb, g, id, name, init, r);
    }
  }

  // ---- whole runs -----------------------------------------------------------------------------

  lemma CreateSimulates(tb: TypeTable, g: Graph, id: NodeId, name: QualifiedName, refs: seq<Reference>)
    requires Mirrored(tb, g) && SingleInheritance(g) && tb.Mirrored(HAS_SUBTYPE)
    requires id !in g && NoDup(refs) && !Clashes(tb, g, id, refs)
    requires T.LegalRun(TypeView(g), LinkAllTypes(tb, Bare(g, id, name), id, refs))
    ensures var g' := CreateNode(tb, g, id, name, refs).graph;
      TypeView(g') == T.Run(TypeView(g), LinkAllTypes(tb, Bare(g, id, name), id, refs)) && SingleInheritance(g')
  {
    hide CreateNode, TypeView, Linked, Mirrored;
    CreateLinked(tb, g, id, name, refs);
    LinkAllSimulates(tb, g, id, name, refs);
  }

  lemma AskedSimulates(g: Graph, d: NodeId, b: NodeId)
    requires d in g && SingleInheritance(g)
    ensures var (g', answer) := ReferenceGraph.Ask(g, d, b);
      && TypeView(g') == T.Run(TypeView(g), if answer.Answers? then [T.Ask(d, b)] else [])
      && SingleInheritance(g')
  {
    if ReferenceGraph.Ask(g, d, b).1.Answers? {
      AskSimulates(g, d, b);
      T.OneStep(TypeView(g), T.Ask(d, b));
    }
  }

  lemma ReadSimulates(g: Graph, a: NodeId, st: NodeState)
    requires a in g && SingleInheritance(g)
    requires st.own == g[a].own && st.back == g[a].back && st.memo == g[a].memo
    ensures TypeView(g[a := st]) == T.Run(TypeView(g), []) && SingleInheritance(g[a := st])
  {
    SameTypes(g, g[a := st]);
  }

  /** A step of the graph is the run of its lattice steps, memos included. */
  lemma StepSimulates(tb: TypeTable, g: Graph, s: Step)
    requires Mirrored(tb, g) && SingleInheritance(g) && Safe(tb, g, s) && tb.Mirrored(HAS_SUBTYPE)
    requires T.LegalRun(TypeView(g), Types(tb, g, s))
    ensures TypeView(Apply(tb, g, s)) == T.Run(TypeView(g), Types(tb, g, s)) && SingleInheritance(Apply(tb, g, s))
  {
    hide Mirrored, Clashes, TypeView, SingleInheritance, LinkAllTypes, LinkTypes, RemoveTypes, AddReference,
      RemoveReference;
    hide ReferenceGraph.Ask;
    if Enabled(g, s) {
      match s
      case Create(id, name, refs) =>
        if NoDup(refs) {
          CreateSimulates(tb, g, id, name, refs);
        }
      case Add(a, r) => AddSimulates(tb, g, a, r);
      case Remove(a, r) => RemoveSimulates(tb, g, a, r);
      case AskSubtype(d, b) => AskedSimulates(g, d, b);
      case Lookup(a, t, fwd) => ReadSimulates(g, a, Find(tb, g[a], t, fwd).0);
      case LookupChild(a) => ReadSimulates(g, a, WithNameIndex(tb, Names(g), g[a]));
    }
  }

  /** So is a run of the graph. */
  lemma {:induction false} RunSimulates(tb: TypeTable, g: Graph, steps: seq<Step>)
    requires tb.Valid() && Consistent(tb, g) && SingleInheritance(g)
    requires SafeRun(tb, g, steps) && tb.Mirrored(HAS_SUBTYPE)
    requires T.LegalRun(TypeView(g), RunTypes(tb, g, steps))
    ensures TypeView(Run(tb, g, steps)) == T.Run(TypeView(g), RunTypes(tb, g, steps))
    ensures SingleInheritance(Run(tb, g, steps))
    decreases |steps|
  {
    if steps != [] {
      var s, g1 := steps[0], Apply(tb, g, steps[0]);
      T.RunAppend(TypeView(g), Types(tb, g, s), RunTypes(tb, g1, steps[1..]));
      StepSimulates(tb, g, s);
      StepKeepsConsistent(tb, g, s);
      RunSimulates(tb, g1, steps[1..]);
    }
  }

  // ---- right answers --------------------------------------------------------------------------

  lemma SuperRegistered(tb: TypeTable, g: Graph, d: NodeId, r: Reference)
    requires Mirrored(tb, g) && NoDangling(tb, g) && tb.Mirrored(HAS_SUBTYPE)
    requires d in g && r in Supers(g[d])
    ensures r.nodeId in g
  {
    FilterMembers(g[d].own + g[d].back, IsSuper);
    assert HeldIsMirror(tb, g, d, r);
    assert r in g[d].own ==> Owns(g, d, r);
  }

  lemma AllRegistered(tb: TypeTable, g: Graph)
    requires Mirrored(tb, g) && NoDangling(tb, g) && tb.Mirrored(HAS_SUBTYPE)
    ensures SupersRegistered(g)
  {
    hide Mirrored, NoDangling, Supers;
    forall d | d in SupertypesOf(g)
      ensures SupertypesOf(g)[d] in g
    {
      assert SupersIn(g)[d][0] in Supers(g[d]);
      SuperRegistered(tb, g, d, SupersIn(g)[d][0]);
    }
  }

  /** isSubtypeOf answers for any two nodes, remembered or not, by the hierarchy. */
  ghost predicate AnswersRight(g: Graph) {
    forall d, b :: d in g ==> ReferenceGraph.Ask(g, d, b).1 == Answers(T.Above(SupertypesOf(g), d, b))
  }

  lemma AnswersRightIff(tb: TypeTable, g: Graph)
    requires Sound(tb, g) && tb.Mirrored(HAS_SUBTYPE)
    ensures AnswersRight(g) <==> T.Coherent(TypeView(g))
  {
    AllRegistered(tb, g);
    forall d, b
      ensures T.Right(TypeView(g), d, b) <==> MemoRight(g, d, b)
      ensures d in g ==>
        (ReferenceGraph.Ask(g, d, b).1 == Answers(T.Above(SupertypesOf(g), d, b)) <==> MemoRight(g, d, b))
    {
      MemoRightInView(g, d, b);
      if d in g {
        RegisteredNeverLost(g, d, b);
        AskAnswers(g, d, b);
      }
    }
  }

  lemma MemoRightInView(g: Graph, d: NodeId, b: NodeId)
    ensures T.Right(TypeView(g), d, b) <==> MemoRight(g, d, b)
  {
    assert d in g && b in g[d].memo <==> T.Remembers(TypeView(g), d, b);
  }

  /** A consistent graph without dangling references whose types form an acyclic hierarchy with single
      inheritance. */
  ghost predicate Sound(tb: TypeTable, g: Graph) {
    Consistent(tb, g) && NoDangling(tb, g) && SingleInheritance(g) && T.Acyclic(SupertypesOf(g))
  }

  lemma {:induction false} LinkAllTypesAttach(tb: TypeTable, g: Graph, a: NodeId, refs: seq<Reference>)
    requires a in g
    ensures T.Attaching(LinkAllTypes(tb, g, a, refs))
  {
    if refs != [] {
      hide LinkAll;
      LinkAllTypesAttach(tb, g, a, refs[..|refs| - 1]);
    }
  }

  lemma TypesAttachOrAreFew(tb: TypeTable, g: Graph, s: Step)
    ensures T.Attaching(Types(tb, g, s)) || |Types(tb, g, s)| == 1
  {
    if Enabled(g, s) && s.Create? {
      LinkAllTypesAttach(tb, Bare(g, s.id, s.name), s.id, s.refs);
    }
  }

  /** A step of any kind keeps the memos right exactly when no type that it does not wipe remembers an
      answer across an edge it changes. */
  lemma StepKeepsMemoRight(tb: TypeTable, g: Graph, s: Step)
    requires Mirrored(tb, g) && SingleInheritance(g) && Safe(tb, g, s) && tb.Mirrored(HAS_SUBTYPE)
    requires T.Coherent(TypeView(g)) && T.Acyclic(SupertypesOf(g)) && T.LegalRun(TypeView(g), Types(tb, g, s))
    ensures T.Coherent(TypeView(Apply(tb, g, s))) <==> T.Harmless(TypeView(g), Types(tb, g, s))
  {
    assert TypeView(g).supertypes == SupertypesOf(g);
    StepSimulates(tb, g, s);
    TypesAttachOrAreFew(tb, g, s);
    hide Types, Apply, TypeView, Mirrored, Safe, SingleInheritance;
    T.HarmlessExactly(TypeView(g), Types(tb, g, s));
  }

  ghost predicate HarmlessRun(tb: TypeTable, g: Graph, steps: seq<Step>)
    decreases |steps|
  {
    steps != [] ==>
      T.Harmless(TypeView(g), Types(tb, g, steps[0])) && HarmlessRun(tb, Apply(tb, g, steps[0]), steps[1..])
  }

  /** The answers are right in every state of the run. */
  ghost predicate AlwaysAnswersRight(tb: TypeTable, g: Graph, steps: seq<Step>)
    decreases |steps|
  {
    AnswersRight(g) && (steps != [] ==> AlwaysAnswersRight(tb, Apply(tb, g, steps[0]), steps[1..]))
  }

  lemma StepKeepsSound(tb: TypeTable, g: Graph, s: Step, later: seq<T.Step>)
    requires tb.Valid() && tb.Mirrored(HAS_SUBTYPE) && Sound(tb, g) && Grounded(tb, g, s)
    requires T.LegalRun(TypeView(g), Types(tb, g, s) + later)
    ensures T.LegalRun(TypeView(g), Types(tb, g, s)) && Safe(tb, g, s) && Sound(tb, Apply(tb, g, s))
    ensures TypeView(Apply(tb, g, s)) == T.Run(TypeView(g), Types(tb, g, s))
    ensures T.LegalRun(TypeView(Apply(tb, g, s)), later)
  {
    T.RunAppend(TypeView(g), Types(tb, g, s), later);
    GroundedStep(tb, g, s);
    StepSimulates(tb, g, s);
    StepKeepsConsistent(tb, g, s);
    assert TypeView(g).supertypes == SupertypesOf(g);
    T.LegalRunAcyclic(TypeView(g), Types(tb, g, s));
  }

  /** Along every run that declares no dangling reference and keeps single inheritance without cycles,
      isSubtypeOf answers rightly in all states exactly when every step is harmless to the memos. */
  lemma {:induction false} SubtypeAnswersRight(tb: TypeTable, g: Graph, steps: seq<Step>)
    requires tb.Valid() && tb.Mirrored(HAS_SUBTYPE) && Sound(tb, g) && AnswersRight(g)
    requires GroundedRun(tb, g, steps) && T.LegalRun(TypeView(g), RunTypes(tb, g, steps))
    ensures AlwaysAnswersRight(tb, g, steps) <==> HarmlessRun(tb, g, steps)
    decreases |steps|
  {
    if steps != [] {
      var s, g1 := steps[0], Apply(tb, g, steps[0]);
      StepKeepsSound(tb, g, s, RunTypes(tb, g1, steps[1..]));
      AnswersRightIff(tb, g);
      AnswersRightIff(tb, g1);
      StepKeepsMemoRight(tb, g, s);
      if AnswersRight(g1) {
        SubtypeAnswersRight(tb, g1, steps[1..]);
      }
    }
  }

  lemma {:induction false} SafeRunHarmless(tb: TypeTable, g: Graph, steps: seq<Step>)
    requires tb.Valid() && tb.Mirrored(HAS_SUBTYPE) && Sound(tb, g) && T.Coherent(TypeView(g))
    requires GroundedRun(tb, g, steps)
    requires T.LegalRun(TypeView(g), RunTypes(tb, g, steps)) && T.SafeRun(TypeView(g), RunTypes(tb, g, steps))
    ensures HarmlessRun(tb, g, steps)
    decreases |steps|
  {
    if steps != [] {
      var s, g1 := steps[0], Apply(tb, g, steps[0]);
      StepKeepsSound(tb, g, s, RunTypes(tb, g1, steps[1..]));
      T.RunAppend(TypeView(g), Types(tb, g, s), RunTypes(tb, g1, steps[1..]));
      assert TypeView(g).supertypes == SupertypesOf(g);
      T.SafeRunCoherent(TypeView(g), Types(tb, g, s));
      StepKeepsMemoRight(tb, g, s);
      SafeRunHarmless(tb, g1, steps[1..]);
    }
  }

  lemma EmptySound(tb: TypeTable)
    ensures Sound(tb, map[]) && T.Coherent(TypeView(map[])) && TypeView(map[]) == T.Lattice(map[], map[])
  {
    EmptyConsistent(tb);
    forall d, n: nat | n > 0
      ensures !T.UpIs(map[], d, n, d)
    {
    }
    assert SupertypesOf(map[]) == map[];
  }

  /** From the empty graph, runs in which a type is hung up before it has subtypes and taken down after
      it has lost them, by a reference of its own, never give a wrong answer. */
  lemma LeafRunAnswersRight(tb: TypeTable, steps: seq<Step>)
    requires tb.Valid() && tb.Mirrored(HAS_SUBTYPE) && GroundedRun(tb, map[], steps)
    requires T.LeafRun(T.Lattice(map[], map[]), RunTypes(tb, map[], steps))
    ensures AlwaysAnswersRight(tb, map[], steps)
  {
    EmptySound(tb);
    T.LeafRunSafe(T.Lattice(map[], map[]), RunTypes(tb, map[], steps));
    SafeRunHarmless(tb, map[], steps);
    SubtypeAnswersRight(tb, map[], steps);
  }
}

/** Owned references and their mirrors: the invariant that holds the two indexes of all nodes
    together, what keeps it, and what removal gets from it. */
module ReferenceGraphMirroring {
  import opened Common
  import opened References
  import opened ReferenceGraph

  predicate Owns(g: Graph, a: NodeId, r: Reference) {
    a in g && r in g[a].own
  }

  predicate Holds(g: Graph, b: NodeId, m: Reference) {
    b in g && m in g[b].back
  }

  ghost predicate IndexesDisjoint(st: NodeState) {
    NoDup(st.own) && NoDup(st.back) && forall r :: r in st.back ==> r !in st.own
  }

  predicate OwnedIsMirrored(tb: TypeTable, g: Graph, a: NodeId, r: Reference) {
    Owns(g, a, r) && tb.Mirrored(r.referenceType) && r.nodeId in g ==> Holds(g, r.nodeId, Mirror(r, a))
  }

  predicate HeldIsMirror(tb: TypeTable, g: Graph, b: NodeId, m: Reference) {
    Holds(g, b, m) ==> tb.Mirrored(m.referenceType) && Owns(g, m.nodeId, Mirror(m, b))
  }

  /** A back reference is exactly the mirror of a reference owned by a registered node. */
  ghost predicate Mirrored(tb: TypeTable, g: Graph) {
    && (forall a :: a in g ==> IndexesDisjoint(g[a]))
    && (forall a, r :: OwnedIsMirrored(tb, g, a, r))
    && (forall b, m :: HeldIsMirror(tb, g, b, m))
  }

  /** The same statement as one equivalence between two registered nodes. */
  lemma MirrorBijection(tb: TypeTable, g: Graph, a: NodeId, r: Reference)
    requires Mirrored(tb, g) && a in g && r.nodeId in g && tb.Mirrored(r.referenceType)
    ensures Owns(g, a, r) <==> Holds(g, r.nodeId, Mirror(r, a))
    ensures Owns(g, r.nodeId, Mirror(r, a)) <==> Holds(g, a, r)
    ensures Owns(g, a, r) ==> !Owns(g, r.nodeId, Mirror(r, a)) && !Holds(g, a, r)
  {
    var m := Mirror(r, a);
    assert Mirror(m, r.nodeId) == r;
    assert OwnedIsMirrored(tb, g, a, r) && HeldIsMirror(tb, g, r.nodeId, m);
    assert OwnedIsMirrored(tb, g, r.nodeId, m) && HeldIsMirror(tb, g, a, r);
    assert IndexesDisjoint(g[a]) && IndexesDisjoint(g[r.nodeId]);
  }

  // ---- addReference ---------------------------------------------------------------------------

  predicate Fresh(g: Graph, a: NodeId, r: Reference) {
    a in g && r !in g[a].own && r !in g[a].back
  }

  /** Past its two entry assertions addReference can only fail on an unknown reference type: the
      mirror is new to the far end, whose "exists already" error and silent return are unreachable. */
  lemma AddReachesMirror(tb: TypeTable, g: Graph, a: NodeId, r: Reference)
    requires Mirrored(tb, g) && Fresh(g, a, r)
    ensures AddReference(tb, g, a, r).Thrown? <==> r.referenceType !in tb.types
    ensures tb.Mirrored(r.referenceType) && r.nodeId in g ==>
      Mirror(r, a) !in g[r.nodeId].own && Mirror(r, a) !in g[r.nodeId].back
  {
    var m := Mirror(r, a);
    if tb.Mirrored(r.referenceType) && r.nodeId in g {
      MirrorBijection(tb, g, a, r);
      assert m != r;
    }
    assert Link(tb, g, a, r).Thrown? <==> r.referenceType !in tb.types;
  }

  /** When addReference throws: on a reference the node already has, and then nothing has changed, and
      on an unknown reference type, when the reference has already been filed. */
  lemma AddThrows(tb: TypeTable, g: Graph, a: NodeId, r: Reference)
    requires Mirrored(tb, g) && a in g
    ensures var out := AddReference(tb, g, a, r);
      && (out.Thrown? <==> r in g[a].own || r in g[a].back || r.referenceType !in tb.types)
      && (r in g[a].own ==> out == Thrown(g, AlreadyInReferences))
      && (r in g[a].back ==> out == Thrown(g, AlreadyInBackReferences))
      && (Fresh(g, a, r) && out.Thrown? ==>
            out.error == InvalidReferenceType && a in out.graph && out.graph[a].own == g[a].own + [r])
  {
    assert IndexesDisjoint(g[a]);
    if Fresh(g, a, r) {
      AddReachesMirror(tb, g, a, r);
    }
  }

  /** The far end of a reference throws exactly when it holds the mirror already, and keeps quiet when it
      declares that reference itself. */
  lemma AddBackwardThrows(tb: TypeTable, g: Graph, b: NodeId, m: Reference)
    requires b in g
    ensures var out := AddBackward(tb, g, b, m);
      && (out.Thrown? <==> m in g[b].back && m !in g[b].own)
      && (out.Thrown? ==> out == Thrown(g, AlreadyInBackReferences))
      && (m in g[b].own ==> out == Done(g))
  {
  }

  /** Exactly one owned reference and, where the type is mirrored, exactly one mirror are new. */
  ghost predicate AddedEdges(tb: TypeTable, g: Graph, a: NodeId, r: Reference, g': Graph) {
    && g'.Keys == g.Keys && Names(g') == Names(g)
    && (forall x :: x in g ==> g'[x].own == if x == a then g[x].own + [r] else g[x].own)
    && (forall x :: x in g ==>
          g'[x].back ==
            if x == r.nodeId && r.referenceType in tb.types && r.referenceType !in tb.massive
            then g[x].back + [Reference(!r.isForward, r.referenceType, a)] else g[x].back)
  }

  lemma AddEdges(tb: TypeTable, g: Graph, a: NodeId, r: Reference)
    requires Mirrored(tb, g) && Fresh(g, a, r)
    ensures AddedEdges(tb, g, a, r, AddReference(tb, g, a, r).graph)
  {
    LinkEdges(tb, g, a, r);
    if Link(tb, g, a, r).Done? {
      AnnounceOnlyIndexes(tb, Link(tb, g, a, r).graph, a, r.nodeId);
    }
  }

  /** What addReference leaves at the far end, `near` being what it leaves at the near one. */
  function FarEnd(tb: TypeTable, g: Graph, a: NodeId, r: Reference, near: NodeState): NodeState
    requires a in g && r.nodeId in g
  {
    var st, m := if r.nodeId == a then near else g[r.nodeId], Mirror(r, a);
    ClearCache(HandleHierarchical(tb, Names(g), st.(back := st.back + [m]), m))
  }

  lemma LinkParts(tb: TypeTable, g: Graph, a: NodeId, r: Reference, near: NodeState)
    requires Mirrored(tb, g) && Fresh(g, a, r) && near == Declare(tb, Names(g), g[a], r)
    ensures Link(tb, g, a, r).graph ==
      if tb.Mirrored(r.referenceType) && r.nodeId in g then g[a := near][r.nodeId := FarEnd(tb, g, a, r, near)]
      else g[a := near]
  {
    SameNames(g, a, near);
    if tb.Mirrored(r.referenceType) && r.nodeId in g {
      MirrorBijection(tb, g, a, r);
      assert Mirror(r, a) != r;
    }
  }

  lemma LinkEdges(tb: TypeTable, g: Graph, a: NodeId, r: Reference)
    requires Mirrored(tb, g) && Fresh(g, a, r)
    ensures AddedEdges(tb, g, a, r, Link(tb, g, a, r).graph)
  {
    hide HandleHierarchical, Link, Mirrored;
    var near := Declare(tb, Names(g), g[a], r);
    LinkParts(tb, g, a, r, near);
    SameNames(g, a, near);
    if tb.Mirrored(r.referenceType) && r.nodeId in g {
      SameNames(g[a := near], r.nodeId, FarEnd(tb, g, a, r, near));
    }
  }

  /** Nothing but child indexes differs. */
  ghost predicate OnlyIndexesDiffer(g: Graph, g': Graph) {
    g'.Keys == g.Keys && Names(g') == Names(g) && forall x :: x in g ==> g'[x].(nameIndex := g[x].nameIndex) == g[x]
  }

  lemma NodeVersionOnlyIndexes(tb: TypeTable, g: Graph, a: NodeId)
    requires a in g
    ensures OnlyIndexesDiffer(g, NodeVersion(tb, g, a).0)
  {
    SameNames(g, a, WithNameIndex(tb, Names(g), g[a]));
  }

  lemma AnnounceOnlyIndexes(tb: TypeTable, g: Graph, a: NodeId, b: NodeId)
    requires a in g
    ensures OnlyIndexesDiffer(g, Announce(tb, g, a, b))
  {
    NodeVersionOnlyIndexes(tb, g, a);
    if b in g {
      NodeVersionOnlyIndexes(tb, NodeVersion(tb, g, a).0, b);
    }
  }

  /** Who is asked for a version, and so has its index built: nobody if the far end is not registered, the
      near end, and the far end only if the near one has no version. */
  lemma AnnounceAsks(tb: TypeTable, g: Graph, a: NodeId, b: NodeId)
    requires a in g
    ensures var g' := Announce(tb, g, a, b);
      && (b !in g ==> g' == g)
      && (b in g ==> a in g' && g'[a].nameIndex.Some?)
      && (b in g && NodeVersion(tb, g, a).1.None? ==> b in g' && g'[b].nameIndex.Some?)
      && (b in g && NodeVersion(tb, g, a).1.Some? ==> forall x :: x in g && x != a ==> x in g' && g'[x] == g[x])
  {
  }

  lemma SameNames(g: Graph, a: NodeId, st: NodeState)
    requires a in g && st.browseName == g[a].browseName
    ensures Names(g[a := st]) == Names(g)
  {
  }

  lemma AddKeepsMirrored(tb: TypeTable, g: Graph, a: NodeId, r: Reference)
    requires Mirrored(tb, g) && a in g
    ensures Mirrored(tb, AddReference(tb, g, a, r).graph)
  {
    if Fresh(g, a, r) {
      AddEdges(tb, g, a, r);
      AddReachesMirror(tb, g, a, r);
      AddedEdgesKeepMirrored(tb, g, a, r, AddReference(tb, g, a, r).graph);
    }
  }

  lemma AddedEdgesKeepMirrored(tb: TypeTable, g: Graph, a: NodeId, r: Reference, g': Graph)
    requires Mirrored(tb, g) && Fresh(g, a, r) && AddedEdges(tb, g, a, r, g')
    requires tb.Mirrored(r.referenceType) && r.nodeId in g ==>
      Mirror(r, a) !in g[r.nodeId].own && Mirror(r, a) !in g[r.nodeId].back
    ensures Mirrored(tb, g')
  {
    assert Mirror(r, a) != r;
    forall x | x in g'
      ensures IndexesDisjoint(g'[x])
    {
      assert IndexesDisjoint(g[x]);
      var own := if x == a then [r] else [];
      var back := if x == r.nodeId && tb.Mirrored(r.referenceType) then [Mirror(r, a)] else [];
      assert g'[x].own == g[x].own + own && g'[x].back == g[x].back + back;
      StillDisjoint(g[x], g'[x], own, back);
    }
    AddedEdgesMirrored(tb, g, a, r, g');
  }

  lemma StillDisjoint(st: NodeState, st': NodeState, own: seq<Reference>, back: seq<Reference>)
    requires IndexesDisjoint(st) && st'.own == st.own + own && st'.back == st.back + back
    requires |own| <= 1 && |back| <= 1
    requires forall r :: r in own ==> r !in st.own && r !in st.back && r !in back
    requires forall r :: r in back ==> r !in st.own && r !in st.back
    ensures IndexesDisjoint(st')
  {
    NoDupAppendAtMostOne(st.own, own);
    NoDupAppendAtMostOne(st.back, back);
  }

  lemma AddedEdgesMirrored(tb: TypeTable, g: Graph, a: NodeId, r: Reference, g': Graph)
    requires Mirrored(tb, g) && Fresh(g, a, r) && AddedEdges(tb, g, a, r, g')
    ensures forall x, q :: OwnedIsMirrored(tb, g', x, q)
    ensures forall y, m :: HeldIsMirror(tb, g', y, m)
  {
    hide AddedEdges, OwnedIsMirrored, HeldIsMirror;
    forall x, q
      ensures OwnedIsMirrored(tb, g', x, q)
    {
      AddedOwnedMirrored(tb, g, a, r, g', x, q);
    }
    forall y, m
      ensures HeldIsMirror(tb, g', y, m)
    {
      AddedHeldMirrors(tb, g, a, r, g', y, m);
    }
  }

  lemma AddedOwnedMirrored(tb: TypeTable, g: Graph, a: NodeId, r: Reference, g': Graph, x: NodeId, q: Reference)
    requires Fresh(g, a, r) && AddedEdges(tb, g, a, r, g') && OwnedIsMirrored(tb, g, x, q)
    ensures OwnedIsMirrored(tb, g', x, q)
  {
    assert Owns(g', x, q) ==> Owns(g, x, q) || (x == a && q == r);
  }

  lemma AddedHeldMirrors(tb: TypeTable, g: Graph, a: NodeId, r: Reference, g': Graph, y: NodeId, m: Reference)
    requires Fresh(g, a, r) && AddedEdges(tb, g, a, r, g') && HeldIsMirror(tb, g, y, m)
    ensures HeldIsMirror(tb, g', y, m)
  {
    assert Holds(g', y, m) ==> Holds(g, y, m) || (y == r.nodeId && m == Mirror(r, a));
    assert y == r.nodeId && m == Mirror(r, a) ==> Mirror(m, y) == r;
  }

  // ---- removeReference ------------------------------------------------------------------------

  /** One owned reference goes, and its mirror with it. */
  ghost predicate RemovedEdges(g: Graph, a: NodeId, r: Reference, g': Graph) {
    && g'.Keys == g.Keys && Names(g') == Names(g)
    && (forall x :: x in g ==> g'[x].own == if x == a then Without(g[x].own, r) else g[x].own)
    && (forall x :: x in g ==> g'[x].back == if x == r.nodeId then Without(g[x].back, Mirror(r, a)) else g[x].back)
  }

  lemma RemoveEdges(tb: TypeTable, g: Graph, a: NodeId, r: Reference)
    requires a in g && r.nodeId in g
    ensures RemovedEdges(g, a, r, RemoveOwned(tb, g, a, r))
  {
    var st1 := g[a].(own := Without(g[a].own, r));
    var g1 := g[a := st1];
    SameNames(g, a, st1);
    var b, m := r.nodeId, Mirror(r, a);
    var st2 := RemoveHierarchical(tb, Names(g1), g1[b], m).(back := Without(g1[b].back, m));
    var g2 := g1[b := st2];
    SameNames(g1, b, st2);
    SameNames(g2, a, ClearCache(RemoveHierarchical(tb, Names(g), g2[a], r)));
  }

  lemma RemoveOwnedKeepsMirrored(tb: TypeTable, g: Graph, a: NodeId, r: Reference)
    requires Mirrored(tb, g) && a in g && r.nodeId in g
    ensures Mirrored(tb, RemoveOwned(tb, g, a, r))
  {
    RemoveEdges(tb, g, a, r);
    RemovedEdgesKeepMirrored(tb, g, a, r, RemoveOwned(tb, g, a, r));
  }

  lemma RemovedEdgesKeepMirrored(tb: TypeTable, g: Graph, a: NodeId, r: Reference, g': Graph)
    requires Mirrored(tb, g) && RemovedEdges(g, a, r, g')
    ensures Mirrored(tb, g')
  {
    forall x | x in g'
      ensures IndexesDisjoint(g'[x])
    {
      assert IndexesDisjoint(g[x]);
      WithoutNoDup(g[x].own, r);
      WithoutNoDup(g[x].back, Mirror(r, a));
    }
    forall x, q
      ensures OwnedIsMirrored(tb, g', x, q)
    {
      assert OwnedIsMirrored(tb, g, x, q);
      assert Mirror(Mirror(q, x), q.nodeId) == q;
    }
    forall y, m
      ensures HeldIsMirror(tb, g', y, m)
    {
      assert HeldIsMirror(tb, g, y, m);
      assert Mirror(Mirror(m, y), m.nodeId) == m;
    }
  }

  lemma RemoveKeepsMirrored(tb: TypeTable, g: Graph, a: NodeId, r: Reference)
    requires Mirrored(tb, g) && a in g
    ensures Mirrored(tb, RemoveReference(tb, g, a, r))
  {
    if r.nodeId in g {
      if r in g[a].own {
        RemoveOwnedKeepsMirrored(tb, g, a, r);
      } else if r in g[a].back {
        RemoveOwnedKeepsMirrored(tb, g, r.nodeId, Mirror(r, a));
      }
    }
  }

  /** Of all references, that of `a` to `r.nodeId` is gone, and its mirror at the other end. */
  ghost predicate Gone(g: Graph, g': Graph, a: NodeId, r: Reference) {
    && g'.Keys == g.Keys
    && (forall x, q :: Owns(g', x, q) <==> Owns(g, x, q) && !(x == a && q == r))
    && (forall x, q :: Holds(g', x, q) <==>
          Holds(g, x, q) && !(x == r.nodeId && q == Reference(!r.isForward, r.referenceType, a)))
  }

  /** What removeReference takes away, in any graph: a reference the node declares, or else one that it
      holds as a mirror, from the end that declares it; otherwise nothing. */
  lemma RemoveExactly(tb: TypeTable, g: Graph, a: NodeId, r: Reference)
    requires a in g
    ensures var g' := RemoveReference(tb, g, a, r);
      if r.nodeId in g && r in g[a].own then Gone(g, g', a, r)
      else if r.nodeId in g && r in g[a].back then Gone(g, g', r.nodeId, Reference(!r.isForward, r.referenceType, a))
      else g' == g
  {
    if r.nodeId in g {
      OwnedGone(tb, g, a, r);
      OwnedGone(tb, g, r.nodeId, Mirror(r, a));
      hide RemoveOwned, Gone;
    }
  }

  lemma OwnedGone(tb: TypeTable, g: Graph, a: NodeId, r: Reference)
    requires a in g && r.nodeId in g
    ensures Gone(g, RemoveOwned(tb, g, a, r), a, r)
  {
    hide RemoveOwned, RemovedEdges, Gone;
    RemoveEdges(tb, g, a, r);
    EdgesGone(g, a, r, RemoveOwned(tb, g, a, r));
  }

  lemma EdgesGone(g: Graph, a: NodeId, r: Reference, g': Graph)
    requires RemovedEdges(g, a, r, g')
    ensures Gone(g, g', a, r)
  {
  }

  /** The two ends send the request back and forth for ever: each holds only a mirror. */
  predicate Bounces(g: Graph, a: NodeId, r: Reference)
    requires a in g
  {
    && r.nodeId in g
    && r !in g[a].own && r in g[a].back
    && Mirror(r, a) !in g[r.nodeId].own && Mirror(r, a) in g[r.nodeId].back
  }

  lemma {:induction false} BouncesForever(tb: TypeTable, g: Graph, a: NodeId, r: Reference, depth: nat)
    requires a in g && Bounces(g, a, r)
    ensures RemoveWithin(tb, g, a, r, depth) == None
    decreases depth
  {
    if depth > 0 {
      assert Mirror(Mirror(r, a), r.nodeId) == r;
      BouncesForever(tb, g, r.nodeId, Mirror(r, a), depth - 1);
    }
  }

  /** In any graph at all, removeReference returns exactly when it does not bounce, and then two
      calls are enough. */
  lemma RemoveTerminates(tb: TypeTable, g: Graph, a: NodeId, r: Reference)
    requires a in g
    ensures (exists depth :: RemoveWithin(tb, g, a, r, depth).Some?) <==> !Bounces(g, a, r)
    ensures !Bounces(g, a, r) ==> RemoveWithin(tb, g, a, r, 2).Some?
  {
    if Bounces(g, a, r) {
      forall depth: nat
        ensures RemoveWithin(tb, g, a, r, depth) == None
      {
        BouncesForever(tb, g, a, r, depth);
      }
    } else {
      assert Mirror(Mirror(r, a), r.nodeId) == r;
      assert RemoveWithin(tb, g, a, r, 2).Some?;
    }
  }

  /** Mirroring rules bouncing out, so the recursion is at most two deep and its result is the one
      RemoveReference states without recursion. */
  lemma RemoveAtMostTwoDeep(tb: TypeTable, g: Graph, a: NodeId, r: Reference)
    requires Mirrored(tb, g) && a in g
    ensures !Bounces(g, a, r)
    ensures RemoveWithin(tb, g, a, r, 2) == Some(RemoveReference(tb, g, a, r))
  {
    assert HeldIsMirror(tb, g, a, r);
    assert Mirror(Mirror(r, a), r.nodeId) == r;
  }

  ghost predicate SameIndexes(g: Graph, g': Graph) {
    g'.Keys == g.Keys && forall x :: x in g ==> g'[x].own == g[x].own && g'[x].back == g[x].back
  }

  /** Adding a reference and removing it again from either end restores both indexes of every
      node, order included. */
  lemma AddThenRemoveRestores(tb: TypeTable, g: Graph, a: NodeId, r: Reference)
    requires Mirrored(tb, g) && Fresh(g, a, r)
    requires tb.Mirrored(r.referenceType) && r.nodeId in g
    ensures var added := AddReference(tb, g, a, r).graph;
      && added.Keys == g.Keys
      && SameIndexes(g, RemoveReference(tb, added, a, r))
      && SameIndexes(g, RemoveReference(tb, added, r.nodeId, Mirror(r, a)))
  {
    var added := AddReference(tb, g, a, r).graph;
    AddEdges(tb, g, a, r);
    AddReachesMirror(tb, g, a, r);
    AddKeepsMirrored(tb, g, a, r);
    EitherEnd(tb, added, a, r);
    RemoveEdges(tb, added, a, r);
    RoundTrip(tb, g, a, r, added, RemoveOwned(tb, added, a, r));
  }

  /** Removal from the end that holds the mirror is removal from the owner. */
  lemma EitherEnd(tb: TypeTable, g: Graph, a: NodeId, r: Reference)
    requires Mirrored(tb, g) && Owns(g, a, r) && tb.Mirrored(r.referenceType) && r.nodeId in g
    ensures RemoveReference(tb, g, a, r) == RemoveOwned(tb, g, a, r)
    ensures RemoveReference(tb, g, r.nodeId, Mirror(r, a)) == RemoveOwned(tb, g, a, r)
  {
    MirrorBijection(tb, g, a, r);
    assert Mirror(Mirror(r, a), r.nodeId) == r;
  }

  lemma RoundTrip(tb: TypeTable, g: Graph, a: NodeId, r: Reference, added: Graph, removed: Graph)
    requires Fresh(g, a, r) && tb.Mirrored(r.referenceType) && r.nodeId in g
    requires Mirror(r, a) !in g[r.nodeId].back
    requires AddedEdges(tb, g, a, r, added) && RemovedEdges(added, a, r, removed)
    ensures SameIndexes(g, removed)
  {
    WithoutLast(g[a].own, r);
    WithoutLast(g[r.nodeId].back, Mirror(r, a));
  }

  // ---- creating a node ------------------------------------------------------------------------

  /** Some node, `id` itself included, declares a mirrored reference to `id` that is not mirrored
      when `id` is registered: a reference that was dangling, or a self-reference declared in both
      directions. */
  ghost predicate Clashes(tb: TypeTable, g: Graph, id: NodeId, refs: seq<Reference>) {
    || (exists a, r :: Owns(g, a, r) && tb.Mirrored(r.referenceType) && r.nodeId == id)
    || (exists r :: r in refs && tb.Mirrored(r.referenceType) && r.nodeId == id && Mirror(r, id) in refs)
  }

  /** The mirrors that propagating `refs` of node `a` can add. */
  predicate NewMirror(tb: TypeTable, g: Graph, a: NodeId, refs: seq<Reference>, b: NodeId, m: Reference) {
    b in g && m.nodeId == a && Mirror(m, b) in refs && tb.Mirrored(m.referenceType) && m !in g[b].own
  }

  predicate OwnMirror(tb: TypeTable, g: Graph, a: NodeId, r: Reference, b: NodeId, m: Reference) {
    b in g && b == r.nodeId && m == Mirror(r, a) && tb.Mirrored(r.referenceType) && m !in g[b].own
  }

  lemma PropagateEdges(tb: TypeTable, g: Graph, a: NodeId, r: Reference)
    requires forall x :: x in g ==> IndexesDisjoint(g[x])
    requires forall b, m :: OwnMirror(tb, g, a, r, b, m) ==> !Holds(g, b, m)
    ensures var out := Propagate(tb, g, a, r);
      && out.Done?
      && out.graph.Keys == g.Keys && Names(out.graph) == Names(g)
      && (forall x :: x in g ==> out.graph[x].own == g[x].own && IndexesDisjoint(out.graph[x]))
      && (forall b, m :: Holds(out.graph, b, m) <==> Holds(g, b, m) || OwnMirror(tb, g, a, r, b, m))
  {
    var b, m := r.nodeId, Mirror(r, a);
    if tb.Mirrored(r.referenceType) && b in g && m !in g[b].own {
      assert OwnMirror(tb, g, a, r, b, m);
      assert !Holds(g, b, m);
      NoDupAppend(g[b].back, m);
    }
  }

  lemma NewMirrorOneMore(tb: TypeTable, g: Graph, a: NodeId, refs: seq<Reference>, r: Reference, b: NodeId,
      m: Reference)
    ensures NewMirror(tb, g, a, refs + [r], b, m) <==> NewMirror(tb, g, a, refs, b, m) || OwnMirror(tb, g, a, r, b, m)
    ensures OwnMirror(tb, g, a, r, b, m) && NewMirror(tb, g, a, refs, b, m) ==> r in refs
  {
    assert Mirror(Mirror(r, a), r.nodeId) == r;
    assert m.nodeId == a ==> Mirror(Mirror(m, b), a) == m;
  }

  lemma {:induction false} PropagateAllEdges(tb: TypeTable, g: Graph, a: NodeId, refs: seq<Reference>)
    requires a in g && NoDup(refs)
    requires forall x :: x in g ==> IndexesDisjoint(g[x])
    requires forall b, m :: NewMirror(tb, g, a, refs, b, m) ==> !Holds(g, b, m)
    ensures var out := PropagateAll(tb, g, a, refs);
      && out.Done?
      && out.graph.Keys == g.Keys && Names(out.graph) == Names(g)
      && (forall x :: x in g ==> out.graph[x].own == g[x].own && IndexesDisjoint(out.graph[x]))
      && (forall b, m :: Holds(out.graph, b, m) <==> Holds(g, b, m) || NewMirror(tb, g, a, refs, b, m))
  {
    if refs != [] {
      var init, r := refs[..|refs| - 1], refs[|refs| - 1];
      assert refs == init + [r];
      assert r !in init;
      forall b, m
        ensures NewMirror(tb, g, a, refs, b, m) <==> NewMirror(tb, g, a, init, b, m) || OwnMirror(tb, g, a, r, b, m)
        ensures OwnMirror(tb, g, a, r, b, m) ==> !NewMirror(tb, g, a, init, b, m)
      {
        NewMirrorOneMore(tb, g, a, init, r, b, m);
      }
      PropagateAllEdges(tb, g, a, init);
      var g1 := PropagateAll(tb, g, a, init).graph;
      assert forall b, m :: OwnMirror(tb, g1, a, r, b, m) <==> OwnMirror(tb, g, a, r, b, m);
      PropagateEdges(tb, g1, a, r);
    }
  }

  lemma NothingYetMirrored(tb: TypeTable, g: Graph, id: NodeId, g0: Graph, refs: seq<Reference>)
    requires Mirrored(tb, g) && id !in g && NoDup(refs)
    requires id in g0 && g0[id].own == refs && g0[id].back == [] && g0 == g[id := g0[id]]
    ensures forall x :: x in g0 ==> IndexesDisjoint(g0[x])
    ensures forall b, m :: NewMirror(tb, g0, id, refs, b, m) ==> !Holds(g0, b, m)
  {
    forall b, m | NewMirror(tb, g0, id, refs, b, m)
      ensures !Holds(g0, b, m)
    {
      assert HeldIsMirror(tb, g, b, m);
    }
  }

  /** The graph with the new node before and after propagation. */
  ghost predicate Propagated(tb: TypeTable, g: Graph, id: NodeId, refs: seq<Reference>, g0: Graph, g': Graph) {
    && id !in g && g0.Keys == g.Keys + {id} && g'.Keys == g0.Keys
    && (forall x :: x in g' ==> g'[x].own == if x == id then refs else g[x].own)
    && (forall x :: x in g0 ==> g0[x].own == if x == id then refs else g[x].own)
    && (forall x :: x in g0 ==> g0[x].back == if x == id then [] else g[x].back)
    && (forall b, m :: Holds(g', b, m) <==> Holds(g0, b, m) || NewMirror(tb, g0, id, refs, b, m))
  }

  lemma NoClashOwned(tb: TypeTable, g: Graph, id: NodeId, refs: seq<Reference>, g0: Graph, g': Graph, x: NodeId,
      q: Reference)
    requires Mirrored(tb, g) && !Clashes(tb, g, id, refs) && Propagated(tb, g, id, refs, g0, g')
    ensures OwnedIsMirrored(tb, g', x, q)
  {
    if Owns(g', x, q) && tb.Mirrored(q.referenceType) && q.nodeId in g' {
      var m := Mirror(q, x);
      assert Mirror(m, q.nodeId) == q;
      if x == id {
        assert q.nodeId != id ==> !Owns(g, q.nodeId, m);
        assert NewMirror(tb, g0, id, refs, q.nodeId, m);
      } else {
        assert Owns(g, x, q) && OwnedIsMirrored(tb, g, x, q);
        assert Holds(g0, q.nodeId, m);
      }
    }
  }

  lemma NoClashHeld(tb: TypeTable, g: Graph, id: NodeId, refs: seq<Reference>, g0: Graph, g': Graph, b: NodeId,
      m: Reference)
    requires Mirrored(tb, g) && Propagated(tb, g, id, refs, g0, g')
    ensures HeldIsMirror(tb, g', b, m)
  {
    assert HeldIsMirror(tb, g, b, m);
  }

  lemma NoClashMirrors(tb: TypeTable, g: Graph, id: NodeId, refs: seq<Reference>, g0: Graph, g': Graph)
    requires Mirrored(tb, g) && !Clashes(tb, g, id, refs) && Propagated(tb, g, id, refs, g0, g')
    requires forall x :: x in g' ==> IndexesDisjoint(g'[x])
    ensures Mirrored(tb, g')
  {
    hide Clashes, Propagated, OwnedIsMirrored, HeldIsMirror, IndexesDisjoint;
    forall x, q
      ensures OwnedIsMirrored(tb, g', x, q)
    {
      NoClashOwned(tb, g, id, refs, g0, g', x, q);
    }
    forall b, m
      ensures HeldIsMirror(tb, g', b, m)
    {
      NoClashHeld(tb, g, id, refs, g0, g', b, m);
    }
  }

  lemma MissingMirror(tb: TypeTable, g: Graph, a: NodeId, r: Reference)
    requires Owns(g, a, r) && tb.Mirrored(r.referenceType) && r.nodeId in g && !Holds(g, r.nodeId, Mirror(r, a))
    ensures !Mirrored(tb, g)
  {
    assert !OwnedIsMirrored(tb, g, a, r);
  }

  lemma ClashBreaksMirroring(tb: TypeTable, g: Graph, id: NodeId, refs: seq<Reference>, g0: Graph, g': Graph)
    requires Clashes(tb, g, id, refs) && Propagated(tb, g, id, refs, g0, g')
    ensures !Mirrored(tb, g')
  {
    hide Mirrored;
    if a, r :| Owns(g, a, r) && tb.Mirrored(r.referenceType) && r.nodeId == id {
      assert !Holds(g0, id, Mirror(r, a));
      MissingMirror(tb, g', a, r);
    } else {
      var r :| r in refs && tb.Mirrored(r.referenceType) && r.nodeId == id && Mirror(r, id) in refs;
      assert !Holds(g0, id, Mirror(r, id));
      MissingMirror(tb, g', id, r);
    }
  }

  lemma OnlyMirrorsAdded(tb: TypeTable, g: Graph, id: NodeId, refs: seq<Reference>, st: NodeState, g': Graph)
    requires id !in g && st.own == refs && st.back == []
    requires var g0 := g[id := st];
      && g'.Keys == g0.Keys && (forall x :: x in g0 ==> g'[x].own == g0[x].own)
      && (forall b, m :: Holds(g', b, m) <==> Holds(g0, b, m) || NewMirror(tb, g0, id, refs, b, m))
    ensures Propagated(tb, g, id, refs, g[id := st], g')
  {
    hide Holds, NewMirror;
  }

  lemma CreatePropagates(tb: TypeTable, g: Graph, id: NodeId, name: QualifiedName, refs: seq<Reference>)
    requires Mirrored(tb, g) && id !in g && NoDup(refs)
    ensures var g0, out := g[id := NodeState(name, refs, [], map[], None, map[])], CreateNode(tb, g, id, name, refs);
      && out.Done? && Propagated(tb, g, id, refs, g0, out.graph)
      && forall x :: x in out.graph ==> IndexesDisjoint(out.graph[x])
  {
    var st := NodeState(name, refs, [], map[], None, map[]);
    NothingYetMirrored(tb, g, id, g[id := st], refs);
    hide Mirrored, Propagated, Holds, NewMirror, IndexesDisjoint, PropagateAll;
    PropagateAllEdges(tb, g[id := st], id, refs);
    var g' := PropagateAll(tb, g[id := st], id, refs).graph;
    OnlyMirrorsAdded(tb, g, id, refs, st, g');
    assert CreateNode(tb, g, id, name, refs) == Done(g');
  }

  /** Registering a node keeps the graph mirrored exactly when its references are distinct (or it
      is refused) and nothing clashes with it. */
  lemma CreateKeepsMirrored(tb: TypeTable, g: Graph, id: NodeId, name: QualifiedName, refs: seq<Reference>)
    requires Mirrored(tb, g) && id !in g
    ensures CreateNode(tb, g, id, name, refs).Done? <==> NoDup(refs)
    ensures !NoDup(refs) ==> CreateNode(tb, g, id, name, refs) == Thrown(g, AlreadyInReferences)
    ensures NoDup(refs) ==>
      (Mirrored(tb, CreateNode(tb, g, id, name, refs).graph) <==> !Clashes(tb, g, id, refs))
  {
    if NoDup(refs) {
      hide Propagated, Clashes, Mirrored;
      var g0 := g[id := NodeState(name, refs, [], map[], None, map[])];
      CreatePropagates(tb, g, id, name, refs);
      var g' := CreateNode(tb, g, id, name, refs).graph;
      if Clashes(tb, g, id, refs) {
        ClashBreaksMirroring(tb, g, id, refs, g0, g');
      } else {
        NoClashMirrors(tb, g, id, refs, g0, g');
      }
    }
  }

  // ---- taking a node out again ----------------------------------------------------------------

  predicate NoSelfReference(a: NodeId, refs: seq<Reference>) {
    forall r :: r in refs ==> r.nodeId != a
  }

  /** The back references that are not mirrors of references of `a`, in order. */
  function FromOthers(refs: seq<Reference>, a: NodeId): seq<Reference> {
    if refs == [] then []
    else FromOthers(refs[..|refs| - 1], a) + if refs[|refs| - 1].nodeId == a then [] else [refs[|refs| - 1]]
  }

  lemma FromOthersAppend(refs: seq<Reference>, m: Reference, a: NodeId)
    ensures FromOthers(refs + [m], a) == FromOthers(refs, a) + if m.nodeId == a then [] else [m]
  {
    assert (refs + [m])[..|refs|] == refs;
  }

  lemma {:induction false} FromOthersAll(refs: seq<Reference>, a: NodeId)
    requires forall m :: m in refs ==> m.nodeId != a
    ensures FromOthers(refs, a) == refs
  {
    if refs != [] {
      var init, m := refs[..|refs| - 1], refs[|refs| - 1];
      assert refs == init + [m];
      FromOthersAll(init, a);
    }
  }

  lemma {:induction false} FromOthersWithout(refs: seq<Reference>, m: Reference, a: NodeId)
    requires m.nodeId == a
    ensures FromOthers(Without(refs, m), a) == FromOthers(refs, a)
  {
    if refs != [] {
      var init, last := refs[..|refs| - 1], refs[|refs| - 1];
      assert refs == init + [last];
      FromOthersWithout(init, m, a);
      WithoutAppend(init, [last], m);
      assert [last][1..] == [];
      if last != m {
        FromOthersAppend(Without(init, m), last, a);
      } else {
        assert Without(init, m) + [] == Without(init, m);
      }
    }
  }

  /** Propagation adds nothing but mirrors of references of `a`. */
  lemma {:induction false} PropagateKeepsOthers(tb: TypeTable, g: Graph, a: NodeId, refs: seq<Reference>)
    requires PropagateAll(tb, g, a, refs).Done?
    ensures var g' := PropagateAll(tb, g, a, refs).graph;
      g'.Keys == g.Keys && forall x :: x in g ==> FromOthers(g'[x].back, a) == FromOthers(g[x].back, a)
  {
    if refs != [] {
      var init, r := refs[..|refs| - 1], refs[|refs| - 1];
      PropagateKeepsOthers(tb, g, a, init);
      var g1 := PropagateAll(tb, g, a, init).graph;
      if r.nodeId in g1 {
        FromOthersAppend(g1[r.nodeId].back, Mirror(r, a), a);
      }
    }
  }

  predicate MirrorOf(a: NodeId, refs: seq<Reference>, x: NodeId, m: Reference) {
    m.nodeId == a && Mirror(m, x) in refs
  }

  /** Exactly the mirrors of `refs` are gone, and the rest is left in order. */
  ghost predicate Unpropagated(g: Graph, g': Graph, a: NodeId, refs: seq<Reference>) {
    && g'.Keys == g.Keys
    && (forall x :: x in g ==> g'[x].own == g[x].own && FromOthers(g'[x].back, a) == FromOthers(g[x].back, a))
    && (forall x, m :: Holds(g', x, m) <==> Holds(g, x, m) && !MirrorOf(a, refs, x, m))
    && (forall x :: x in g && NoDup(g[x].back) ==> NoDup(g'[x].back))
  }

  lemma {:induction false} UnpropagateEdges(tb: TypeTable, g: Graph, a: NodeId, refs: seq<Reference>)
    requires NoSelfReference(a, refs)
    ensures UnpropagateAll(tb, g, a, refs).Done?
    ensures Unpropagated(g, UnpropagateAll(tb, g, a, refs).graph, a, refs)
  {
    if refs != [] {
      var init, r := refs[..|refs| - 1], refs[|refs| - 1];
      assert refs == init + [r];
      UnpropagateEdges(tb, g, a, init);
      var g1 := UnpropagateAll(tb, g, a, init).graph;
      if r.nodeId in g1 {
        var g2 := RemoveBackward(tb, g1, r.nodeId, Mirror(r, a));
        RemoveBackwardEdges(tb, g1, r.nodeId, Mirror(r, a));
        OneUnpropagated(g, g1, g2, a, init, r);
      } else {
        NoneUnpropagated(g, g1, a, init, r);
      }
    }
  }

  /** It throws exactly on a reference of the node to itself. */
  lemma {:induction false} UnpropagateThrows(tb: TypeTable, g: Graph, a: NodeId, refs: seq<Reference>)
    requires a in g
    ensures UnpropagateAll(tb, g, a, refs).graph.Keys == g.Keys
    ensures UnpropagateAll(tb, g, a, refs).Thrown? <==> !NoSelfReference(a, refs)
  {
    if refs != [] {
      UnpropagateThrows(tb, g, a, refs[..|refs| - 1]);
      assert refs == refs[..|refs| - 1] + [refs[|refs| - 1]];
    }
  }

  ghost predicate BackwardRemoved(g: Graph, g': Graph, b: NodeId, m: Reference) {
    && g'.Keys == g.Keys
    && (forall x :: x in g ==>
          g'[x].own == g[x].own && g'[x].back == if x == b then Without(g[x].back, m) else g[x].back)
  }

  lemma RemoveBackwardEdges(tb: TypeTable, g: Graph, b: NodeId, m: Reference)
    requires b in g
    ensures BackwardRemoved(g, RemoveBackward(tb, g, b, m), b, m)
  {
  }

  lemma MirrorOfOneMore(a: NodeId, refs: seq<Reference>, r: Reference, x: NodeId, m: Reference)
    ensures MirrorOf(a, refs + [r], x, m) <==> MirrorOf(a, refs, x, m) || (x == r.nodeId && m == Mirror(r, a))
  {
    assert Mirror(Mirror(r, a), r.nodeId) == r;
    assert m.nodeId == a ==> Mirror(Mirror(m, x), a) == m;
  }

  lemma OneUnpropagated(g: Graph, g1: Graph, g2: Graph, a: NodeId, refs: seq<Reference>, r: Reference)
    requires Unpropagated(g, g1, a, refs) && r.nodeId in g && BackwardRemoved(g1, g2, r.nodeId, Mirror(r, a))
    ensures Unpropagated(g, g2, a, refs + [r])
  {
    var b, m0 := r.nodeId, Mirror(r, a);
    FromOthersWithout(g1[b].back, m0, a);
    if NoDup(g1[b].back) {
      WithoutNoDup(g1[b].back, m0);
    }
    forall x, m
      ensures Holds(g2, x, m) <==> Holds(g, x, m) && !MirrorOf(a, refs + [r], x, m)
    {
      MirrorOfOneMore(a, refs, r, x, m);
      assert Holds(g1, x, m) <==> Holds(g, x, m) && !MirrorOf(a, refs, x, m);
    }
  }

  lemma NoneUnpropagated(g: Graph, g1: Graph, a: NodeId, refs: seq<Reference>, r: Reference)
    requires Unpropagated(g, g1, a, refs) && r.nodeId !in g
    ensures Unpropagated(g, g1, a, refs + [r])
  {
    forall x, m
      ensures Holds(g1, x, m) <==> Holds(g, x, m) && !MirrorOf(a, refs + [r], x, m)
    {
      MirrorOfOneMore(a, refs, r, x, m);
      assert Holds(g1, x, m) <==> Holds(g, x, m) && !MirrorOf(a, refs, x, m);
    }
  }

  /** Unpropagating a node and dropping it leaves the other nodes mirrored. */
  lemma UnregisterKeepsMirrored(tb: TypeTable, g: Graph, a: NodeId)
    requires Mirrored(tb, g) && a in g && NoSelfReference(a, g[a].own)
    ensures Mirrored(tb, UnpropagateAll(tb, g, a, g[a].own).graph - {a})
  {
    var g1 := UnpropagateAll(tb, g, a, g[a].own).graph;
    UnpropagateEdges(tb, g, a, g[a].own);
    var g' := g1 - {a};
    forall x | x in g'
      ensures IndexesDisjoint(g'[x])
    {
      assert IndexesDisjoint(g[x]);
      forall r | r in g'[x].back
        ensures r !in g'[x].own
      {
        assert Holds(g1, x, r) && Holds(g, x, r);
      }
    }
    forall x, r
      ensures OwnedIsMirrored(tb, g', x, r)
    {
      assert OwnedIsMirrored(tb, g, x, r);
    }
    forall x, m
      ensures HeldIsMirror(tb, g', x, m)
    {
      assert HeldIsMirror(tb, g, x, m);
      assert Holds(g', x, m) ==> Holds(g1, x, m);
    }
  }

  /** What creating `id` leaves on another node: its back references as they were, plus mirrors of
      `refs`. */
  predicate Gained(st: NodeState, st': NodeState, id: NodeId, refs: seq<Reference>, x: NodeId) {
    && st'.own == st.own && FromOthers(st'.back, id) == st.back
    && forall m :: m in st'.back && m.nodeId == id ==> MirrorOf(id, refs, x, m)
  }

  lemma CreateGains(tb: TypeTable, g: Graph, id: NodeId, name: QualifiedName, refs: seq<Reference>, x: NodeId)
    requires Mirrored(tb, g) && id !in g && NoDup(refs) && x in g
    ensures var created := CreateNode(tb, g, id, name, refs);
      created.Done? && created.graph.Keys == g.Keys + {id} && Gained(g[x], created.graph[x], id, refs, x)
  {
    var g0 := g[id := NodeState(name, refs, [], map[], None, map[])];
    NothingYetMirrored(tb, g, id, g0, refs);
    PropagateAllEdges(tb, g0, id, refs);
    PropagateKeepsOthers(tb, g0, id, refs);
    var g1 := PropagateAll(tb, g0, id, refs).graph;
    NoneFrom(tb, g, id, x);
    FromOthersAll(g[x].back, id);
    forall m | m in g1[x].back && m.nodeId == id
      ensures MirrorOf(id, refs, x, m)
    {
      assert Holds(g1, x, m);
      assert Holds(g0, x, m) || NewMirror(tb, g0, id, refs, x, m);
    }
  }

  lemma NoneFrom(tb: TypeTable, g: Graph, id: NodeId, x: NodeId)
    requires Mirrored(tb, g) && id !in g && x in g
    ensures forall m :: m in g[x].back ==> m.nodeId != id
  {
    forall m | m in g[x].back
      ensures m.nodeId != id
    {
      assert HeldIsMirror(tb, g, x, m) && Holds(g, x, m);
    }
  }

  /** "Undo the effect of propagate_back_references": creating a node, unpropagating and dropping it
      restores both indexes of every other node, order included. */
  lemma CreateThenUnregisterRestores(tb: TypeTable, g: Graph, id: NodeId, name: QualifiedName, refs: seq<Reference>)
    requires Mirrored(tb, g) && id !in g && NoDup(refs) && NoSelfReference(id, refs)
    ensures var created := CreateNode(tb, g, id, name, refs);
      created.Done? && SameIndexes(g, UnpropagateAll(tb, created.graph, id, refs).graph - {id})
  {
    CreateKeepsMirrored(tb, g, id, name, refs);
    var g1 := CreateNode(tb, g, id, name, refs).graph;
    forall x | x in g
      ensures x in g1 && Gained(g[x], g1[x], id, refs, x)
    {
      CreateGains(tb, g, id, name, refs, x);
    }
    UnpropagateEdges(tb, g1, id, refs);
    CreatedKeys(tb, g, id, name, refs);
    Restored(g, g1, UnpropagateAll(tb, g1, id, refs).graph, id, refs);
  }

  lemma CreatedKeys(tb: TypeTable, g: Graph, id: NodeId, name: QualifiedName, refs: seq<Reference>)
    requires Mirrored(tb, g) && id !in g && NoDup(refs)
    ensures CreateNode(tb, g, id, name, refs).graph.Keys == g.Keys + {id}
  {
    var g0 := g[id := NodeState(name, refs, [], map[], None, map[])];
    NothingYetMirrored(tb, g, id, g0, refs);
    PropagateAllEdges(tb, g0, id, refs);
  }

  lemma Restored(g: Graph, g1: Graph, g2: Graph, id: NodeId, refs: seq<Reference>)
    requires id !in g && g1.Keys == g.Keys + {id} && Unpropagated(g1, g2, id, refs)
    requires forall x :: x in g ==> Gained(g[x], g1[x], id, refs, x)
    ensures SameIndexes(g, g2 - {id})
  {
    forall x | x in g
      ensures g2[x].own == g[x].own && g2[x].back == g[x].back
    {
      assert Gained(g[x], g1[x], id, refs, x);
      forall m | m in g2[x].back
        ensures m.nodeId != id
      {
        assert Holds(g2, x, m) && Holds(g1, x, m) && !MirrorOf(id, refs, x, m);
      }
      FromOthersAll(g2[x].back, id);
    }
  }
}

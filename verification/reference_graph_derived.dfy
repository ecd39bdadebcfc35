/** The structures derived from the two indexes: the lookup cache of findReferences and the index of
    children by browse name. Both are kept up to date step by step; here they are compared with
    what a fresh scan of the references gives. */
module ReferenceGraphDerived {
  import opened Common
  import opened References
  import opened ReferenceGraph
  import opened ReferenceGraphMirroring

  // ---- the name index -------------------------------------------------------------------------

  /** The references a rescan would index under some name. */
  function Indexed(tb: TypeTable, st: NodeState): set<Reference> {
    set r | r in st.own + st.back && r.isForward && r.referenceType in tb.hierarchical
  }

  predicate Under(names: map<NodeId, QualifiedName>, r: Reference, name: string) {
    r.nodeId in names && names[r.nodeId].name == name
  }

  ghost predicate SlotHolds(names: map<NodeId, QualifiedName>, index: NameIndex, refs: set<Reference>, name: string) {
    && (forall r :: r in SlotRefs(index, name) <==> r in refs && Under(names, r, name))
    && NoDup(SlotRefs(index, name))
    && (name in index && index[name].Many? ==> |index[name].refs| >= 2)
  }

  /** The index groups `refs` by the browse name of their target: no slot for an unused name, a
      single entry for one reference, an array for several. */
  ghost predicate IndexHolds(names: map<NodeId, QualifiedName>, index: NameIndex, refs: set<Reference>) {
    forall name :: SlotHolds(names, index, refs, name)
  }

  /** Two indexes of the same references agree slot by slot, up to the order inside an array. */
  lemma SameIndex(names: map<NodeId, QualifiedName>, i1: NameIndex, i2: NameIndex, refs: set<Reference>)
    requires IndexHolds(names, i1, refs) && IndexHolds(names, i2, refs)
    ensures i1.Keys == i2.Keys
    ensures forall name :: name in i1 ==>
      && i1[name].Single? == i2[name].Single?
      && (i1[name].Single? ==> i1[name] == i2[name])
      && multiset(SlotRefs(i1, name)) == multiset(SlotRefs(i2, name))
  {
    forall name
      ensures name in i1 <==> name in i2
      ensures name in i1 ==> i1[name].Single? == i2[name].Single?
      ensures name in i1 && i1[name].Single? ==> i1[name] == i2[name]
      ensures multiset(SlotRefs(i1, name)) == multiset(SlotRefs(i2, name))
    {
      assert SlotHolds(names, i1, refs, name) && SlotHolds(names, i2, refs, name);
      SameMembers(SlotRefs(i1, name), SlotRefs(i2, name));
      SlotShape(names, i1, refs, name);
      SlotShape(names, i2, refs, name);
    }
  }

  lemma SlotShape(names: map<NodeId, QualifiedName>, index: NameIndex, refs: set<Reference>, name: string)
    requires SlotHolds(names, index, refs, name)
    ensures name !in index <==> |SlotRefs(index, name)| == 0
    ensures name in index && index[name].Single? <==> |SlotRefs(index, name)| == 1
  {
  }

  lemma SameMembers(s: seq<Reference>, t: seq<Reference>)
    requires NoDup(s) && NoDup(t) && forall r :: r in s <==> r in t
    ensures multiset(s) == multiset(t) && |s| == |t|
    ensures |s| == 1 ==> s == t
  {
    SameMultiset(s, t);
    assert |multiset(s)| == |multiset(t)|;
    if |s| == 1 {
      assert s[0] in t;
    }
  }

  lemma {:induction false} SameMultiset(s: seq<Reference>, t: seq<Reference>)
    requires NoDup(s) && NoDup(t) && forall r :: r in s <==> r in t
    ensures multiset(s) == multiset(t)
  {
    if s != [] {
      var r := s[0];
      WithoutNoDup(t, r);
      assert s == [r] + s[1..] && r !in s[1..];
      SameMultiset(s[1..], Without(t, r));
      WithoutMultiset(t, r);
    } else {
      forall r
        ensures r !in multiset(t)
      {
        assert r !in s;
      }
    }
  }

  lemma {:induction false} WithoutMultiset(t: seq<Reference>, r: Reference)
    requires NoDup(t) && r in t
    ensures multiset(t) == multiset(Without(t, r)) + multiset{r}
  {
    assert t == [t[0]] + t[1..];
    if t[0] == r {
      WithoutAbsent(t[1..], r);
    } else {
      WithoutMultiset(t[1..], r);
    }
  }

  lemma IndexAddHolds(names: map<NodeId, QualifiedName>, index: NameIndex, refs: set<Reference>, r: Reference)
    requires IndexHolds(names, index, refs) && r !in refs
    ensures IndexHolds(names, IndexAdd(names, index, r), refs + {r})
  {
    var index' := IndexAdd(names, index, r);
    forall name
      ensures SlotHolds(names, index', refs + {r}, name)
    {
      assert SlotHolds(names, index, refs, name);
      if Under(names, r, name) {
        assert SlotRefs(index', name) == SlotRefs(index, name) + [r];
      } else {
        assert SlotRefs(index', name) == SlotRefs(index, name);
      }
    }
  }

  lemma IndexRemoveSlot(names: map<NodeId, QualifiedName>, index: NameIndex, r: Reference, name: string)
    requires name in index && Under(names, r, name)
    ensures var index' := IndexRemove(names, index, r);
      && SlotRefs(index', name) == (if index[name].Single? then [] else Without(index[name].refs, r))
      && (name in index' && index'[name].Many? ==> |index'[name].refs| >= 2)
  {
  }

  /** Deleting a single entry without comparing it is right exactly when the reference was in the
      index, or nothing single stands under its name. */
  lemma IndexRemoveHolds(names: map<NodeId, QualifiedName>, index: NameIndex, refs: set<Reference>, r: Reference)
    requires IndexHolds(names, index, refs) && r.nodeId in names
    ensures IndexHolds(names, IndexRemove(names, index, r), refs - {r}) <==>
      (r in refs || !(names[r.nodeId].name in index && index[names[r.nodeId].name].Single?))
  {
    var index' := IndexRemove(names, index, r);
    var own := names[r.nodeId].name;
    if r in refs || !(own in index && index[own].Single?) {
      forall name
        ensures SlotHolds(names, index', refs - {r}, name)
      {
        assert SlotHolds(names, index, refs, name);
        if name == own && name in index {
          IndexRemoveSlot(names, index, r, name);
          if index[name].Single? {
            assert r in SlotRefs(index, name);
          } else {
            WithoutNoDup(index[name].refs, r);
          }
        } else {
          assert SlotRefs(index', name) == SlotRefs(index, name);
        }
      }
    } else {
      assert SlotHolds(names, index, refs, own);
      var other := index[own].ref;
      assert other in SlotRefs(index, own);
      assert !SlotHolds(names, index', refs - {r}, own);
    }
  }

  lemma {:induction false} IndexAllHolds(names: map<NodeId, QualifiedName>, refs: seq<Reference>)
    requires NoDup(refs)
    ensures IndexHolds(names, IndexAll(names, refs), set r | r in refs)
  {
    if refs == [] {
      forall name
        ensures SlotHolds(names, map[], {}, name)
      {
      }
      assert (set r | r in refs) == {};
    } else {
      var init, last := refs[..|refs| - 1], refs[|refs| - 1];
      assert refs == init + [last];
      IndexAllHolds(names, init);
      IndexAddHolds(names, IndexAll(names, init), (set r | r in init), last);
      assert (set r | r in refs) == (set r | r in init) + {last};
    }
  }

  lemma {:induction false} FilterMembers(refs: seq<Reference>, keep: Reference -> bool)
    ensures forall r :: r in Filter(refs, keep) <==> r in refs && keep(r)
    ensures NoDup(refs) ==> NoDup(Filter(refs, keep))
  {
    if refs != [] {
      FilterMembers(refs[1..], keep);
      assert refs == [refs[0]] + refs[1..];
      if NoDup(refs) {
        assert refs[0] !in Filter(refs[1..], keep);
      }
    }
  }

  lemma {:induction false} FilterAppend(refs: seq<Reference>, r: Reference, keep: Reference -> bool)
    ensures Filter(refs + [r], keep) == Filter(refs, keep) + if keep(r) then [r] else []
  {
    if refs == [] {
      assert [r][1..] == [];
      assert refs + [r] == [r];
    } else {
      assert (refs + [r])[1..] == refs[1..] + [r];
      FilterAppend(refs[1..], r, keep);
      AppendAssoc(if keep(refs[0]) then [refs[0]] else [], Filter(refs[1..], keep), if keep(r) then [r] else []);
    }
  }

  lemma FindHierarchicalIsScan(tb: TypeTable, st: NodeState)
    requires IndexesDisjoint(st)
    ensures NoDup(FindHierarchical(tb, st))
    ensures (set r | r in FindHierarchical(tb, st)) == Indexed(tb, st)
  {
    FilterMembers(st.own, (r: Reference) => Indexable(tb, r));
    FilterMembers(st.back, (r: Reference) => Indexable(tb, r));
    NoDupConcat(Filter(st.own, (r: Reference) => Indexable(tb, r)),
      Filter(st.back, (r: Reference) => Indexable(tb, r)));
  }

  // ---- the lookup cache -----------------------------------------------------------------------

  lemma {:induction false} FilterSubsequence(refs: seq<Reference>, keep: Reference -> bool)
    ensures Subsequence(Filter(refs, keep), refs)
  {
    if refs != [] {
      FilterSubsequence(refs[1..], keep);
      if keep(refs[0]) {
        assert ([refs[0]] + Filter(refs[1..], keep))[1..] == Filter(refs[1..], keep);
      } else {
        assert [] + Filter(refs[1..], keep) == Filter(refs[1..], keep);
        SubsequenceSkip(Filter(refs[1..], keep), refs);
      }
    }
  }

  /** What findReferences_no_cache finds: the references of the node that have this type and direction,
      each once, in the order of the two indexes. */
  lemma FoundExactly(st: NodeState, t: NodeId, fwd: bool)
    ensures forall r :: r in FindFresh(st, t, fwd) <==>
      (r in st.own || r in st.back) && r.referenceType == t && r.isForward == fwd
    ensures Subsequence(FindFresh(st, t, fwd), st.own + st.back)
    ensures IndexesDisjoint(st) ==> NoDup(FindFresh(st, t, fwd))
  {
    var keep := Matches(t, fwd);
    FilterMembers(st.own, keep);
    FilterMembers(st.back, keep);
    FilterSubsequence(st.own, keep);
    FilterSubsequence(st.back, keep);
    SubsequenceConcat(Filter(st.own, keep), st.own, Filter(st.back, keep), st.back);
    if IndexesDisjoint(st) {
      NoDupConcat(Filter(st.own, keep), Filter(st.back, keep));
    }
  }

  lemma FoundMembers(st: NodeState, t: NodeId, fwd: bool)
    ensures forall r :: r in FindFresh(st, t, fwd) <==>
      (r in st.own || r in st.back) && r.referenceType == t && r.isForward == fwd
  {
    FoundExactly(st, t, fwd);
  }

  /** Every remembered answer contains the fresh one, in order: no live reference is missed. Whatever
      else it lists once had that type and direction. */
  ghost predicate CacheCovers(st: NodeState) {
    forall t, fwd :: (t, fwd) in st.refCache ==> Covers(st, t, fwd, st.refCache[(t, fwd)])
  }

  ghost predicate Covers(st: NodeState, t: NodeId, fwd: bool, answer: seq<Reference>) {
    && Subsequence(FindFresh(st, t, fwd), answer)
    && forall r :: r in answer ==> r.referenceType == t && r.isForward == fwd
  }

  ghost predicate CacheExact(st: NodeState) {
    forall t, fwd :: (t, fwd) in st.refCache ==> st.refCache[(t, fwd)] == FindFresh(st, t, fwd)
  }

  lemma {:induction false} FilterWithout(refs: seq<Reference>, keep: Reference -> bool, r: Reference)
    ensures Filter(Without(refs, r), keep) == Without(Filter(refs, keep), r)
  {
    if refs != [] {
      FilterWithout(refs[1..], keep, r);
      FilterMembers(refs[1..], keep);
      if refs[0] != r {
        assert (Without(refs, r))[1..] == Without(refs[1..], r);
      }
      var kept := if keep(refs[0]) then [refs[0]] else [];
      WithoutAppend(kept, Filter(refs[1..], keep), r);
      assert kept == [refs[0]] ==> kept[1..] == [];
    }
  }

  lemma FreshAfterRemoval(st: NodeState, st': NodeState, m: Reference, t: NodeId, fwd: bool)
    requires IndexesDisjoint(st) && m !in st.own
    requires st'.own == st.own && st'.back == Without(st.back, m)
    ensures FindFresh(st', t, fwd) == Without(FindFresh(st, t, fwd), m)
  {
    var keep := Matches(t, fwd);
    FilterWithout(st.back, keep, m);
    FilterMembers(st.own, keep);
    WithoutAbsent(Filter(st.own, keep), m);
    WithoutAppend(Filter(st.own, keep), Filter(st.back, keep), m);
  }

  // ---- both, on every node --------------------------------------------------------------------

  ghost predicate NameIndexIs(names: map<NodeId, QualifiedName>, st: NodeState, refs: set<Reference>) {
    st.nameIndex.Some? ==> IndexHolds(names, st.nameIndex.value, refs)
  }

  ghost predicate DerivedOK(tb: TypeTable, names: map<NodeId, QualifiedName>, st: NodeState) {
    NameIndexIs(names, st, Indexed(tb, st)) && CacheCovers(st)
  }

  ghost predicate Derived(tb: TypeTable, g: Graph) {
    forall a :: a in g ==> DerivedOK(tb, Names(g), g[a])
  }

  /** A node whose references gain `r`, with its name index updated and its cache cleared. */
  lemma NodeGains(tb: TypeTable, names: map<NodeId, QualifiedName>, st: NodeState, st1: NodeState, r: Reference)
    requires DerivedOK(tb, names, st) && r !in st.own && r !in st.back
    requires st1.nameIndex == st.nameIndex
    requires forall q :: q in st1.own + st1.back <==> q in st.own + st.back || q == r
    ensures DerivedOK(tb, names, ClearCache(HandleHierarchical(tb, names, st1, r)))
  {
    var st2 := HandleHierarchical(tb, names, st1, r);
    assert Indexed(tb, ClearCache(st2)) == Indexed(tb, st1);
    if st.nameIndex.Some? {
      if Indexable(tb, r) {
        assert Indexed(tb, st1) == Indexed(tb, st) + {r};
        IndexAddHolds(names, st.nameIndex.value, Indexed(tb, st), r);
      } else {
        assert Indexed(tb, st1) == Indexed(tb, st);
      }
    }
  }

  lemma AddBackwardKeepsDerived(tb: TypeTable, g: Graph, b: NodeId, m: Reference)
    requires Derived(tb, g) && b in g && AddBackward(tb, g, b, m).Done?
    ensures var g' := AddBackward(tb, g, b, m).graph;
      Derived(tb, g') && g'.Keys == g.Keys && Names(g') == Names(g)
  {
    if m !in g[b].own {
      var st1 := g[b].(back := g[b].back + [m]);
      var st := ClearCache(HandleHierarchical(tb, Names(g), st1, m));
      NodeGains(tb, Names(g), g[b], st1, m);
      UpdateKeepsDerived(tb, g, b, st);
    }
  }

  lemma UpdateKeepsDerived(tb: TypeTable, g: Graph, a: NodeId, st: NodeState)
    requires a in g && st.browseName == g[a].browseName && DerivedOK(tb, Names(g), st)
    requires forall x :: x in g && x != a ==> DerivedOK(tb, Names(g), g[x])
    ensures Derived(tb, g[a := st]) && Names(g[a := st]) == Names(g)
  {
    SameNames(g, a, st);
  }

  lemma LinkKeepsDerived(tb: TypeTable, g: Graph, a: NodeId, r: Reference)
    requires Mirrored(tb, g) && Derived(tb, g) && Fresh(g, a, r)
    ensures Derived(tb, Link(tb, g, a, r).graph)
  {
    AddReachesMirror(tb, g, a, r);
    var st1 := g[a].(own := g[a].own + [r]);
    NodeGains(tb, Names(g), g[a], st1, r);
    var st := Declare(tb, Names(g), g[a], r);
    UpdateKeepsDerived(tb, g, a, st);
    if tb.Mirrored(r.referenceType) && r.nodeId in g {
      AddBackwardKeepsDerived(tb, g[a := st], r.nodeId, Mirror(r, a));
    }
  }

  lemma LinkKeepsMirrored(tb: TypeTable, g: Graph, a: NodeId, r: Reference)
    requires Mirrored(tb, g) && Fresh(g, a, r)
    ensures Mirrored(tb, Link(tb, g, a, r).graph)
  {
    LinkEdges(tb, g, a, r);
    AddReachesMirror(tb, g, a, r);
    AddedEdgesKeepMirrored(tb, g, a, r, Link(tb, g, a, r).graph);
  }

  lemma IndexingKeepsMirrored(tb: TypeTable, g: Graph, g': Graph)
    requires Mirrored(tb, g) && OnlyIndexesDiffer(g, g')
    ensures Mirrored(tb, g')
  {
    forall x | x in g'
      ensures IndexesDisjoint(g'[x])
    {
      assert IndexesDisjoint(g[x]);
    }
    forall x, r
      ensures OwnedIsMirrored(tb, g', x, r) && HeldIsMirror(tb, g', x, r)
    {
      assert OwnedIsMirrored(tb, g, x, r) && HeldIsMirror(tb, g, x, r);
    }
  }

  lemma AnnounceKeepsDerived(tb: TypeTable, g: Graph, a: NodeId, b: NodeId)
    requires Mirrored(tb, g) && Derived(tb, g) && a in g
    ensures Derived(tb, Announce(tb, g, a, b))
  {
    BuildKeepsDerived(tb, g, a);
    if b in g {
      var near := NodeVersion(tb, g, a).0;
      NodeVersionOnlyIndexes(tb, g, a);
      IndexingKeepsMirrored(tb, g, near);
      BuildKeepsDerived(tb, near, b);
    }
  }

  lemma AddKeepsDerived(tb: TypeTable, g: Graph, a: NodeId, r: Reference)
    requires Mirrored(tb, g) && Derived(tb, g) && a in g
    ensures Derived(tb, AddReference(tb, g, a, r).graph)
  {
    if Fresh(g, a, r) {
      LinkKeepsDerived(tb, g, a, r);
      LinkKeepsMirrored(tb, g, a, r);
      LinkEdges(tb, g, a, r);
      if Link(tb, g, a, r).Done? {
        AnnounceKeepsDerived(tb, Link(tb, g, a, r).graph, a, r.nodeId);
      }
    }
  }

  /** The name index loses `r` from the references it stood for. */
  lemma NodeLoses(tb: TypeTable, names: map<NodeId, QualifiedName>, st: NodeState, refs: set<Reference>, r: Reference)
    requires NameIndexIs(names, st, refs) && r.nodeId in names
    requires Indexable(tb, r) <==> r in refs
    ensures NameIndexIs(names, RemoveHierarchical(tb, names, st, r), refs - {r})
  {
    if Indexable(tb, r) && st.nameIndex.Some? {
      IndexRemoveHolds(names, st.nameIndex.value, refs, r);
    } else {
      assert r !in refs ==> refs - {r} == refs;
    }
  }

  /** removeReference as the far node, then the near one, sees it. */
  lemma RemoveOwnedParts(tb: TypeTable, g: Graph, a: NodeId, r: Reference, far: NodeState, near: NodeState)
    requires a in g && r.nodeId in g
    requires var st := g[a := g[a].(own := Without(g[a].own, r))][r.nodeId];
      far == RemoveHierarchical(tb, Names(g), st, Mirror(r, a)).(back := Without(st.back, Mirror(r, a)))
    requires var st := if r.nodeId == a then far else g[a].(own := Without(g[a].own, r));
      near == ClearCache(RemoveHierarchical(tb, Names(g), st, r))
    ensures RemoveOwned(tb, g, a, r) == g[r.nodeId := far][a := near]
  {
    var st1 := g[a].(own := Without(g[a].own, r));
    SameNames(g, a, st1);
    var g2 := g[a := st1][r.nodeId := far];
    assert g2[a := near] == g[r.nodeId := far][a := near];
  }

  lemma RemoveOwnedKeepsDerived(tb: TypeTable, g: Graph, a: NodeId, r: Reference)
    requires tb.Valid() && Mirrored(tb, g) && Derived(tb, g) && Owns(g, a, r) && r.nodeId in g
    ensures Derived(tb, RemoveOwned(tb, g, a, r))
  {
    var b, m := r.nodeId, Mirror(r, a);
    var st1 := g[a].(own := Without(g[a].own, r));
    var st := g[a := st1][b];
    var far := RemoveHierarchical(tb, Names(g), st, m).(back := Without(st.back, m));
    FarNodeLoses(tb, g, a, r, far);
    if a != b {
      var near := ClearCache(RemoveHierarchical(tb, Names(g), st1, r));
      RemoveOwnedParts(tb, g, a, r, far, near);
      RemoveBetweenTwo(tb, g, a, r, far, near);
    } else {
      var near := ClearCache(RemoveHierarchical(tb, Names(g), far, r));
      RemoveOwnedParts(tb, g, a, r, far, near);
      if tb.Mirrored(r.referenceType) {
        MirrorBijection(tb, g, a, r);
      }
      RemoveSelfReference(tb, g, a, r, far, near);
    }
  }

  lemma RemoveBetweenTwo(tb: TypeTable, g: Graph, a: NodeId, r: Reference, far: NodeState, near: NodeState)
    requires Derived(tb, g) && Owns(g, a, r) && r.nodeId in g && r.nodeId != a && IndexesDisjoint(g[a])
    requires DerivedOK(tb, Names(g), far) && far.browseName == g[r.nodeId].browseName
    requires near == ClearCache(RemoveHierarchical(tb, Names(g), g[a].(own := Without(g[a].own, r)), r))
    ensures Derived(tb, g[r.nodeId := far][a := near])
  {
    UpdateKeepsDerived(tb, g, r.nodeId, far);
    assert Indexed(tb, near) == Indexed(tb, g[a]) - {r};
    NodeLoses(tb, Names(g), g[a].(own := Without(g[a].own, r)), Indexed(tb, g[a]), r);
    UpdateKeepsDerived(tb, g[r.nodeId := far], a, near);
  }

  lemma RemoveSelfReference(tb: TypeTable, g: Graph, a: NodeId, r: Reference, far: NodeState, near: NodeState)
    requires Derived(tb, g) && Owns(g, a, r) && r.nodeId == a && IndexesDisjoint(g[a])
    requires far.own == Without(g[a].own, r) && far.back == Without(g[a].back, Mirror(r, a))
    requires far.browseName == g[a].browseName && NameIndexIs(Names(g), far, Indexed(tb, g[a]) - {Mirror(r, a)})
    requires tb.Mirrored(r.referenceType) ==> Mirror(r, a) !in g[a].own
    requires !tb.Mirrored(r.referenceType) ==> !Indexable(tb, Mirror(r, a))
    requires near == ClearCache(RemoveHierarchical(tb, Names(g), far, r))
    ensures Derived(tb, g[a := far][a := near])
  {
    var m := Mirror(r, a);
    assert Indexed(tb, near) == Indexed(tb, g[a]) - {m} - {r};
    NodeLoses(tb, Names(g), far, Indexed(tb, g[a]) - {m}, r);
    UpdateKeepsDerived(tb, g, a, near);
    assert g[a := far][a := near] == g[a := near];
  }

  lemma FarNodeLoses(tb: TypeTable, g: Graph, a: NodeId, r: Reference, far: NodeState)
    requires tb.Valid() && Mirrored(tb, g) && Derived(tb, g) && Owns(g, a, r) && r.nodeId in g
    requires var st := g[a := g[a].(own := Without(g[a].own, r))][r.nodeId];
      far == RemoveHierarchical(tb, Names(g), st, Mirror(r, a)).(back := Without(st.back, Mirror(r, a)))
    ensures NameIndexIs(Names(g), far, Indexed(tb, g[r.nodeId]) - {Mirror(r, a)})
    ensures r.nodeId != a ==> DerivedOK(tb, Names(g), far)
  {
    var b, m := r.nodeId, Mirror(r, a);
    var st := g[a := g[a].(own := Without(g[a].own, r))][b];
    assert DerivedOK(tb, Names(g), g[b]);
    if tb.Mirrored(r.referenceType) {
      MirrorBijection(tb, g, a, r);
    }
    NodeLoses(tb, Names(g), st, Indexed(tb, g[b]), m);
    if b != a {
      if tb.Mirrored(r.referenceType) {
        MirrorBijection(tb, g, a, r);
        FarCacheCovers(g[b], far, m);
      } else {
        assert HeldIsMirror(tb, g, b, m);
        WithoutAbsent(g[b].back, m);
        assert forall t, fwd :: FindFresh(far, t, fwd) == FindFresh(g[b], t, fwd);
      }
      assert Indexed(tb, far) == Indexed(tb, g[b]) - {m};
    }
  }

  lemma FarCacheCovers(st: NodeState, far: NodeState, m: Reference)
    requires IndexesDisjoint(st) && CacheCovers(st) && m !in st.own
    requires far.own == st.own && far.back == Without(st.back, m) && far.refCache == st.refCache
    ensures CacheCovers(far)
  {
    forall t, fwd | (t, fwd) in far.refCache
      ensures Subsequence(FindFresh(far, t, fwd), far.refCache[(t, fwd)])
    {
      FreshAfterRemoval(st, far, m, t, fwd);
      SubsequenceWithout(FindFresh(st, t, fwd), st.refCache[(t, fwd)], m);
    }
  }

  // ---- removal, lookups, creation -------------------------------------------------------------

  lemma RemoveKeepsDerived(tb: TypeTable, g: Graph, a: NodeId, r: Reference)
    requires tb.Valid() && Mirrored(tb, g) && Derived(tb, g) && a in g
    ensures Derived(tb, RemoveReference(tb, g, a, r))
  {
    if r.nodeId in g {
      if r in g[a].own {
        RemoveOwnedKeepsDerived(tb, g, a, r);
      } else if r in g[a].back {
        assert HeldIsMirror(tb, g, a, r);
        RemoveOwnedKeepsDerived(tb, g, r.nodeId, Mirror(r, a));
      }
    }
  }

  /** A node that only remembers more answers, each of them a cover. */
  lemma RememberKeepsDerived(tb: TypeTable, g: Graph, a: NodeId, st: NodeState)
    requires Derived(tb, g) && a in g && st.(refCache := g[a].refCache) == g[a]
    requires forall t, fwd :: (t, fwd) in st.refCache && (t, fwd) !in g[a].refCache ==>
      Covers(g[a], t, fwd, st.refCache[(t, fwd)])
    requires forall t, fwd :: (t, fwd) in g[a].refCache && (t, fwd) in st.refCache ==>
      st.refCache[(t, fwd)] == g[a].refCache[(t, fwd)]
    ensures Derived(tb, g[a := st])
  {
    hide Covers;
    assert DerivedOK(tb, Names(g), g[a]) && Indexed(tb, st) == Indexed(tb, g[a]);
    forall t, fwd | (t, fwd) in st.refCache
      ensures Covers(st, t, fwd, st.refCache[(t, fwd)])
    {
      SameCover(g[a], st, t, fwd, st.refCache[(t, fwd)]);
    }
    UpdateKeepsDerived(tb, g, a, st);
  }

  lemma FreshCovers(st: NodeState, t: NodeId, fwd: bool)
    ensures Covers(st, t, fwd, FindFresh(st, t, fwd))
  {
    SubsequenceSelf(FindFresh(st, t, fwd));
    FoundExactly(st, t, fwd);
  }

  lemma SameCover(st: NodeState, st': NodeState, t: NodeId, fwd: bool, answer: seq<Reference>)
    requires st'.own == st.own && st'.back == st.back
    ensures Covers(st', t, fwd, answer) <==> Covers(st, t, fwd, answer)
  {
  }

  /** A lookup of a known reference type misses no live reference and keeps their order; one of an
      unknown type finds nothing and remembers nothing. */
  lemma FindKeepsDerived(tb: TypeTable, g: Graph, a: NodeId, t: NodeId, fwd: bool)
    requires Derived(tb, g) && a in g
    ensures Derived(tb, g[a := Find(tb, g[a], t, fwd).0])
    ensures t in tb.types ==> Covers(g[a], t, fwd, Find(tb, g[a], t, fwd).1)
    ensures t !in tb.types ==> Find(tb, g[a], t, fwd) == (g[a], [])
  {
    FreshCovers(g[a], t, fwd);
    hide Covers, FindFresh;
    assert DerivedOK(tb, Names(g), g[a]);
    RememberKeepsDerived(tb, g, a, Find(tb, g[a], t, fwd).0);
  }

  lemma BuildKeepsDerived(tb: TypeTable, g: Graph, a: NodeId)
    requires Mirrored(tb, g) && Derived(tb, g) && a in g
    ensures Derived(tb, g[a := WithNameIndex(tb, Names(g), g[a])])
  {
    var st := WithNameIndex(tb, Names(g), g[a]);
    FindHierarchicalIsScan(tb, g[a]);
    IndexAllHolds(Names(g), FindHierarchical(tb, g[a]));
    assert Indexed(tb, st) == Indexed(tb, g[a]);
    assert forall u, d :: FindFresh(st, u, d) == FindFresh(g[a], u, d);
    UpdateKeepsDerived(tb, g, a, st);
  }

  lemma {:induction false} PropagateAllKeepsDerived(tb: TypeTable, g: Graph, a: NodeId, refs: seq<Reference>)
    requires Derived(tb, g) && PropagateAll(tb, g, a, refs).Done?
    ensures var g' := PropagateAll(tb, g, a, refs).graph;
      Derived(tb, g') && g'.Keys == g.Keys && Names(g') == Names(g)
  {
    if refs != [] {
      var init, r := refs[..|refs| - 1], refs[|refs| - 1];
      PropagateAllKeepsDerived(tb, g, a, init);
      var g1 := PropagateAll(tb, g, a, init).graph;
      if tb.Mirrored(r.referenceType) && r.nodeId in g1 {
        AddBackwardKeepsDerived(tb, g1, r.nodeId, Mirror(r, a));
      }
    }
  }

  lemma CreateKeepsDerived(tb: TypeTable, g: Graph, id: NodeId, name: QualifiedName, refs: seq<Reference>)
    requires tb.Valid() && Mirrored(tb, g) && Derived(tb, g) && id !in g && !Clashes(tb, g, id, refs)
    ensures Derived(tb, CreateNode(tb, g, id, name, refs).graph)
  {
    if NoDup(refs) {
      CreateKeepsMirrored(tb, g, id, name, refs);
      var g0 := g[id := NodeState(name, refs, [], map[], None, map[])];
      forall a | a in g
        ensures DerivedOK(tb, Names(g0), g[a])
      {
        assert DerivedOK(tb, Names(g), g[a]);
        assert forall r :: r in Indexed(tb, g[a]) ==> r.nodeId != id by {
          NoReferenceTo(tb, g, a, id, refs);
        }
        if g[a].nameIndex.Some? {
          SameUnderNewName(Names(g), Names(g0), id, g[a].nameIndex.value, Indexed(tb, g[a]));
        }
      }
      PropagateAllKeepsDerived(tb, g0, id, refs);
    }
  }

  lemma NoReferenceTo(tb: TypeTable, g: Graph, a: NodeId, id: NodeId, refs: seq<Reference>)
    requires tb.Valid() && Mirrored(tb, g) && a in g && id !in g && !Clashes(tb, g, id, refs)
    ensures forall r :: r in Indexed(tb, g[a]) ==> r.nodeId != id
  {
    forall r | r in Indexed(tb, g[a])
      ensures r.nodeId != id
    {
      assert HeldIsMirror(tb, g, a, r);
      assert r in g[a].own ==> Owns(g, a, r);
    }
  }

  lemma SameUnderNewName(names: map<NodeId, QualifiedName>, names': map<NodeId, QualifiedName>, id: NodeId,
      index: NameIndex, refs: set<Reference>)
    requires IndexHolds(names, index, refs) && forall r :: r in refs ==> r.nodeId != id
    requires forall x :: x != id ==> (x in names <==> x in names') && (x in names ==> names'[x] == names[x])
    ensures IndexHolds(names', index, refs)
  {
    forall name
      ensures SlotHolds(names', index, refs, name)
    {
      assert SlotHolds(names, index, refs, name);
    }
  }
}

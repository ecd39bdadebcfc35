/** HasSubtype references are ordinary references: how addReference and removeReference on the graph
    move the type hierarchy that isSubtypeOf walks. */
module SubtypeReferences {
  import opened Common
  import opened References
  import opened ReferenceGraph
  import opened ReferenceGraphMirroring
  import opened ReferenceGraphDerived
  import opened TypeLattice

  function SupersAmong(refs: seq<Reference>): seq<Reference> {
    Filter(refs, IsSuper)
  }

  lemma {:induction false} FilterConcat(a: seq<Reference>, b: seq<Reference>, keep: Reference -> bool)
    ensures Filter(a + b, keep) == Filter(a, keep) + Filter(b, keep)
  {
    if a == [] {
      assert a + b == b;
    } else {
      var kept := if keep(a[0]) then [a[0]] else [];
      assert (a + b)[1..] == a[1..] + b && (a + b)[0] == a[0];
      FilterConcat(a[1..], b, keep);
      AppendAssoc(kept, Filter(a[1..], keep), Filter(b, keep));
    }
  }

  lemma SupersSplit(st: NodeState)
    ensures Supers(st) == SupersAmong(st.own) + SupersAmong(st.back)
  {
    FilterConcat(st.own, st.back, IsSuper);
  }

  /** They are the ones findReferences would return. */
  lemma SupersAreFound(st: NodeState)
    ensures Supers(st) == FindFresh(st, HAS_SUBTYPE, false)
  {
    SupersSplit(st);
    SupersAreFiltered(st.own);
    SupersAreFiltered(st.back);
  }

  lemma {:induction false} SupersAreFiltered(refs: seq<Reference>)
    ensures SupersAmong(refs) == Filter(refs, Matches(HAS_SUBTYPE, false))
  {
    if refs != [] {
      SupersAreFiltered(refs[1..]);
    }
  }

  function SupersIn(g: Graph): map<NodeId, seq<Reference>> {
    map d | d in g :: Supers(g[d])
  }

  /** The assertion "should have zero or one subtype no more", on every node. */
  predicate AtMostOne(supers: map<NodeId, seq<Reference>>) {
    forall d :: d in supers ==> |supers[d]| <= 1
  }

  function TheOnes(supers: map<NodeId, seq<Reference>>): Supertypes {
    map d | d in supers && |supers[d]| == 1 :: supers[d][0].nodeId
  }

  predicate SingleInheritance(g: Graph) {
    AtMostOne(SupersIn(g))
  }

  function SupertypesOf(g: Graph): Supertypes {
    TheOnes(SupersIn(g))
  }

  /** Subtype end and supertype end of a HasSubtype reference declared on `a`. */
  function Ends(a: NodeId, r: Reference): (NodeId, NodeId) {
    if r.isForward then (r.nodeId, a) else (a, r.nodeId)
  }

  lemma SupersAmongAppend(refs: seq<Reference>, r: Reference)
    ensures SupersAmong(refs + [r]) == SupersAmong(refs) + if IsSuper(r) then [r] else []
  {
    FilterAppend(refs, r, IsSuper);
  }

  lemma SupersAmongWithout(refs: seq<Reference>, r: Reference)
    ensures SupersAmong(Without(refs, r)) == Without(SupersAmong(refs), r)
  {
    FilterWithout(refs, IsSuper, r);
  }

  // ---- addReference ---------------------------------------------------------------------------

  /** The subtype end is registered when the reference has been added. */
  predicate Hangs(g: Graph, r: Reference) {
    !r.isForward || r.nodeId in g
  }

  /** Adding a HasSubtype reference, from either end, hangs the subtype under the supertype and changes
      no other edge of the hierarchy; a second supertype trips the assertion. A reference to a subtype
      that is not registered changes nothing. */
  lemma AddSubtypeReference(tb: TypeTable, g: Graph, a: NodeId, r: Reference)
    requires Mirrored(tb, g) && SingleInheritance(g) && Fresh(g, a, r)
    requires r.referenceType == HAS_SUBTYPE && tb.Mirrored(HAS_SUBTYPE)
    ensures var g' := AddReference(tb, g, a, r).graph; var (c, p) := Ends(a, r);
      if Hangs(g, r) then
        && (SingleInheritance(g') <==> c !in SupertypesOf(g))
        && (c !in SupertypesOf(g) ==> SupertypesOf(g') == SupertypesOf(g)[c := p])
      else SingleInheritance(g') && SupertypesOf(g') == SupertypesOf(g)
  {
    AddEdges(tb, g, a, r);
    SupersAfterAdd(tb, g, a, r, AddReference(tb, g, a, r).graph);
  }

  lemma SupersAfterAdd(tb: TypeTable, g: Graph, a: NodeId, r: Reference, g': Graph)
    requires SingleInheritance(g) && a in g && AddedEdges(tb, g, a, r, g')
    requires r.referenceType == HAS_SUBTYPE && tb.Mirrored(HAS_SUBTYPE)
    ensures var (c, p) := Ends(a, r);
      if Hangs(g, r) then
        && (SingleInheritance(g') <==> c !in SupertypesOf(g))
        && (c !in SupertypesOf(g) ==> SupertypesOf(g') == SupertypesOf(g)[c := p])
      else SingleInheritance(g') && SupertypesOf(g') == SupertypesOf(g)
  {
    AllGain(tb, g, a, r, g');
    hide AddedEdges, Supers, Gains, TheOnes, AtMostOne;
    if Hangs(g, r) {
      EdgeHung(SupersIn(g), SupersIn(g'), a, r);
    } else {
      NobodyGains(SupersIn(g), SupersIn(g'), a, r);
    }
  }

  lemma NobodyGains(m: map<NodeId, seq<Reference>>, m': map<NodeId, seq<Reference>>, a: NodeId, r: Reference)
    requires m'.Keys == m.Keys && Ends(a, r).0 !in m
    requires forall d :: d in m ==> Gains(m[d], m'[d], a, r, d)
    ensures m' == m
  {
  }

  lemma AllGain(tb: TypeTable, g: Graph, a: NodeId, r: Reference, g': Graph)
    requires a in g && AddedEdges(tb, g, a, r, g') && r.referenceType == HAS_SUBTYPE && tb.Mirrored(HAS_SUBTYPE)
    ensures forall d :: d in g ==> Gains(SupersIn(g)[d], SupersIn(g')[d], a, r, d)
  {
    forall d | d in g
      ensures Gains(Supers(g[d]), Supers(g'[d]), a, r, d)
    {
      NodeGainsSuper(g[d], g'[d], a, r, d);
    }
  }

  predicate Gains(supers: seq<Reference>, supers': seq<Reference>, a: NodeId, r: Reference, d: NodeId) {
    if d != Ends(a, r).0 then supers' == supers
    else |supers'| == |supers| + 1 && (supers == [] ==> supers'[0].nodeId == Ends(a, r).1)
  }

  lemma EdgeHung(m: map<NodeId, seq<Reference>>, m': map<NodeId, seq<Reference>>, a: NodeId, r: Reference)
    requires AtMostOne(m) && m'.Keys == m.Keys && Ends(a, r).0 in m
    requires forall d :: d in m ==> Gains(m[d], m'[d], a, r, d)
    ensures var (c, p) := Ends(a, r);
      && (AtMostOne(m') <==> c !in TheOnes(m))
      && (c !in TheOnes(m) ==> TheOnes(m') == TheOnes(m)[c := p])
  {
    var c := Ends(a, r).0;
    assert Gains(m[c], m'[c], a, r, c);
  }

  lemma NodeGainsSuper(st: NodeState, st': NodeState, a: NodeId, r: Reference, d: NodeId)
    requires r.referenceType == HAS_SUBTYPE
    requires st'.own == if d == a then st.own + [r] else st.own
    requires st'.back == if d == r.nodeId then st.back + [Mirror(r, a)] else st.back
    ensures Gains(Supers(st), Supers(st'), a, r, d)
  {
    var m := Mirror(r, a);
    SupersSplit(st);
    SupersSplit(st');
    SupersAmongAppend(st.own, r);
    SupersAmongAppend(st.back, m);
    if r.isForward {
      OneMore(SupersAmong(st.own), SupersAmong(st.back), m);
      assert SupersAmong(st'.own) == SupersAmong(st.own);
    } else {
      OneMore(SupersAmong(st.own), SupersAmong(st.back), r);
      assert SupersAmong(st'.back) == SupersAmong(st.back);
    }
  }

  lemma OneMore(own: seq<Reference>, back: seq<Reference>, r: Reference)
    ensures own + [] == own && back + [] == back
    ensures |own + (back + [r])| == |own + back| + 1 && |(own + [r]) + back| == |own + back| + 1
    ensures own + back == [] ==> own + (back + [r]) == [r] == (own + [r]) + back
  {
  }

  // ---- removeReference ------------------------------------------------------------------------

  /** Removing it, from either end, takes exactly that edge out of the hierarchy. */
  lemma RemoveSubtypeReference(tb: TypeTable, g: Graph, a: NodeId, r: Reference)
    requires Mirrored(tb, g) && SingleInheritance(g) && Owns(g, a, r) && r.nodeId in g
    requires r.referenceType == HAS_SUBTYPE && tb.Mirrored(HAS_SUBTYPE)
    ensures var (c, p) := Ends(a, r);
      && c in SupertypesOf(g) && SupertypesOf(g)[c] == p
      && SupertypesOf(RemoveReference(tb, g, a, r)) == SupertypesOf(g) - {c}
      && SupertypesOf(RemoveReference(tb, g, r.nodeId, Mirror(r, a))) == SupertypesOf(g) - {c}
  {
    var g' := RemoveOwned(tb, g, a, r);
    MirrorBijection(tb, g, a, r);
    assert Mirror(Mirror(r, a), r.nodeId) == r;
    assert RemoveReference(tb, g, a, r) == g' == RemoveReference(tb, g, r.nodeId, Mirror(r, a));
    RemoveEdges(tb, g, a, r);
    forall d | d in g
      ensures Loses(Supers(g[d]), Supers(g'[d]), a, r, d)
    {
      assert |SupersIn(g)[d]| <= 1;
      NodeLosesSuper(g[d], g'[d], a, r, d);
    }
    EdgeTaken(SupersIn(g), SupersIn(g'), a, r);
  }

  predicate Loses(supers: seq<Reference>, supers': seq<Reference>, a: NodeId, r: Reference, d: NodeId) {
    if d != Ends(a, r).0 then supers' == supers
    else supers' == [] && |supers| == 1 && supers[0].nodeId == Ends(a, r).1
  }

  lemma EdgeTaken(m: map<NodeId, seq<Reference>>, m': map<NodeId, seq<Reference>>, a: NodeId, r: Reference)
    requires m'.Keys == m.Keys && Ends(a, r).0 in m
    requires forall d :: d in m ==> Loses(m[d], m'[d], a, r, d)
    ensures var (c, p) := Ends(a, r);
      c in TheOnes(m) && TheOnes(m)[c] == p && TheOnes(m') == TheOnes(m) - {c}
  {
    var c := Ends(a, r).0;
    assert Loses(m[c], m'[c], a, r, c);
  }

  lemma NodeLosesSuper(st: NodeState, st': NodeState, a: NodeId, r: Reference, d: NodeId)
    requires r.referenceType == HAS_SUBTYPE && |Supers(st)| <= 1
    requires st'.own == if d == a then Without(st.own, r) else st.own
    requires st'.back == if d == r.nodeId then Without(st.back, Mirror(r, a)) else st.back
    requires d == a ==> r in st.own
    requires d == r.nodeId ==> Mirror(r, a) in st.back
    ensures Loses(Supers(st), Supers(st'), a, r, d)
  {
    hide Supers, SupersAmong, Without;
    SupersSplit(st);
    SupersSplit(st');
    if r.isForward {
      OneListLoses(st.own, r);
      OneListLoses(st.back, Mirror(r, a));
      if d == r.nodeId {
        OnlyOne(SupersAmong(st.back), SupersAmong(st.own), Mirror(r, a));
      }
    } else {
      OneListLoses(st.own, r);
      OneListLoses(st.back, Mirror(r, a));
      if d == a {
        OnlyOne(SupersAmong(st.own), SupersAmong(st.back), r);
      }
    }
  }

  lemma OneListLoses(refs: seq<Reference>, r: Reference)
    ensures SupersAmong(Without(refs, r)) == if IsSuper(r) then Without(SupersAmong(refs), r) else SupersAmong(refs)
    ensures r in refs && IsSuper(r) ==> r in SupersAmong(refs)
  {
    SupersAmongWithout(refs, r);
    FilterMembers(refs, IsSuper);
    if !IsSuper(r) {
      WithoutAbsent(SupersAmong(refs), r);
    }
  }

  lemma OnlyOne(s: seq<Reference>, t: seq<Reference>, r: Reference)
    requires r in s && |s| + |t| <= 1
    ensures s == [r] && t == [] && Without(s, r) == []
  {
    assert s == [s[0]];
    assert s[1..] == [];
  }

  // ---- whose memo is wiped --------------------------------------------------------------------

  /** The nodes on which BaseNode_clearCache runs: it drops the lookups and the subtype memo of a node. */
  predicate ClearedExactly(g: Graph, g': Graph, cleared: set<NodeId>) {
    && g'.Keys == g.Keys
    && (forall x :: x in g ==> g'[x].refCache == if x in cleared then map[] else g[x].refCache)
    && (forall x :: x in g ==> g'[x].memo == if x in cleared then map[] else g[x].memo)
  }

  /** The ends of a reference that both learn of it. */
  function BothEnds(tb: TypeTable, a: NodeId, r: Reference): set<NodeId> {
    {a} + if tb.Mirrored(r.referenceType) then {r.nodeId} else {}
  }

  /** Adding wipes both ends of the edge; removing wipes only the end that declared it, from whichever
      end it is asked for. */
  lemma EndsWiped(tb: TypeTable, g: Graph, a: NodeId, r: Reference)
    requires Mirrored(tb, g) && a in g
    ensures Fresh(g, a, r) ==> ClearedExactly(g, AddReference(tb, g, a, r).graph, BothEnds(tb, a, r))
    ensures Owns(g, a, r) && r.nodeId in g ==> ClearedExactly(g, RemoveReference(tb, g, a, r), {a})
    ensures Owns(g, a, r) && r.nodeId in g && tb.Mirrored(r.referenceType) ==>
      ClearedExactly(g, RemoveReference(tb, g, r.nodeId, Mirror(r, a)), {a})
  {
    if Fresh(g, a, r) {
      LinkWipes(tb, g, a, r);
      if Link(tb, g, a, r).Done? {
        AnnounceOnlyIndexes(tb, Link(tb, g, a, r).graph, a, r.nodeId);
      }
    }
    if Owns(g, a, r) && r.nodeId in g {
      RemoveWipes(tb, g, a, r);
      if tb.Mirrored(r.referenceType) {
        EitherEnd(tb, g, a, r);
      }
    }
  }

  /** RemoveBackward drops nothing that is remembered. */
  lemma BackwardWipesNothing(tb: TypeTable, g: Graph, b: NodeId, m: Reference)
    requires b in g
    ensures ClearedExactly(g, RemoveBackward(tb, g, b, m), {})
  {
    hide Without;
  }

  lemma ClearedOnce(g: Graph, a: NodeId, st: NodeState)
    requires a in g && st.refCache == map[] && st.memo == map[]
    ensures ClearedExactly(g, g[a := st], {a})
  {
  }

  lemma ClearedAfter(g: Graph, g1: Graph, g2: Graph, first: set<NodeId>, next: set<NodeId>)
    requires ClearedExactly(g, g1, first) && ClearedExactly(g1, g2, next)
    ensures ClearedExactly(g, g2, first + next)
  {
  }

  lemma RemoveWipes(tb: TypeTable, g: Graph, a: NodeId, r: Reference)
    requires a in g && r.nodeId in g
    ensures ClearedExactly(g, RemoveOwned(tb, g, a, r), {a})
  {
    hide RemoveHierarchical, Without;
    var g1 := g[a := g[a].(own := Without(g[a].own, r))];
    assert ClearedExactly(g, g1, {});
    var g2 := RemoveBackward(tb, g1, r.nodeId, Mirror(r, a));
    BackwardWipesNothing(tb, g1, r.nodeId, Mirror(r, a));
    ClearedAfter(g, g1, g2, {}, {});
    hide ClearedExactly, RemoveBackward;
    ClearedOnce(g2, a, ClearCache(RemoveHierarchical(tb, Names(g), g2[a], r)));
    ClearedAfter(g, g2, RemoveOwned(tb, g, a, r), {}, {a});
    assert {} + {a} == {a};
  }

  lemma LinkWipes(tb: TypeTable, g: Graph, a: NodeId, r: Reference)
    requires Mirrored(tb, g) && Fresh(g, a, r)
    ensures ClearedExactly(g, Link(tb, g, a, r).graph, BothEnds(tb, a, r))
  {
    var near := Declare(tb, Names(g), g[a], r);
    LinkParts(tb, g, a, r, near);
    ClearedOnce(g, a, near);
    if tb.Mirrored(r.referenceType) && r.nodeId in g {
      var far := FarEnd(tb, g, a, r, near);
      ClearedOnce(g[a := near], r.nodeId, far);
      hide ClearedExactly, FarEnd, Link;
      ClearedAfter(g, g[a := near], g[a := near][r.nodeId := far], {a}, {r.nodeId});
    }
  }

  // ---- the walk on the graph ------------------------------------------------------------------

  /** Whatever the graph: an answer of the walk is the right one. */
  lemma {:induction false} WalkUpAnswers(g: Graph, d: NodeId, b: NodeId, depth: nat)
    requires d in g
    ensures WalkUp(g, d, b, depth).Answers? ==> (WalkUp(g, d, b, depth).value <==> Above(SupertypesOf(g), d, b))
    decreases depth
  {
    var s, supers := SupertypesOf(g), Supers(g[d]);
    assert SupersIn(g)[d] == supers;
    if d == b {
      assert UpIs(s, d, 0, b);
    } else if supers == [] {
      assert d !in s;
      assert forall n: nat :: UpIs(s, d, n, b) ==> n == 0;
    } else if |supers| == 1 && supers[0].nodeId in g {
      assert s[d] == supers[0].nodeId;
      AboveStep(s, d, b);
      assert UpIs(s, b, 0, b);
      if depth > 0 {
        WalkUpAnswers(g, s[d], b, depth - 1);
      }
    }
  }

  // A walk that has not ended after as many calls as there are nodes never ends.

  /** The edges the walk follows without a throw. */
  function Followed(g: Graph): Supertypes {
    map d | d in g && |Supers(g[d])| == 1 && Supers(g[d])[0].nodeId in g :: Supers(g[d])[0].nodeId
  }

  predicate StillGoing(g: Graph, d: NodeId, b: NodeId, n: nat) {
    Up(Followed(g), d, n).Some? && Up(Followed(g), d, n) != Some(b)
  }

  ghost predicate Going(g: Graph, d: NodeId, b: NodeId, n: nat) {
    forall k: nat :: k <= n ==> StillGoing(g, d, b, k)
  }

  lemma GoingStep(g: Graph, d: NodeId, b: NodeId, n: nat)
    ensures Going(g, d, b, n + 1) <==> d != b && d in Followed(g) && Going(g, Followed(g)[d], b, n)
  {
    var s := Followed(g);
    if Going(g, d, b, n + 1) {
      assert StillGoing(g, d, b, 0) && StillGoing(g, d, b, 1);
      forall k: nat | k <= n
        ensures StillGoing(g, s[d], b, k)
      {
        assert StillGoing(g, d, b, k + 1);
      }
    }
    if d != b && d in s && Going(g, s[d], b, n) {
      forall k: nat | k <= n + 1
        ensures StillGoing(g, d, b, k)
      {
        assert k > 0 ==> StillGoing(g, s[d], b, k - 1);
      }
    }
  }

  lemma {:induction false} GoesOnIff(g: Graph, d: NodeId, b: NodeId, depth: nat)
    requires d in g
    ensures WalkUp(g, d, b, depth).GoesOn? <==> Going(g, d, b, depth + 1)
    decreases depth
  {
    GoingStep(g, d, b, depth);
    if d != b && d in Followed(g) {
      var super := Followed(g)[d];
      assert Going(g, super, b, depth) ==> StillGoing(g, super, b, 0);
      if depth > 0 {
        GoesOnIff(g, super, b, depth - 1);
      }
    }
  }

  lemma {:induction false} Repeats(path: seq<NodeId>, nodes: set<NodeId>)
    requires |path| > |nodes| && forall x :: x in path ==> x in nodes
    ensures exists i, j :: 0 <= i < j < |path| && path[i] == path[j]
  {
    var x := path[0];
    if j :| 1 <= j < |path| && path[j] == x {
      assert path[0] == path[j];
    } else {
      assert x in nodes;
      Repeats(path[1..], nodes - {x});
      var i, j :| 0 <= i < j < |path[1..]| && path[1..][i] == path[1..][j];
      assert path[i + 1] == path[j + 1];
    }
  }

  lemma {:induction false} GoesRound(g: Graph, d: NodeId, b: NodeId, i: nat, j: nat, n: nat)
    requires i < j && Going(g, d, b, j) && Up(Followed(g), d, i) == Up(Followed(g), d, j)
    ensures StillGoing(g, d, b, n)
    decreases n
  {
    if n > j {
      var s := Followed(g);
      assert StillGoing(g, d, b, i) && StillGoing(g, d, b, j);
      UpAdds(s, d, j, n - j);
      UpAdds(s, d, i, n - j);
      GoesRound(g, d, b, i, j, i + (n - j));
    }
  }

  lemma OnTheWay(g: Graph, d: NodeId, b: NodeId, n: nat, i: nat)
    requires Going(g, d, b, n) && i < n
    ensures Up(Followed(g), d, i).Some? && Up(Followed(g), d, i).value in g
  {
    assert StillGoing(g, d, b, i) && StillGoing(g, d, b, i + 1);
    UpAdds(Followed(g), d, i, 1);
  }

  lemma WalkUpBound(g: Graph, d: NodeId, b: NodeId, depth: nat)
    requires d in g && WalkUp(g, d, b, |g|).GoesOn?
    ensures WalkUp(g, d, b, depth).GoesOn?
  {
    hide WalkUp, Followed, Up;
    var s, n := Followed(g), |g| + 1;
    GoesOnIff(g, d, b, |g|);
    forall i | 0 <= i < n
      ensures Up(s, d, i).Some? && Up(s, d, i).value in g
    {
      OnTheWay(g, d, b, n, i);
    }
    var path := seq(n, i requires 0 <= i < n => Up(s, d, i).value);
    Repeats(path, g.Keys);
    var i, j :| 0 <= i < j < |path| && path[i] == path[j];
    forall k: nat | k <= depth + 1
      ensures StillGoing(g, d, b, k)
    {
      GoesRound(g, d, b, i, j, k);
    }
    GoesOnIff(g, d, b, depth);
  }

  /** Every supertype is registered. */
  predicate SupersRegistered(g: Graph) {
    forall d :: d in SupertypesOf(g) ==> SupertypesOf(g)[d] in g
  }

  lemma {:induction false} WalkUpEnds(g: Graph, d: NodeId, b: NodeId, depth: nat)
    requires d in g && EndsWithin(SupertypesOf(g), d, depth)
    ensures !WalkUp(g, d, b, depth).GoesOn?
    decreases depth
  {
    var s, supers := SupertypesOf(g), Supers(g[d]);
    assert SupersIn(g)[d] == supers;
    if |supers| == 1 && supers[0].nodeId in g && d != b {
      assert s[d] == supers[0].nodeId;
      WalkUpEnds(g, s[d], b, depth - 1);
    }
  }

  /** The types with more than one supertype. */
  function Torn(g: Graph): set<NodeId> {
    set d | d in g && |Supers(g[d])| > 1
  }

  /** Above `d` stands a supertype that is not registered, or a type with several supertypes, and the walk
      does not find `b` before it gets there. */
  ghost predicate Lost(g: Graph, d: NodeId, b: NodeId) {
    exists x :: LostAt(SupertypesOf(g), g.Keys, Torn(g), d, b, x)
  }

  ghost predicate LostAt(s: Supertypes, nodes: set<NodeId>, torn: set<NodeId>, d: NodeId, b: NodeId, x: NodeId) {
    Above(s, d, x) && ((x !in nodes && (x == b || !Above(s, d, b))) || (x in torn && !Above(s, d, b)))
  }

  lemma LostNext(s: Supertypes, nodes: set<NodeId>, torn: set<NodeId>, d: NodeId, b: NodeId)
    requires d in nodes && d in s && d !in torn && d != b
    ensures (exists x :: LostAt(s, nodes, torn, d, b, x)) <==> exists x :: LostAt(s, nodes, torn, s[d], b, x)
  {
    forall x
      ensures LostAt(s, nodes, torn, d, b, x) <==> LostAt(s, nodes, torn, s[d], b, x)
    {
      AboveStep(s, d, x);
      AboveStep(s, d, b);
    }
  }

  /** When the walk of isSubtypeOf throws. */
  lemma {:induction false} WalkUpThrows(g: Graph, d: NodeId, b: NodeId, depth: nat)
    requires d in g && !WalkUp(g, d, b, depth).GoesOn?
    ensures WalkUp(g, d, b, depth).Throws? <==> Lost(g, d, b)
    decreases depth
  {
    var s, supers := SupertypesOf(g), Supers(g[d]);
    assert SupersIn(g)[d] == supers;
    assert d in Torn(g) <==> |supers| > 1;
    if d == b {
      FoundIsNotLost(s, g.Keys, Torn(g), d, b);
    } else if |supers| != 1 {
      EndOfChain(s, g.Keys, Torn(g), d, b);
    } else {
      assert s[d] == supers[0].nodeId;
      LostNext(s, g.Keys, Torn(g), d, b);
      if s[d] !in g {
        EndOfChain(s, g.Keys, Torn(g), s[d], b);
      } else if s[d] == b {
        FoundIsNotLost(s, g.Keys, Torn(g), s[d], b);
      } else {
        WalkUpThrows(g, s[d], b, depth - 1);
      }
    }
  }

  lemma FoundIsNotLost(s: Supertypes, nodes: set<NodeId>, torn: set<NodeId>, d: NodeId, b: NodeId)
    requires d == b && d in nodes
    ensures !exists x :: LostAt(s, nodes, torn, d, b, x)
  {
    assert UpIs(s, d, 0, b);
  }

  /** Nothing but itself stands above a type without a single supertype. */
  lemma EndOfChain(s: Supertypes, nodes: set<NodeId>, torn: set<NodeId>, d: NodeId, b: NodeId)
    requires d !in s
    ensures (exists x :: LostAt(s, nodes, torn, d, b, x)) <==> d !in nodes || (d in torn && d != b)
  {
    assert UpIs(s, d, 0, d);
    forall x
      ensures Above(s, d, x) <==> x == d
    {
      if n: nat :| UpIs(s, d, n, x) {
        assert n == 0;
      }
    }
    assert d !in nodes ==> LostAt(s, nodes, torn, d, b, d);
    assert d in torn && d != b ==> LostAt(s, nodes, torn, d, b, d);
  }

  /** Where all supertypes are registered and none has company, no type is ever lost. */
  lemma RegisteredNeverLost(g: Graph, d: NodeId, b: NodeId)
    requires d in g && SupersRegistered(g) && SingleInheritance(g)
    ensures !Lost(g, d, b)
  {
    assert Torn(g) == {} by {
      assert forall x :: x in g ==> |SupersIn(g)[x]| <= 1;
    }
    forall x | Above(SupertypesOf(g), d, x)
      ensures x in g
    {
      var n: nat :| UpIs(SupertypesOf(g), d, n, x);
      AboveIsRegistered(g, d, n, x);
    }
  }

  lemma {:induction false} AboveIsRegistered(g: Graph, d: NodeId, n: nat, x: NodeId)
    requires d in g && SupersRegistered(g) && UpIs(SupertypesOf(g), d, n, x)
    ensures x in g
    decreases n
  {
    if n > 0 {
      AboveIsRegistered(g, SupertypesOf(g)[d], n - 1, x);
    }
  }

  /** What `d` remembers about `b` is what the hierarchy says. */
  ghost predicate MemoRight(g: Graph, d: NodeId, b: NodeId) {
    d in g && b in g[d].memo ==> (g[d].memo[b] <==> Above(SupertypesOf(g), d, b))
  }

  /** On any acyclic hierarchy isSubtypeOf throws exactly when it does not remember the
      answer and gets lost; otherwise it answers, and rightly exactly when what it remembers is not wrong. */
  lemma AskAnswers(g: Graph, d: NodeId, b: NodeId)
    requires d in g && Acyclic(SupertypesOf(g))
    ensures ReferenceGraph.Ask(g, d, b).1 == Throws <==> b !in g[d].memo && Lost(g, d, b)
    ensures ReferenceGraph.Ask(g, d, b).1 == Answers(Above(SupertypesOf(g), d, b)) <==>
      MemoRight(g, d, b) && (b in g[d].memo || !Lost(g, d, b))
    ensures !ReferenceGraph.Ask(g, d, b).1.GoesOn?
  {
    var s := SupertypesOf(g);
    AcyclicEnds(s, d);
    WalkUpEnds(g, d, b, |s|);
    if WalkUp(g, d, b, |g|).GoesOn? {
      WalkUpBound(g, d, b, |s|);
    }
    WalkUpThrows(g, d, b, |g|);
    WalkUpAnswers(g, d, b, |g|);
  }
}

/** TranslateBrowsePathToNodeIds (section 5.8.4 of OPC UA Part 4 v1.03): following a relative path,
    with the fallback of a type node to its supertype. */
module BrowsePaths {
  import opened Common
  import opened References
  import opened ReferenceGraph
  import opened ReferenceGraphMirroring
  import opened SubtypeReferences
  import opened TypeLattice
  import R = SubtypeRuns

  /** `referenceTypes` are those findReferenceType knows, `types` the object and variable types. */
  datatype Space = Space(nodes: Graph, referenceTypes: set<NodeId>, types: set<NodeId>)

  function AllReferences(st: NodeState): seq<Reference> {
    st.own + st.back
  }

  /** No reference type stands for an empty referenceTypeId. */
  datatype Element = Element(
    referenceTypeId: Option<NodeId>, isInverse: bool, includeSubtypes: bool, targetName: QualifiedName)

  /** Fail: the source throws, on a reference whose type or whose target is unknown. */
  datatype Result<+T> = Ok(value: T) | Fail

  // ---- one element ----------------------------------------------------------------------------

  predicate RightDirection(e: Element, r: Reference) {
    e.referenceTypeId.Some? ==> r.isForward != e.isInverse
  }

  ghost predicate RightType(sp: Space, e: Element, r: Reference) {
    match e.referenceTypeId
    case None => true
    case Some(t) =>
      r.referenceType == t
      || (e.includeSubtypes && t in sp.referenceTypes && Above(SupertypesOf(sp.nodes), r.referenceType, t))
  }

  /** Without a reference type every reference is followed, in both directions. */
  ghost predicate Follows(sp: Space, e: Element, r: Reference) {
    RightDirection(e, r) && RightType(sp, e, r)
  }

  /** isSubtypeOf is asked about the type of the reference. */
  predicate Asks(sp: Space, e: Element, r: Reference) {
    && e.referenceTypeId.Some? && RightDirection(e, r) && r.referenceType in sp.referenceTypes
    && e.referenceTypeId.value != r.referenceType && e.includeSubtypes && e.referenceTypeId.value in sp.referenceTypes
  }

  /** What cannot be decided about a reference: its type is unknown, or the supertypes of its type lead
      to one that is not registered. */
  ghost predicate Undecided(sp: Space, e: Element, r: Reference) {
    || (e.referenceTypeId.Some? && RightDirection(e, r) && r.referenceType !in sp.referenceTypes)
    || (Asks(sp, e, r) && r.referenceType in sp.nodes
        && e.referenceTypeId.value !in sp.nodes[r.referenceType].memo
        && Lost(sp.nodes, r.referenceType, e.referenceTypeId.value))
  }

  ghost predicate Throws(sp: Space, e: Element, r: Reference) {
    Undecided(sp, e, r) || (Follows(sp, e, r) && r.nodeId !in sp.nodes)
  }

  ghost predicate Hits(sp: Space, e: Element, r: Reference) {
    Follows(sp, e, r) && r.nodeId in sp.nodes && sp.nodes[r.nodeId].browseName == e.targetName
  }

  /** The matching targets among `refs`, each listed once. */
  ghost function Direct(sp: Space, e: Element, refs: seq<Reference>): Result<seq<NodeId>> {
    if refs == [] then Ok([])
    else
      var init, r := Direct(sp, e, refs[..|refs| - 1]), refs[|refs| - 1];
      if init.Fail? || Throws(sp, e, r) then Fail
      else if Hits(sp, e, r) && r.nodeId !in init.value then Ok(init.value + [r.nodeId])
      else init
  }

  lemma {:induction false} DirectTargets(sp: Space, e: Element, refs: seq<Reference>)
    ensures Direct(sp, e, refs).Fail? <==>
      exists r :: r in refs && (Undecided(sp, e, r) || (Follows(sp, e, r) && r.nodeId !in sp.nodes))
    ensures Direct(sp, e, refs).Ok? ==>
      && NoDup(Direct(sp, e, refs).value)
      && forall t :: t in Direct(sp, e, refs).value <==>
           t in sp.nodes && sp.nodes[t].browseName == e.targetName
           && exists r :: r in refs && Follows(sp, e, r) && r.nodeId == t
  {
    assert forall r :: Throws(sp, e, r) <==> Undecided(sp, e, r) || (Follows(sp, e, r) && r.nodeId !in sp.nodes);
    hide Follows, Undecided;
    if refs != [] {
      var init, r := refs[..|refs| - 1], refs[|refs| - 1];
      DirectTargets(sp, e, init);
      assert refs == init + [r];
      assert forall q :: q in refs <==> q in init || q == r;
      if Direct(sp, e, refs).Ok? {
        var before := Direct(sp, e, init).value;
        if r.nodeId !in before {
          NoDupAppend(before, r.nodeId);
        }
        forall t
          ensures t in Direct(sp, e, refs).value <==> exists q :: q in refs && Hits(sp, e, q) && q.nodeId == t
        {
          if t in Direct(sp, e, refs).value && t !in before {
            assert r in refs && Hits(sp, e, r) && r.nodeId == t;
          }
        }
      }
    }
  }

  /** The targets stand in the order in which the references first lead to them: what the first `n`
      references give is the beginning of what they all give. */
  lemma {:induction false} DirectInOrder(sp: Space, e: Element, refs: seq<Reference>, n: nat)
    requires n <= |refs| && Direct(sp, e, refs).Ok?
    ensures Direct(sp, e, refs[..n]).Ok? && Direct(sp, e, refs[..n]).value <= Direct(sp, e, refs).value
    ensures n > 0 && Follows(sp, e, refs[n - 1]) && sp.nodes[refs[n - 1].nodeId].browseName == e.targetName ==>
      refs[n - 1].nodeId in Direct(sp, e, refs[..n]).value
    decreases |refs|
  {
    if n == |refs| {
      assert refs[..n] == refs;
    } else {
      assert refs[..|refs| - 1][..n] == refs[..n];
      DirectInOrder(sp, e, refs[..|refs| - 1], n);
    }
  }

  /** browseNodeByTargetName */
  ghost function Hop(sp: Space, n: NodeId, e: Element, depth: nat): Result<seq<NodeId>>
    requires n in sp.nodes && EndsWithin(SupertypesOf(sp.nodes), n, depth)
    decreases depth
  {
    var here := Direct(sp, e, AllReferences(sp.nodes[n]));
    if here == Ok([]) && FallsBack(sp, n) then Hop(sp, SupertypesOf(sp.nodes)[n], e, depth - 1) else here
  }

  /** subtypeOf is null when the supertype is not registered. */
  predicate FallsBack(sp: Space, n: NodeId)
    requires n in sp.nodes
  {
    n in sp.types && n in SupertypesOf(sp.nodes) && SupertypesOf(sp.nodes)[n] in sp.nodes
  }

  /** The `k`-th supertype of `n` is the first type on the way up with a match, and `t` is one. */
  ghost predicate FoundAt(sp: Space, n: NodeId, e: Element, t: NodeId, k: nat) {
    && Up(SupertypesOf(sp.nodes), n, k).Some? && Up(SupertypesOf(sp.nodes), n, k).value in sp.nodes
    && (exists r ::
          r in AllReferences(sp.nodes[Up(SupertypesOf(sp.nodes), n, k).value]) && Hits(sp, e, r) && r.nodeId == t)
    && (forall j :: 0 <= j < k ==> Barren(sp, n, e, j))
  }

  ghost predicate Barren(sp: Space, n: NodeId, e: Element, j: nat) {
    && Up(SupertypesOf(sp.nodes), n, j).Some? && Up(SupertypesOf(sp.nodes), n, j).value in sp.nodes
    && Up(SupertypesOf(sp.nodes), n, j).value in sp.types
    && forall r :: r in AllReferences(sp.nodes[Up(SupertypesOf(sp.nodes), n, j).value]) ==> !Hits(sp, e, r)
  }

  ghost predicate Reaches(sp: Space, n: NodeId, e: Element, t: NodeId) {
    exists k: nat :: FoundAt(sp, n, e, t, k)
  }

  /** The targets of one element: the matches of the node itself, or else of its nearest supertype
      that has any. */
  lemma {:induction false} HopTargets(sp: Space, n: NodeId, e: Element, depth: nat, t: NodeId)
    requires n in sp.nodes && EndsWithin(SupertypesOf(sp.nodes), n, depth) && Hop(sp, n, e, depth).Ok?
    ensures t in Hop(sp, n, e, depth).value <==> Reaches(sp, n, e, t)
    ensures t in Hop(sp, n, e, depth).value ==> t in sp.nodes
    decreases depth
  {
    var s, node := SupertypesOf(sp.nodes), sp.nodes[n];
    var here := Direct(sp, e, AllReferences(node));
    DirectTargets(sp, e, AllReferences(node));
    assert Up(s, n, 0) == Some(n);
    if t in here.value {
      assert FoundAt(sp, n, e, t, 0);
    }
    if here == Ok([]) && FallsBack(sp, n) {
      HopTargets(sp, s[n], e, depth - 1, t);
      var none := here.value;
      forall r | r in AllReferences(node)
        ensures !Hits(sp, e, r)
      {
        assert r.nodeId !in none;
      }
      assert Barren(sp, n, e, 0);
      if k: nat :| FoundAt(sp, s[n], e, t, k) {
        FoundHigher(sp, n, e, t, k);
      }
      if k: nat :| FoundAt(sp, n, e, t, k) {
        assert k > 0;
        FoundLower(sp, n, e, t, k);
      }
    } else if k: nat :| FoundAt(sp, n, e, t, k) {
      NotBarren(sp, n, e, t, k);
    }
  }

  lemma NotBarren(sp: Space, n: NodeId, e: Element, t: NodeId, k: nat)
    requires n in sp.nodes && FoundAt(sp, n, e, t, k)
    requires var here := Direct(sp, e, AllReferences(sp.nodes[n]));
      here.Ok? && (here.value != [] || !FallsBack(sp, n))
    ensures k == 0
  {
    var here := Direct(sp, e, AllReferences(sp.nodes[n])).value;
    DirectTargets(sp, e, AllReferences(sp.nodes[n]));
    assert Up(SupertypesOf(sp.nodes), n, 0) == Some(n);
    assert here != [] ==> here[0] in here;
    assert here != [] ==> !Barren(sp, n, e, 0);
    assert k > 0 ==> Barren(sp, n, e, 0);
    assert k > 0 ==> n in SupertypesOf(sp.nodes) && Up(SupertypesOf(sp.nodes), n, 1) == Some(SupertypesOf(sp.nodes)[n]);
    assert k > 1 ==> Barren(sp, n, e, 1);
  }

  lemma FoundHigher(sp: Space, n: NodeId, e: Element, t: NodeId, k: nat)
    requires n in SupertypesOf(sp.nodes) && FoundAt(sp, SupertypesOf(sp.nodes)[n], e, t, k) && Barren(sp, n, e, 0)
    ensures FoundAt(sp, n, e, t, k + 1)
  {
    var s := SupertypesOf(sp.nodes);
    assert Up(s, n, k + 1) == Up(s, s[n], k);
    forall j | 0 <= j < k + 1
      ensures Barren(sp, n, e, j)
    {
      if j > 0 {
        assert Barren(sp, s[n], e, j - 1);
        assert Up(s, n, j) == Up(s, s[n], j - 1);
      }
    }
  }

  lemma FoundLower(sp: Space, n: NodeId, e: Element, t: NodeId, k: nat)
    requires n in SupertypesOf(sp.nodes) && k > 0 && FoundAt(sp, n, e, t, k)
    ensures FoundAt(sp, SupertypesOf(sp.nodes)[n], e, t, k - 1)
  {
    var s := SupertypesOf(sp.nodes);
    forall j | 0 <= j < k - 1
      ensures Barren(sp, s[n], e, j)
    {
      assert Barren(sp, n, e, j + 1);
    }
  }

  // ---- a whole path ---------------------------------------------------------------------------

  /** An acyclic hierarchy with single inheritance, about which nothing wrong is remembered. */
  ghost predicate Valid(sp: Space) {
    && sp.referenceTypes <= sp.nodes.Keys
    && SingleInheritance(sp.nodes) && Acyclic(SupertypesOf(sp.nodes))
    && forall d, b :: MemoRight(sp.nodes, d, b)
  }

  /** So is every graph in which isSubtypeOf answers rightly. */
  lemma SoundIsValid(tb: TypeTable, sp: Space)
    requires R.Sound(tb, sp.nodes) && R.AnswersRight(sp.nodes) && tb.Mirrored(HAS_SUBTYPE)
    requires sp.referenceTypes <= sp.nodes.Keys
    ensures Valid(sp)
  {
    R.AnswersRightIff(tb, sp.nodes);
    forall d, b
      ensures MemoRight(sp.nodes, d, b)
    {
      R.MemoRightInView(sp.nodes, d, b);
    }
  }

  ghost function Step(sp: Space, n: NodeId, e: Element): Result<seq<NodeId>>
    requires Valid(sp) && n in sp.nodes
  {
    AcyclicEnds(SupertypesOf(sp.nodes), n);
    Hop(sp, n, e, |SupertypesOf(sp.nodes)|)
  }

  /** All nodes of `ns` explored in turn; a throw anywhere aborts. Nodes not found are skipped. */
  ghost function ExploreAll(sp: Space, ns: seq<NodeId>, path: seq<Element>): Result<seq<NodeId>>
    requires Valid(sp)
    decreases |path|, 1, |ns|
  {
    if ns == [] then Ok([])
    else
      var first := if ns[0] in sp.nodes then Explore(sp, ns[0], path) else Ok([]);
      var rest := ExploreAll(sp, ns[1..], path);
      if first.Fail? || rest.Fail? then Fail else Ok(first.value + rest.value)
  }

  ghost function Explore(sp: Space, n: NodeId, path: seq<Element>): Result<seq<NodeId>>
    requires Valid(sp) && n in sp.nodes
    decreases |path|, 0
  {
    if path == [] then Ok([n])
    else
      var targets := Step(sp, n, path[0]);
      if targets.Fail? then Fail else ExploreAll(sp, targets.value, path[1..])
  }

  lemma {:induction false} ExploreAllAppend(sp: Space, ns: seq<NodeId>, ms: seq<NodeId>, path: seq<Element>)
    requires Valid(sp)
    ensures ExploreAll(sp, ns + ms, path) ==
      if ExploreAll(sp, ns, path).Fail? || ExploreAll(sp, ms, path).Fail? then Fail
      else Ok(ExploreAll(sp, ns, path).value + ExploreAll(sp, ms, path).value)
  {
    if ns == [] {
      assert ns + ms == ms;
      assert ExploreAll(sp, ms, path).Ok? ==> [] + ExploreAll(sp, ms, path).value == ExploreAll(sp, ms, path).value;
    } else {
      assert (ns + ms)[1..] == ns[1..] + ms && (ns + ms)[0] == ns[0];
      ExploreAllAppend(sp, ns[1..], ms, path);
      var first := if ns[0] in sp.nodes then Explore(sp, ns[0], path) else Ok([]);
      var rest, more := ExploreAll(sp, ns[1..], path), ExploreAll(sp, ms, path);
      if first.Ok? && rest.Ok? && more.Ok? {
        assert first.value + (rest.value + more.value) == (first.value + rest.value) + more.value;
      }
    }
  }

  /** Following `p + q` is following `p` and then `q` from each of its targets, in that order. */
  lemma {:induction false} PathComposition(sp: Space, n: NodeId, p: seq<Element>, q: seq<Element>)
    requires Valid(sp) && n in sp.nodes
    ensures Explore(sp, n, p + q) ==
      if Explore(sp, n, p).Fail? then Fail else ExploreAll(sp, Explore(sp, n, p).value, q)
    decreases |p|, 0
  {
    if p == [] {
      assert p + q == q;
      assert [n][1..] == [];
      var r := Explore(sp, n, q);
      assert ExploreAll(sp, [n], q) == if r.Fail? then Fail else Ok(r.value + []);
      assert r.Ok? ==> r.value + [] == r.value;
    } else {
      assert (p + q)[1..] == p[1..] + q && (p + q)[0] == p[0];
      var targets := Step(sp, n, p[0]);
      if targets.Ok? {
        AllComposition(sp, targets.value, p[1..], q);
      }
    }
  }

  lemma {:induction false} AllComposition(sp: Space, ns: seq<NodeId>, p: seq<Element>, q: seq<Element>)
    requires Valid(sp)
    ensures ExploreAll(sp, ns, p + q) ==
      if ExploreAll(sp, ns, p).Fail? then Fail else ExploreAll(sp, ExploreAll(sp, ns, p).value, q)
    decreases |p|, 1, |ns|
  {
    if ns != [] {
      AllComposition(sp, ns[1..], p, q);
      if ns[0] in sp.nodes {
        PathComposition(sp, ns[0], p, q);
      }
      if ExploreAll(sp, ns, p).Ok? {
        var first := if ns[0] in sp.nodes then Explore(sp, ns[0], p).value else [];
        ExploreAllAppend(sp, first, ExploreAll(sp, ns[1..], p).value, q);
      }
    }
  }

  /** A chain of nodes, each one a target of its element from the node before. */
  ghost predicate Chain(sp: Space, nodes: seq<NodeId>, path: seq<Element>) {
    |nodes| == |path| + 1 && forall i :: 0 <= i < |path| ==> Link(sp, nodes, path, i)
  }

  ghost predicate Link(sp: Space, nodes: seq<NodeId>, path: seq<Element>, i: nat)
    requires i < |path| && i + 1 < |nodes|
  {
    Reaches(sp, nodes[i], path[i], nodes[i + 1])
  }

  ghost predicate ChainTo(sp: Space, n: NodeId, path: seq<Element>, t: NodeId) {
    exists nodes :: Chain(sp, nodes, path) && nodes[0] == n && nodes[|path|] == t
  }

  /** The targets of a path are exactly the ends of all chains of matching nodes. */
  lemma {:induction false} PathTargets(sp: Space, n: NodeId, path: seq<Element>, t: NodeId)
    requires Valid(sp) && n in sp.nodes && Explore(sp, n, path).Ok?
    ensures t in Explore(sp, n, path).value <==> ChainTo(sp, n, path, t)
    decreases |path|
  {
    if path == [] {
      if t == n {
        assert Chain(sp, [n], path);
      }
    } else {
      var e, rest := path[0], path[1..];
      var targets := Step(sp, n, e).value;
      AcyclicEnds(SupertypesOf(sp.nodes), n);
      forall m
        ensures m in targets <==> Reaches(sp, n, e, m)
        ensures m in targets ==> m in sp.nodes
      {
        HopTargets(sp, n, e, |SupertypesOf(sp.nodes)|, m);
      }
      AllTargets(sp, targets, rest, t);
      forall m | m in targets
        ensures Explore(sp, m, rest).Ok? && (t in Explore(sp, m, rest).value <==> ChainTo(sp, m, rest, t))
      {
        AllOk(sp, targets, rest, m);
        PathTargets(sp, m, rest, t);
      }
      ChainStep(sp, n, path, t);
    }
  }

  lemma {:induction false} AllOk(sp: Space, ns: seq<NodeId>, path: seq<Element>, m: NodeId)
    requires Valid(sp) && ExploreAll(sp, ns, path).Ok? && m in ns && m in sp.nodes
    ensures Explore(sp, m, path).Ok?
  {
    if m != ns[0] {
      AllOk(sp, ns[1..], path, m);
    }
  }

  lemma {:induction false} AllTargets(sp: Space, ns: seq<NodeId>, path: seq<Element>, t: NodeId)
    requires Valid(sp) && ExploreAll(sp, ns, path).Ok? && forall m :: m in ns ==> m in sp.nodes
    ensures t in ExploreAll(sp, ns, path).value <==>
      exists m :: m in ns && Explore(sp, m, path).Ok? && t in Explore(sp, m, path).value
  {
    if ns != [] {
      AllTargets(sp, ns[1..], path, t);
      assert ns == [ns[0]] + ns[1..];
      assert t in ExploreAll(sp, ns, path).value <==>
        t in Explore(sp, ns[0], path).value || t in ExploreAll(sp, ns[1..], path).value;
      if t in Explore(sp, ns[0], path).value {
        assert ns[0] in ns;
      } else if m :| m in ns[1..] && Explore(sp, m, path).Ok? && t in Explore(sp, m, path).value {
        assert m in ns;
      } else {
        assert forall m :: m in ns ==> m == ns[0] || m in ns[1..];
      }
    }
  }

  lemma ChainStep(sp: Space, n: NodeId, path: seq<Element>, t: NodeId)
    requires path != []
    ensures ChainTo(sp, n, path, t) <==> exists m :: Reaches(sp, n, path[0], m) && ChainTo(sp, m, path[1..], t)
  {
    hide Reaches, Link;
    if nodes :| Chain(sp, nodes, path) && nodes[0] == n && nodes[|path|] == t {
      ChainTail(sp, nodes, path);
      assert ChainTo(sp, nodes[1..][0], path[1..], t);
    }
    if m :| Reaches(sp, n, path[0], m) && ChainTo(sp, m, path[1..], t) {
      var tail :| Chain(sp, tail, path[1..]) && tail[0] == m && tail[|path[1..]|] == t;
      ChainCons(sp, n, tail, path);
      assert ([n] + tail)[|path|] == t;
    }
  }

  lemma ChainTail(sp: Space, nodes: seq<NodeId>, path: seq<Element>)
    requires path != [] && Chain(sp, nodes, path)
    ensures Reaches(sp, nodes[0], path[0], nodes[1]) && Chain(sp, nodes[1..], path[1..])
  {
    forall i | 0 <= i < |path[1..]|
      ensures Link(sp, nodes[1..], path[1..], i)
    {
      assert Link(sp, nodes, path, i + 1);
    }
    assert Link(sp, nodes, path, 0);
  }

  lemma ChainCons(sp: Space, n: NodeId, tail: seq<NodeId>, path: seq<Element>)
    requires path != [] && Chain(sp, tail, path[1..]) && Reaches(sp, n, path[0], tail[0])
    ensures Chain(sp, [n] + tail, path)
  {
    forall i | 0 <= i < |path|
      ensures Link(sp, [n] + tail, path, i)
    {
      assert i > 0 ==> Link(sp, tail, path[1..], i - 1);
    }
  }

  /** A node to which some part of the path leads, and at which the next element throws. */
  ghost predicate ThrowsAlong(sp: Space, n: NodeId, path: seq<Element>, k: nat, m: NodeId)
    requires Valid(sp)
  {
    k < |path| && ChainTo(sp, n, path[..k], m) && m in sp.nodes && Step(sp, m, path[k]).Fail?
  }

  /** Following a path throws exactly when some chain of matching nodes leads to one at which the next
      element throws, even if other chains go all the way. */
  lemma {:induction false} PathThrows(sp: Space, n: NodeId, path: seq<Element>)
    requires Valid(sp) && n in sp.nodes
    ensures Explore(sp, n, path).Fail? <==> exists k: nat, m :: ThrowsAlong(sp, n, path, k, m)
    decreases |path|
  {
    if path != [] {
      var first := Step(sp, n, path[0]);
      if first.Fail? {
        assert Chain(sp, [n], path[..0]);
        assert ThrowsAlong(sp, n, path, 0, n);
      } else {
        StepReaches(sp, n, path[0]);
        forall m | m in first.value
          ensures Explore(sp, m, path[1..]).Fail? <==> exists k: nat, x :: ThrowsAlong(sp, m, path[1..], k, x)
        {
          PathThrows(sp, m, path[1..]);
        }
        AllThrow(sp, first.value, path[1..]);
        ThrowsLater(sp, n, path);
      }
    }
  }

  lemma StepReaches(sp: Space, n: NodeId, e: Element)
    requires Valid(sp) && n in sp.nodes && Step(sp, n, e).Ok?
    ensures forall m :: m in Step(sp, n, e).value <==> Reaches(sp, n, e, m)
    ensures forall m :: m in Step(sp, n, e).value ==> m in sp.nodes
  {
    AcyclicEnds(SupertypesOf(sp.nodes), n);
    forall m
      ensures m in Step(sp, n, e).value <==> Reaches(sp, n, e, m)
      ensures m in Step(sp, n, e).value ==> m in sp.nodes
    {
      HopTargets(sp, n, e, |SupertypesOf(sp.nodes)|, m);
    }
  }

  lemma {:induction false} AllThrow(sp: Space, ns: seq<NodeId>, path: seq<Element>)
    requires Valid(sp) && forall m :: m in ns ==> m in sp.nodes
    ensures ExploreAll(sp, ns, path).Fail? <==> exists m :: m in ns && Explore(sp, m, path).Fail?
  {
    if ns != [] {
      AllThrow(sp, ns[1..], path);
      assert forall m :: m in ns <==> m == ns[0] || m in ns[1..];
      assert ExploreAll(sp, ns, path).Fail? <==> Explore(sp, ns[0], path).Fail? || ExploreAll(sp, ns[1..], path).Fail?;
      assert ns[0] in ns && ns[0] in sp.nodes;
    }
  }

  /** The first element does not throw: then it is one of its targets from which the rest throws. */
  lemma ThrowsLater(sp: Space, n: NodeId, path: seq<Element>)
    requires Valid(sp) && n in sp.nodes && path != [] && Step(sp, n, path[0]).Ok?
    ensures (exists k: nat, m :: ThrowsAlong(sp, n, path, k, m)) <==>
      exists m, k: nat, x :: Reaches(sp, n, path[0], m) && ThrowsAlong(sp, m, path[1..], k, x)
  {
    hide Reaches, Step, Valid;
    if k: nat, x :| ThrowsAlong(sp, n, path, k, x) {
      assert k > 0;
      ChainStep(sp, n, path[..k], x);
      assert path[..k][1..] == path[1..][..k - 1];
      var m :| Reaches(sp, n, path[0], m) && ChainTo(sp, m, path[..k][1..], x);
      assert ThrowsAlong(sp, m, path[1..], k - 1, x);
    }
    if m, k: nat, x :| Reaches(sp, n, path[0], m) && ThrowsAlong(sp, m, path[1..], k, x) {
      assert path[..k + 1][1..] == path[1..][..k] && path[..k + 1][0] == path[0];
      ChainStep(sp, n, path[..k + 1], x);
      assert ThrowsAlong(sp, n, path, k + 1, x);
    }
  }

  /** The path of one element along a reference, by its type and direction, and the one back. */
  function Along(sp: Space, r: Reference): Element
    requires r.nodeId in sp.nodes
  {
    Element(Some(r.referenceType), !r.isForward, false, sp.nodes[r.nodeId].browseName)
  }

  /** Where references are mirrored, every reference between two nodes can be followed by its type and
      direction to the node it leads to, and the opposite direction leads back. */
  lemma ThereAndBack(tb: TypeTable, sp: Space, a: NodeId, r: Reference)
    requires Valid(sp) && Mirrored(tb, sp.nodes) && Owns(sp.nodes, a, r) && r.nodeId in sp.nodes
    requires r.referenceType in tb.types && r.referenceType !in tb.massive && r.referenceType in sp.referenceTypes
    ensures var there := Explore(sp, a, [Along(sp, r)]); there.Ok? ==> r.nodeId in there.value
    ensures var back := Explore(sp, r.nodeId, [Along(sp, Mirror(r, a))]); back.Ok? ==> a in back.value
  {
    MirrorBijection(tb, sp.nodes, a, r);
    OneElement(sp, a, r);
    OneElement(sp, r.nodeId, Mirror(r, a));
  }

  lemma OneElement(sp: Space, n: NodeId, r: Reference)
    requires Valid(sp) && n in sp.nodes && r in AllReferences(sp.nodes[n]) && r.nodeId in sp.nodes
    ensures var out := Explore(sp, n, [Along(sp, r)]); out.Ok? ==> r.nodeId in out.value
  {
    var e := Along(sp, r);
    var step := Step(sp, n, e);
    if step.Ok? {
      StepReaches(sp, n, e);
      FoundHere(sp, n, e, r);
      EndsHere(sp, step.value);
      assert [e][1..] == [];
    }
  }

  lemma FoundHere(sp: Space, n: NodeId, e: Element, r: Reference)
    requires n in sp.nodes && r in AllReferences(sp.nodes[n]) && Hits(sp, e, r)
    ensures Reaches(sp, n, e, r.nodeId)
  {
    assert Up(SupertypesOf(sp.nodes), n, 0) == Some(n);
    assert FoundAt(sp, n, e, r.nodeId, 0);
  }

  lemma {:induction false} EndsHere(sp: Space, ns: seq<NodeId>)
    requires Valid(sp) && forall m :: m in ns ==> m in sp.nodes
    ensures ExploreAll(sp, ns, []) == Ok(ns)
  {
    if ns != [] {
      EndsHere(sp, ns[1..]);
      assert [ns[0]] + ns[1..] == ns;
    }
  }

  // ---- the service ----------------------------------------------------------------------------

  datatype StatusCode = Good | BadNodeIdUnknown | BadNothingToDo | BadBrowseNameInvalid | BadNoMatch

  datatype Target = Target(targetId: NodeId, remainingPathIndex: nat)

  datatype BrowsePathResult = BrowsePathResult(statusCode: StatusCode, targets: seq<Target>)

  const NO_REMAINING_PATH: nat := 0xffff_ffff

  predicate AllNamed(path: seq<Element>) {
    forall i :: 0 <= i < |path| ==> path[i].targetName.name != ""
  }

  /** What the service answers; None when it throws. */
  ghost predicate Answer(sp: Space, start: NodeId, path: seq<Element>, r: Option<BrowsePathResult>)
    requires Valid(sp)
  {
    if start !in sp.nodes then r == Some(BrowsePathResult(BadNodeIdUnknown, []))
    else if path == [] then r == Some(BrowsePathResult(BadNothingToDo, []))
    else if !AllNamed(path) then r == Some(BrowsePathResult(BadBrowseNameInvalid, []))
    else if Explore(sp, start, path).Fail? then r == None
    else
      && r.Some?
      && |r.value.targets| == |Explore(sp, start, path).value|
      && (forall i :: 0 <= i < |r.value.targets| ==>
            r.value.targets[i] == Target(Explore(sp, start, path).value[i], NO_REMAINING_PATH))
      && r.value.statusCode == if r.value.targets == [] then BadNoMatch else Good
  }

  /** The statuses one by one, in the order in which they are looked for. */
  lemma StatusMeans(sp: Space, start: NodeId, path: seq<Element>, r: Option<BrowsePathResult>)
    requires Valid(sp) && Answer(sp, start, path, r)
    ensures start !in sp.nodes ==> r == Some(BrowsePathResult(BadNodeIdUnknown, []))
    ensures start in sp.nodes && path == [] ==> r == Some(BrowsePathResult(BadNothingToDo, []))
    ensures start in sp.nodes && (exists e :: e in path && e.targetName.name == "") ==>
      r == Some(BrowsePathResult(BadBrowseNameInvalid, []))
    ensures start in sp.nodes && path != [] && (forall e :: e in path ==> e.targetName.name != "") ==>
      && (r == None <==> Explore(sp, start, path).Fail?)
      && (r.Some? ==> r.value.statusCode == if r.value.targets == [] then BadNoMatch else Good)
    ensures r.Some? ==> forall t :: t in r.value.targets ==> t.remainingPathIndex == 0xffff_ffff
  {
    hide Explore, Valid;
    assert forall i :: 0 <= i < |path| ==> path[i] in path;
  }

  /** The status is Good exactly when some chain of matching nodes leaves a known start along a
      non-empty, fully named path. */
  lemma GoodIffReachable(sp: Space, start: NodeId, path: seq<Element>, r: BrowsePathResult)
    requires Valid(sp) && Answer(sp, start, path, Some(r))
    ensures r.statusCode == Good <==>
      start in sp.nodes && path != [] && AllNamed(path) && exists t :: ChainTo(sp, start, path, t)
    ensures r.statusCode == Good <==> r.targets != []
    ensures r.statusCode == Good ==>
      forall t :: ChainTo(sp, start, path, t) <==> exists x :: x in r.targets && x.targetId == t
  {
    if start in sp.nodes && path != [] && AllNamed(path) {
      var found := Explore(sp, start, path).value;
      forall t
        ensures ChainTo(sp, start, path, t) <==> t in found
        ensures t in found <==> exists x :: x in r.targets && x.targetId == t
      {
        PathTargets(sp, start, path, t);
        if i :| 0 <= i < |found| && found[i] == t {
          assert r.targets[i] in r.targets && r.targets[i].targetId == t;
        }
      }
      assert found != [] ==> found[0] in found;
    }
  }

  /** A query in progress: the targets pushed so far. */
  class BrowsePathQuery {
    const space: Space
    var res: seq<Target>

    constructor (space: Space)
      ensures this.space == space && res == []
    {
      this.space := space;
      res := [];
    }

    /** _check_reference; None when it throws. */
    method CheckReference(e: Element, r: Reference) returns (answer: Option<bool>)
      requires Valid(space)
      ensures answer == None <==> Undecided(space, e, r)
      ensures answer.Some? ==> (answer.value <==> Follows(space, e, r))
      ensures e.referenceTypeId == None ==> answer == Some(true)
      ensures e.referenceTypeId.Some? && r.isForward == e.isInverse ==> answer == Some(false)
      ensures e.referenceTypeId.Some? && r.isForward != e.isInverse ==>
        var t := e.referenceTypeId.value; var widened := e.includeSubtypes && t in space.referenceTypes;
        && (answer == None <==>
              || r.referenceType !in space.referenceTypes
              || (r.referenceType != t && widened
                  && t !in space.nodes[r.referenceType].memo && Lost(space.nodes, r.referenceType, t)))
        && (answer.Some? ==>
              (answer.value <==>
                 r.referenceType == t || (widened && Above(SupertypesOf(space.nodes), r.referenceType, t))))
    {
      if e.referenceTypeId == None {
        return Some(true);
      }
      var t := e.referenceTypeId.value;
      if (e.isInverse && r.isForward) || (!e.isInverse && !r.isForward) {
        return Some(false);
      }
      if r.referenceType !in space.referenceTypes {
        return None;
      }
      if t == r.referenceType {
        return Some(true);
      }
      if e.includeSubtypes {
        if t in space.referenceTypes {
          AskAnswers(space.nodes, r.referenceType, t);
          assert MemoRight(space.nodes, r.referenceType, t);
          var asked := ReferenceGraph.Ask(space.nodes, r.referenceType, t).1;
          if asked == ReferenceGraph.Throws {
            return None;
          }
          if asked == Answers(true) {
            return Some(true);
          }
        }
      }
      return Some(false);
    }

    /** get_subtypeOf: none when there is no supertype or when it is not registered. */
    method GetSubtypeOf(n: NodeId) returns (t: Option<NodeId>)
      requires Valid(space) && n in space.nodes
      ensures t == if n in SupertypesOf(space.nodes) && SupertypesOf(space.nodes)[n] in space.nodes
                   then Some(SupertypesOf(space.nodes)[n]) else None
    {
      var found := FindFresh(space.nodes[n], HAS_SUBTYPE, false);
      SupersAreFound(space.nodes[n]);
      assert SupersIn(space.nodes)[n] == found;
      if |found| == 0 || found[0].nodeId !in space.nodes {
        return None;
      }
      t := Some(found[0].nodeId);
    }

    method BrowseNodeByTargetName(n: NodeId, e: Element, ghost depth: nat) returns (r: Result<seq<NodeId>>)
      requires Valid(space) && n in space.nodes && EndsWithin(SupertypesOf(space.nodes), n, depth)
      ensures r == Hop(space, n, e, depth)
      decreases depth
    {
      hide Valid, Direct, Undecided, Follows, SupertypesOf;
      var node := space.nodes[n];
      var references := AllReferences(node);
      var nodeIds: seq<NodeId> := [];
      DirectNone(space, e);
      for i := 0 to |references|
        invariant Direct(space, e, references[..i]) == Ok(nodeIds)
      {
        DirectNext(space, e, references, i);
        var check := CheckReference(e, references[i]);
        if check == None {
          DirectFails(space, e, references, i + 1);
          return Fail;
        }
        if !check.value {
          continue;
        }
        if references[i].nodeId !in space.nodes {
          DirectFails(space, e, references, i + 1);
          return Fail;
        }
        if space.nodes[references[i].nodeId].browseName == e.targetName {
          if references[i].nodeId !in nodeIds {
            nodeIds := nodeIds + [references[i].nodeId];
          }
        }
      }
      assert references[..|references|] == references;
      if |nodeIds| == 0 && n in space.types {
        var super := GetSubtypeOf(n);
        if super.Some? {
          r := BrowseNodeByTargetName(super.value, e, depth - 1);
          return;
        }
      }
      r := Ok(nodeIds);
    }

    /** explore_element; false when it throws. */
    method ExploreElement(n: NodeId, elements: seq<Element>, index: nat) returns (ok: bool)
      requires Valid(space) && n in space.nodes && index < |elements|
      modifies this
      ensures ok <==> Explore(space, n, elements[index..]).Ok?
      ensures ok ==> res == old(res) + AsTargets(Explore(space, n, elements[index..]).value)
      decreases |elements| - index
    {
      hide SupertypesOf, Hop, Reaches;
      var element := elements[index];
      var rest := elements[index..][1..];
      assert rest == elements[index + 1..];
      AcyclicEnds(SupertypesOf(space.nodes), n);
      var found := BrowseNodeByTargetName(n, element, |SupertypesOf(space.nodes)|);
      if found.Fail? {
        return false;
      }
      var nodeIds := found.value;
      forall t | t in nodeIds
        ensures t in space.nodes
      {
        HopTargets(space, n, element, |SupertypesOf(space.nodes)|, t);
      }
      ghost var before := res;
      for i := 0 to |nodeIds|
        invariant ExploreAll(space, nodeIds[..i], rest).Ok?
        invariant res == before + AsTargets(ExploreAll(space, nodeIds[..i], rest).value)
      {
        ExploreNext(space, nodeIds, i, rest);
        ghost var done, next := ExploreAll(space, nodeIds[..i], rest).value, Explore(space, nodeIds[i], rest);
        if next.Ok? {
          TargetsNext(before, done, next.value);
        }
        if index + 1 < |elements| {
          var more := ExploreElement(nodeIds[i], elements, index + 1);
          if !more {
            ExploreAllFails(space, nodeIds, i + 1, rest);
            return false;
          }
        } else {
          assert rest == [] && next == Ok([nodeIds[i]]);
          assert AsTargets([nodeIds[i]]) == [Target(nodeIds[i], NO_REMAINING_PATH)];
          res := res + [Target(nodeIds[i], NO_REMAINING_PATH)];
        }
      }
      assert nodeIds[..|nodeIds|] == nodeIds;
      ok := true;
    }

    method BrowsePath(start: NodeId, elements: seq<Element>) returns (r: Option<BrowsePathResult>)
      requires Valid(space) && res == []
      modifies this
      ensures Answer(space, start, elements, r)
    {
      if start !in space.nodes {
        return Some(BrowsePathResult(BadNodeIdUnknown, []));
      }
      if |elements| == 0 {
        return Some(BrowsePathResult(BadNothingToDo, []));
      }
      var unnamed := 0;
      for i := 0 to |elements|
        invariant unnamed >= 0
        invariant unnamed == 0 <==> AllNamed(elements[..if i == |elements| then i - 1 else i])
      {
        var isLast := i + 1 == |elements|;
        if !isLast {
          assert elements[..i + 1] == elements[..i] + [elements[i]];
        }
        unnamed := unnamed + if !isLast && elements[i].targetName.name == "" then 1 else 0;
      }
      assert elements == elements[..|elements| - 1] + [elements[|elements| - 1]];
      if unnamed > 0 {
        return Some(BrowsePathResult(BadBrowseNameInvalid, []));
      }
      if elements[|elements| - 1].targetName.name == "" {
        return Some(BrowsePathResult(BadBrowseNameInvalid, []));
      }
      assert elements[0..] == elements;
      var ok := ExploreElement(start, elements, 0);
      if !ok {
        return None;
      }
      if |res| == 0 {
        return Some(BrowsePathResult(BadNoMatch, []));
      }
      r := Some(BrowsePathResult(Good, res));
    }
  }

  function AsTargets(ns: seq<NodeId>): (ts: seq<Target>)
    ensures |ts| == |ns| && forall i :: 0 <= i < |ns| ==> ts[i] == Target(ns[i], NO_REMAINING_PATH)
  {
    seq(|ns|, i requires 0 <= i < |ns| => Target(ns[i], NO_REMAINING_PATH))
  }

  lemma TargetsNext(before: seq<Target>, done: seq<NodeId>, next: seq<NodeId>)
    ensures (before + AsTargets(done)) + AsTargets(next) == before + AsTargets(done + next)
  {
  }

  lemma ExploreNext(sp: Space, ns: seq<NodeId>, i: nat, path: seq<Element>)
    requires Valid(sp) && i < |ns| && ExploreAll(sp, ns[..i], path).Ok? && ns[i] in sp.nodes
    ensures var next := Explore(sp, ns[i], path);
      ExploreAll(sp, ns[..i + 1], path) ==
        if next.Fail? then Fail else Ok(ExploreAll(sp, ns[..i], path).value + next.value)
  {
    assert ns[..i + 1] == ns[..i] + [ns[i]];
    assert [ns[i]][1..] == [];
    ExploreAllAppend(sp, ns[..i], [ns[i]], path);
    var next := Explore(sp, ns[i], path);
    assert next.Ok? ==> next.value + [] == next.value;
  }

  lemma ExploreAllFails(sp: Space, ns: seq<NodeId>, i: nat, path: seq<Element>)
    requires Valid(sp) && i <= |ns| && ExploreAll(sp, ns[..i], path).Fail?
    ensures ExploreAll(sp, ns, path).Fail?
  {
    assert ns == ns[..i] + ns[i..];
    ExploreAllAppend(sp, ns[..i], ns[i..], path);
  }

  lemma DirectNone(sp: Space, e: Element)
    ensures Direct(sp, e, []) == Ok([])
  {
  }

  lemma DirectNext(sp: Space, e: Element, refs: seq<Reference>, i: nat)
    requires i < |refs|
    ensures Direct(sp, e, refs[..i + 1]) ==
      var init := Direct(sp, e, refs[..i]);
      if init.Fail? || Throws(sp, e, refs[i]) then Fail
      else if Hits(sp, e, refs[i]) && refs[i].nodeId !in init.value then Ok(init.value + [refs[i].nodeId])
      else init
  {
    assert refs[..i + 1][..i] == refs[..i];
  }

  lemma DirectFails(sp: Space, e: Element, refs: seq<Reference>, i: nat)
    requires i <= |refs| && Direct(sp, e, refs[..i]).Fail?
    ensures Direct(sp, e, refs).Fail?
  {
    DirectTargets(sp, e, refs[..i]);
    DirectTargets(sp, e, refs);
  }
}

/** Nodes and their address space as objects whose fields are updated in place. Every method is
    proved to move the graph of all nodes exactly as the step functions of ReferenceGraph say. */
module BaseNodes {
  import opened Common
  import opened References
  import opened ReferenceGraph
  import opened ReferenceGraphMirroring
  import opened ReferenceGraphDerived

  /** How a reference type is asked for: by id, or by a name and then as what findReferenceType finds. */
  datatype TypeArgument = ById(id: NodeId) | ByName(found: Option<NodeId>) {
    function Id(): NodeId
      requires this.ByName? ==> found.Some?
    {
      if ById? then id else found.value
    }
  }

  class BaseNode {
    const nodeId: NodeId
    const browseName: QualifiedName
    var referenceIdx: seq<Reference>
    var backReferenceIdx: seq<Reference>
    var refCache: map<(NodeId, bool), seq<Reference>>
    var childByNameMap: Option<NameIndex>
    /** The entry of this node in the WeakMap of memoised answers. */
    var memo: map<NodeId, bool>

    function State(): NodeState
      reads this
    {
      NodeState(browseName, referenceIdx, backReferenceIdx, refCache, childByNameMap, memo)
    }

    constructor (nodeId: NodeId, browseName: QualifiedName)
      ensures this.nodeId == nodeId && State() == NodeState(browseName, [], [], map[], None, map[])
    {
      this.nodeId, this.browseName := nodeId, browseName;
      referenceIdx, backReferenceIdx, refCache, childByNameMap, memo := [], [], map[], None, map[];
    }

    // ---- finders ------------------------------------------------------------------------------

    method FindReferencesNoCache(referenceType: NodeId, isForward: bool) returns (result: seq<Reference>)
      ensures result == FindFresh(State(), referenceType, isForward)
      ensures forall r :: r in result <==>
        (r in referenceIdx || r in backReferenceIdx) && r.referenceType == referenceType && r.isForward == isForward
    {
      ghost var keep := Matches(referenceType, isForward);
      result := [];
      for i := 0 to |referenceIdx|
        invariant result == Filter(referenceIdx[..i], keep)
      {
        FilterNext(referenceIdx, i, keep);
        if referenceIdx[i].isForward == isForward {
          if referenceIdx[i].referenceType == referenceType {
            result := result + [referenceIdx[i]];
          }
        }
      }
      assert referenceIdx[..|referenceIdx|] == referenceIdx;
      for i := 0 to |backReferenceIdx|
        invariant result == Filter(referenceIdx, keep) + Filter(backReferenceIdx[..i], keep)
      {
        FilterNext(backReferenceIdx, i, keep);
        if backReferenceIdx[i].isForward == isForward {
          if backReferenceIdx[i].referenceType == referenceType {
            result := result + [backReferenceIdx[i]];
          }
        }
      }
      assert backReferenceIdx[..|backReferenceIdx|] == backReferenceIdx;
      FoundMembers(State(), referenceType, isForward);
    }

    /** None when it throws: on a name under which there is no reference type, and on the id of a node
        that is no reference type. */
    method FindReferences(space: AddressSpace, referenceType: TypeArgument, isForward: bool)
      returns (result: Option<seq<Reference>>)
      requires referenceType.ByName? && referenceType.found.Some? ==> referenceType.found.value in space.types.types
      modifies this`refCache
      ensures result == None <==>
        match referenceType
        case ByName(found) => found == None
        case ById(id) => id !in space.types.types && id in space.nodes
      ensures result == None ==> State() == old(State())
      ensures result.Some? ==> (State(), result.value) == Find(space.types, old(State()), referenceType.Id(), isForward)
      ensures result.Some? && referenceType.Id() !in space.types.types ==> result.value == []
    {
      if referenceType.ByName? && referenceType.found == None {
        return None;
      }
      var id := referenceType.Id();
      if id !in space.types.types {
        var node := space.FindNode(id);
        return if node == null then Some([]) else None;
      }
      if (id, isForward) in refCache {
        return Some(refCache[(id, isForward)]);
      }
      var found := FindReferencesNoCache(id, isForward);
      refCache := refCache[(id, isForward) := found];
      result := Some(found);
    }

    method FindHierarchicalReferences(types: TypeTable) returns (result: seq<Reference>)
      ensures result == FindHierarchical(types, State())
    {
      ghost var keep := (r: Reference) => Indexable(types, r);
      result := [];
      for i := 0 to |referenceIdx|
        invariant result == Filter(referenceIdx[..i], keep)
      {
        FilterNext(referenceIdx, i, keep);
        if referenceIdx[i].isForward && referenceIdx[i].referenceType in types.hierarchical {
          result := result + [referenceIdx[i]];
        }
      }
      assert referenceIdx[..|referenceIdx|] == referenceIdx;
      for i := 0 to |backReferenceIdx|
        invariant result == Filter(referenceIdx, keep) + Filter(backReferenceIdx[..i], keep)
      {
        FilterNext(backReferenceIdx, i, keep);
        if backReferenceIdx[i].isForward && backReferenceIdx[i].referenceType in types.hierarchical {
          result := result + [backReferenceIdx[i]];
        }
      }
      assert backReferenceIdx[..|backReferenceIdx|] == backReferenceIdx;
    }

    // ---- the index of children by browse name ---------------------------------------------------

    method HandleHierarchicalReference(space: AddressSpace, r: Reference)
      modifies this`childByNameMap
      ensures State() == HandleHierarchical(space.types, space.BrowseNames(), old(State()), r)
    {
      if !r.isForward {
        return;
      }
      if childByNameMap.Some? {
        if r.referenceType in space.types.hierarchical {
          var index := AddToIndex(space, childByNameMap.value, r);
          childByNameMap := Some(index);
        }
      }
    }

    method RemoveHierarchicalReference(space: AddressSpace, r: Reference)
      modifies this`childByNameMap
      ensures State() == RemoveHierarchical(space.types, space.BrowseNames(), old(State()), r)
    {
      if childByNameMap.Some? && r.isForward {
        if r.referenceType in space.types.hierarchical {
          var index := RemoveFromIndex(space, childByNameMap.value, r);
          childByNameMap := Some(index);
        }
      }
    }

    method GetHierarchicalReference(space: AddressSpace) returns (index: NameIndex)
      modifies this`childByNameMap
      ensures State() == WithNameIndex(space.types, space.BrowseNames(), old(State()))
      ensures childByNameMap == Some(index)
    {
      if childByNameMap == None {
        index := map[];
        var references := FindHierarchicalReferences(space.types);
        for i := 0 to |references|
          invariant index == IndexAll(space.BrowseNames(), references[..i])
        {
          assert references[..i + 1][..i] == references[..i];
          index := AddToIndex(space, index, references[i]);
        }
        assert references[..|references|] == references;
        childByNameMap := Some(index);
      }
      index := childByNameMap.value;
    }

    /** namespaceIndex is None when no namespace is specified. */
    method GetChildByName(space: AddressSpace, name: string, namespaceIndex: Option<nat>)
      returns (child: Option<NodeId>)
      modifies this`childByNameMap
      ensures (State(), child) == ChildByName(space.types, space.BrowseNames(), old(State()), name, namespaceIndex)
    {
      var childrenMap := GetHierarchicalReference(space);
      var select: seq<Reference> := [];
      if name in childrenMap {
        match childrenMap[name]
        case Many(refs) => select := refs;
        case Single(ref) => select := [ref];
      }
      if namespaceIndex.Some? {
        select := SelectNamespace(space, select, namespaceIndex.value);
      }
      if |select| == 0 {
        return None;
      }
      if select[0].referenceType in space.types.hasChild {
        return Some(select[0].nodeId);
      }
      return None;
    }

    method GetNodeVersion(space: AddressSpace) returns (version: Option<NodeId>)
      requires space.Valid() && space.Contains(this)
      modifies this`childByNameMap
      ensures (space.Abs(), version) == NodeVersion(space.types, old(space.Abs()), nodeId)
    {
      version := GetChildByName(space, "NodeVersion", Some(0));
      space.OnlyChanged(this);
    }

    // ---- subtypes -------------------------------------------------------------------------------

    /** None when it throws; `depth` only bounds the recursion. */
    method SlowIsSubtypeOf(space: AddressSpace, base: NodeId, ghost depth: nat) returns (answer: Option<bool>)
      requires space.Valid() && space.Contains(this)
      requires WalkUp(space.Abs(), nodeId, base, depth) != GoesOn
      ensures WalkUp(space.Abs(), nodeId, base, depth) == if answer.Some? then Answers(answer.value) else Throws
      decreases depth
    {
      if nodeId == base {
        return Some(true);
      }
      var references := referenceIdx + backReferenceIdx;
      var subTypes := [];
      for i := 0 to |references|
        invariant subTypes == Filter(references[..i], IsSuper)
      {
        FilterNext(references, i, IsSuper);
        if IsSuper(references[i]) {
          subTypes := subTypes + [references[i]];
        }
      }
      assert references[..|references|] == references;
      if |subTypes| > 1 {
        return None;
      }
      if |subTypes| == 0 {
        return Some(false);
      }
      var subTypeNode := space.FindNode(subTypes[0].nodeId);
      if subTypeNode == null {
        return None;
      }
      if subTypes[0].nodeId == base {
        return Some(true);
      }
      answer := subTypeNode.SlowIsSubtypeOf(space, base, depth - 1);
    }

    /** None when it throws. */
    method IsSubtypeOf(space: AddressSpace, base: NodeId) returns (answer: Option<bool>)
      requires space.Valid() && space.Contains(this)
      requires base in memo || WalkUp(space.Abs(), nodeId, base, |space.Abs()|) != GoesOn
      modifies this`memo
      ensures (space.Abs(), if answer.Some? then Answers(answer.value) else Throws) ==
        Ask(old(space.Abs()), nodeId, base)
    {
      hide WalkUp;
      if base in memo {
        return Some(memo[base]);
      }
      answer := SlowIsSubtypeOf(space, base, |space.Abs()|);
      if answer.Some? {
        memo := memo[base := answer.value];
        space.OnlyChanged(this);
      }
    }

    // ---- adding ---------------------------------------------------------------------------------

    method ClearCaches()
      modifies this`refCache, this`memo
      ensures State() == ClearCache(old(State()))
    {
      refCache := map[];
      memo := map[];
    }

    method InternalAddReference(space: AddressSpace, r: Reference) returns (error: Option<Error>)
      modifies this
      ensures error == if r in old(backReferenceIdx) then Some(AlreadyInBackReferences)
                       else if r in old(referenceIdx) then Some(AlreadyInReferences) else None
      ensures State() == if error.Some? then old(State())
                         else Declare(space.types, space.BrowseNames(), old(State()), r)
    {
      if r in backReferenceIdx {
        return Some(AlreadyInBackReferences);
      }
      if r in referenceIdx {
        return Some(AlreadyInReferences);
      }
      referenceIdx := referenceIdx + [r];
      HandleHierarchicalReference(space, r);
      ClearCaches();
      error := None;
    }

    method AddBackwardReference(space: AddressSpace, m: Reference) returns (error: Option<Error>)
      requires space.Valid() && space.Contains(this)
      modifies this
      ensures space.Is(AddBackward(space.types, old(space.Abs()), nodeId, m), error)
    {
      if m in referenceIdx {
        return None;
      }
      if m in backReferenceIdx {
        return Some(AlreadyInBackReferences);
      }
      backReferenceIdx := backReferenceIdx + [m];
      HandleHierarchicalReference(space, m);
      ClearCaches();
      error := None;
      space.OnlyChanged(this);
    }

    method PropagateRef(space: AddressSpace, r: Reference) returns (error: Option<Error>)
      requires space.Valid()
      modifies space.nodes.Values
      ensures space.Is(Propagate(space.types, old(space.Abs()), nodeId, r), error)
    {
      if r.referenceType !in space.types.types || r.referenceType in space.types.massive {
        return None;
      }
      var related := space.FindNode(r.nodeId);
      if related != null {
        error := related.AddBackwardReference(space, Mirror(r, nodeId));
      } else {
        error := None;
      }
    }

    method AddReference(space: AddressSpace, r: Reference) returns (error: Option<Error>)
      requires space.Valid() && space.Contains(this)
      modifies space.nodes.Values
      ensures space.Is(ReferenceGraph.AddReference(space.types, old(space.Abs()), nodeId, r), error)
      ensures Mirrored(space.types, old(space.Abs())) ==>
        (error == None <==>
           r !in old(referenceIdx) && r !in old(backReferenceIdx) && r.referenceType in space.types.types)
      ensures r in old(referenceIdx) || r in old(backReferenceIdx) ==> error.Some? && space.Abs() == old(space.Abs())
    {
      hide Mirrored, Declare, Announce, Propagate;
      ghost var g := space.Abs();
      AddRefused(space.types, g, nodeId, r);
      assert g[nodeId] == State();
      error := InternalAddReference(space, r);
      space.OnlyChanged(this);
      if error.Some? {
        return;
      }
      if r.referenceType !in space.types.types {
        return Some(InvalidReferenceType);
      }
      error := PropagateRef(space, r);
      if error == None {
        HandleAddReferenceChangeEvent(space, r.nodeId);
      }
    }

    /** The part of the handler that shows in the graph: who is asked for a version. */
    method HandleAddReferenceChangeEvent(space: AddressSpace, node2id: NodeId)
      requires space.Valid() && space.Contains(this)
      modifies space.nodes.Values
      ensures space.Abs() == Announce(space.types, old(space.Abs()), nodeId, node2id)
    {
      var node2 := space.FindNode(node2id);
      if node2 == null {
        return;
      }
      var version := GetNodeVersion(space);
      if version == None {
        var _ := node2.GetNodeVersion(space);
      }
    }

    /** The references given to the constructor of a node that is not registered yet. */
    method DeclareAll(space: AddressSpace, references: seq<Reference>) returns (error: Option<Error>)
      requires State() == NodeState(browseName, [], [], map[], None, map[])
      modifies this
      ensures error == if NoDup(references) then None else Some(AlreadyInReferences)
      ensures error == None ==> State() == NodeState(browseName, references, [], map[], None, map[])
    {
      for i := 0 to |references|
        invariant State() == NodeState(browseName, references[..i], [], map[], None, map[])
        invariant NoDup(references[..i])
      {
        error := InternalAddReference(space, references[i]);
        if error.Some? {
          assert exists j :: 0 <= j < i && references[j] == references[i];
          return;
        }
        assert references[..i + 1] == references[..i] + [references[i]];
        NoDupAppend(references[..i], references[i]);
      }
      assert references[..|references|] == references;
      error := None;
    }

    method PropagateBackReferences(space: AddressSpace) returns (error: Option<Error>)
      requires space.Valid() && space.Contains(this)
      modifies space.nodes.Values
      ensures space.Is(PropagateAll(space.types, old(space.Abs()), nodeId, old(referenceIdx)), error)
    {
      hide Propagate;
      var references := referenceIdx;
      ghost var g := space.Abs();
      for i := 0 to |references|
        invariant PropagateAll(space.types, g, nodeId, references[..i]) == Done(space.Abs())
      {
        assert references[..i + 1][..i] == references[..i];
        error := PropagateRef(space, references[i]);
        if error.Some? {
          PropagateAllStops(space.types, g, nodeId, references, i + 1);
          return;
        }
      }
      assert references[..|references|] == references;
      error := None;
    }

    method UnpropagateBackReferences(space: AddressSpace) returns (error: Option<Error>)
      requires space.Valid() && space.Contains(this)
      modifies space.nodes.Values
      ensures space.Is(UnpropagateAll(space.types, old(space.Abs()), nodeId, old(referenceIdx)), error)
    {
      hide RemoveBackward;
      var references := referenceIdx;
      ghost var g := space.Abs();
      for i := 0 to |references|
        invariant UnpropagateAll(space.types, g, nodeId, references[..i]) == Done(space.Abs())
      {
        assert references[..i + 1][..i] == references[..i];
        var related := space.FindNode(references[i].nodeId);
        if related != null {
          if references[i].nodeId == nodeId {
            UnpropagateAllStops(space.types, g, nodeId, references, i + 1);
            return Some(SelfReference);
          }
          related.RemoveBackwardReference(space, Mirror(references[i], nodeId));
        }
      }
      assert references[..|references|] == references;
      error := None;
    }

    // ---- removing -------------------------------------------------------------------------------

    method RemoveBackwardReference(space: AddressSpace, m: Reference)
      requires space.Valid() && space.Contains(this)
      modifies this
      ensures space.Abs() == RemoveBackward(space.types, old(space.Abs()), nodeId, m)
    {
      RemoveHierarchicalReference(space, m);
      if m in backReferenceIdx {
        backReferenceIdx := Without(backReferenceIdx, m);
      } else {
        WithoutAbsent(backReferenceIdx, m);
      }
      space.OnlyChanged(this);
    }

    method RemoveOwnReference(space: AddressSpace, related: BaseNode, r: Reference)
      requires space.Valid() && space.Contains(this) && space.Contains(related) && related.nodeId == r.nodeId
      modifies this, related
      ensures space.Abs() == RemoveOwned(space.types, old(space.Abs()), nodeId, r)
    {
      referenceIdx := Without(referenceIdx, r);
      space.OnlyChanged(this);
      related.RemoveBackwardReference(space, Mirror(r, nodeId));
      label Unmirrored:
      RemoveHierarchicalReference(space, r);
      ClearCaches();
      space.OnlyChanged@Unmirrored(this);
    }

    /** The two ends call each other; the recursion ends unless both hold only a mirror. */
    method RemoveReference(space: AddressSpace, r: Reference)
      requires space.Valid() && space.Contains(this)
      requires !Bounces(space.Abs(), nodeId, r)
      modifies space.nodes.Values
      ensures RemoveWithin(space.types, old(space.Abs()), nodeId, r, 2) == Some(space.Abs())
      ensures Mirrored(space.types, old(space.Abs())) ==>
        && space.Abs() == ReferenceGraph.RemoveReference(space.types, old(space.Abs()), nodeId, r)
        && Mirrored(space.types, space.Abs())
      decreases if r !in referenceIdx && r in backReferenceIdx then 1 else 0
    {
      ghost var g := space.Abs();
      RemoveTerminates(space.types, g, nodeId, r);
      if Mirrored(space.types, g) {
        RemoveAtMostTwoDeep(space.types, g, nodeId, r);
        RemoveKeepsMirrored(space.types, g, nodeId, r);
      }
      var related := space.FindNode(r.nodeId);
      if related == null {
        return;
      }
      if r in referenceIdx {
        RemoveOwnReference(space, related, r);
      } else if r in backReferenceIdx {
        assert Mirror(Mirror(r, nodeId), r.nodeId) == r;
        related.RemoveReference(space, Mirror(r, nodeId));
        OneCallDeep(space.types, g, nodeId, r);
      }
    }
  }

  lemma AddRefused(tb: TypeTable, g: Graph, a: NodeId, r: Reference)
    requires a in g
    ensures var out := ReferenceGraph.AddReference(tb, g, a, r);
      && (Mirrored(tb, g) ==> (out.Done? <==> r !in g[a].own && r !in g[a].back && r.referenceType in tb.types))
      && (r in g[a].own || r in g[a].back ==> out.Thrown? && out.graph == g)
  {
    if Mirrored(tb, g) {
      AddThrows(tb, g, a, r);
    }
  }

  /** A request passed on to the other end is answered there. */
  lemma OneCallDeep(tb: TypeTable, g: Graph, a: NodeId, r: Reference)
    requires a in g && r.nodeId in g && r !in g[a].own && r in g[a].back && !Bounces(g, a, r)
    ensures RemoveWithin(tb, g, r.nodeId, Mirror(r, a), 2) == RemoveWithin(tb, g, a, r, 2)
  {
    assert Mirror(Mirror(r, a), r.nodeId) == r;
  }

  lemma FilterNext(refs: seq<Reference>, i: nat, keep: Reference -> bool)
    requires i < |refs|
    ensures Filter(refs[..i + 1], keep) == Filter(refs[..i], keep) + if keep(refs[i]) then [refs[i]] else []
  {
    assert refs[..i + 1] == refs[..i] + [refs[i]];
    FilterAppend(refs[..i], refs[i], keep);
  }

  method SelectNamespace(space: AddressSpace, refs: seq<Reference>, ns: nat) returns (select: seq<Reference>)
    ensures select == Filter(refs, InNamespace(space.BrowseNames(), ns))
  {
    ghost var keep := InNamespace(space.BrowseNames(), ns);
    select := [];
    for i := 0 to |refs|
      invariant select == Filter(refs[..i], keep)
    {
      FilterNext(refs, i, keep);
      var target := space.FindNode(refs[i].nodeId);
      if target != null {
        if target.browseName.namespaceIndex == ns {
          select := select + [refs[i]];
        }
      }
    }
    assert refs[..|refs|] == refs;
  }

  method AddToIndex(space: AddressSpace, index: NameIndex, r: Reference) returns (index': NameIndex)
    ensures index' == IndexAdd(space.BrowseNames(), index, r)
  {
    var target := space.FindNode(r.nodeId);
    if target == null {
      return index;
    }
    var name := target.browseName.name;
    if name in index {
      match index[name]
      case Many(refs) => index' := index[name := Many(refs + [r])];
      case Single(first) => index' := index[name := Many([first, r])];
    } else {
      index' := index[name := Single(r)];
    }
  }

  method RemoveFromIndex(space: AddressSpace, index: NameIndex, r: Reference) returns (index': NameIndex)
    ensures index' == IndexRemove(space.BrowseNames(), index, r)
  {
    var target := space.FindNode(r.nodeId);
    if target == null {
      return index;
    }
    var name := target.browseName.name;
    if name in index && index[name].Many? {
      var remaining := Without(index[name].refs, r);
      if |remaining| == 0 {
        index' := index - {name};
      } else if |remaining| == 1 {
        index' := index[name := Single(remaining[0])];
      } else {
        index' := index[name := Many(remaining)];
      }
    } else {
      index' := index - {name};
    }
  }

  class AddressSpace {
    const types: TypeTable
    var nodes: map<NodeId, BaseNode>

    constructor (types: TypeTable)
      ensures this.types == types && nodes == map[] && Valid()
    {
      this.types := types;
      nodes := map[];
    }

    ghost predicate Valid()
      reads this
    {
      forall id :: id in nodes ==> nodes[id].nodeId == id
    }

    predicate Contains(node: BaseNode)
      reads this
    {
      node.nodeId in nodes && nodes[node.nodeId] == node
    }

    ghost function Abs(): Graph
      reads this, nodes.Values
    {
      map id | id in nodes :: nodes[id].State()
    }

    ghost function BrowseNames(): map<NodeId, QualifiedName>
      reads this
    {
      map id | id in nodes :: nodes[id].browseName
    }

    function FindNode(id: NodeId): (node: BaseNode?)
      reads this
      ensures node == if id in nodes then nodes[id] else null
    {
      if id in nodes then nodes[id] else null
    }

    /** The space is what the outcome says, and the same error is reported. */
    ghost predicate Is(out: Outcome, error: Option<Error>)
      reads this, nodes.Values
    {
      Abs() == out.graph && error == if out.Thrown? then Some(out.error) else None
    }

    twostate lemma OnlyChanged(node: BaseNode)
      requires Valid() && nodes == old(nodes) && Contains(node)
      requires forall n :: n in nodes.Values && n != node ==> unchanged(n)
      ensures Abs() == old(Abs())[node.nodeId := node.State()]
      ensures Names(Abs()) == BrowseNames() && Names(old(Abs())) == BrowseNames()
    {
      forall id | id in nodes && id != node.nodeId
        ensures nodes[id].State() == old(nodes[id].State())
      {
        assert nodes[id] in nodes.Values && nodes[id] != node;
      }
    }

    twostate lemma NothingChanged()
      requires nodes == old(nodes) && forall n :: n in nodes.Values ==> unchanged(n)
      ensures Abs() == old(Abs())
    {
      forall id | id in nodes
        ensures nodes[id].State() == old(nodes[id].State())
      {
        assert nodes[id] in nodes.Values;
      }
    }

    method Register(node: BaseNode)
      requires Valid() && node.nodeId !in nodes
      modifies this`nodes
      ensures Valid() && nodes == old(nodes)[node.nodeId := node]
      ensures Abs() == old(Abs())[node.nodeId := node.State()]
    {
      nodes := nodes[node.nodeId := node];
    }

    /** Constructor, registration and propagation of one node. */
    method CreateNode(id: NodeId, browseName: QualifiedName, references: seq<Reference>) returns (error: Option<Error>)
      requires Valid() && id !in nodes
      modifies this, nodes.Values
      ensures Valid()
      ensures Is(ReferenceGraph.CreateNode(types, old(Abs()), id, browseName, references), error)
    {
      hide PropagateAll;
      var node := new BaseNode(id, browseName);
      error := node.DeclareAll(this, references);
      NothingChanged();
      if error == None {
        Register(node);
        error := node.PropagateBackReferences(this);
      }
    }
  }

  lemma {:induction false} UnpropagateAllStops(tb: TypeTable, g: Graph, a: NodeId, refs: seq<Reference>, n: nat)
    requires n <= |refs| && UnpropagateAll(tb, g, a, refs[..n]).Thrown?
    ensures UnpropagateAll(tb, g, a, refs) == UnpropagateAll(tb, g, a, refs[..n])
    decreases |refs|
  {
    if n == |refs| {
      assert refs[..n] == refs;
    } else {
      var init := refs[..|refs| - 1];
      assert init[..n] == refs[..n];
      UnpropagateAllStops(tb, g, a, init, n);
    }
  }

  lemma {:induction false} PropagateAllStops(tb: TypeTable, g: Graph, a: NodeId, refs: seq<Reference>, n: nat)
    requires n <= |refs| && PropagateAll(tb, g, a, refs[..n]).Thrown?
    ensures PropagateAll(tb, g, a, refs) == PropagateAll(tb, g, a, refs[..n])
    decreases |refs|
  {
    if n == |refs| {
      assert refs[..n] == refs;
    } else {
      var init := refs[..|refs| - 1];
      assert init[..n] == refs[..n];
      PropagateAllStops(tb, g, a, init, n);
    }
  }
}

/** The reference graph as a value: what each step of base_node_impl.ts and base_node_private.ts
    does to the two reference indexes of a node and to the structures derived from them. */
module ReferenceGraph {
  import opened Common
  import opened References

  /** What the address space knows about reference types; it does not change during a run.
      `massive` are HasTypeDefinition and HasModellingRule, whose references are not mirrored;
      `hierarchical` are HierarchicalReferences and its subtypes, `hasChild` HasChild and its own. */
  datatype TypeTable = TypeTable(types: set<NodeId>, massive: set<NodeId>, hierarchical: set<NodeId>,
    hasChild: set<NodeId>) {
    predicate Valid() {
      // the hash under which a reference is filed stands for the reference
      && Separable(types) && TypeIds(types)
      && massive <= types && hasChild <= hierarchical <= types && massive !! hierarchical
    }

    predicate Mirrored(t: NodeId) {
      t in types && t !in massive
    }
  }

  /** A slot of the name index: one reference, or an array once a second child has the same name. */
  datatype Slot = Single(ref: Reference) | Many(refs: seq<Reference>)

  type NameIndex = map<string, Slot>

  datatype NodeState = NodeState(
    browseName: QualifiedName,
    own: seq<Reference>,
    back: seq<Reference>,
    refCache: map<(NodeId, bool), seq<Reference>>,
    nameIndex: Option<NameIndex>,
    /** What isSubtypeOf has answered on this node, by base type. */
    memo: map<NodeId, bool>)

  type Graph = map<NodeId, NodeState>

  datatype Error = AlreadyInBackReferences | AlreadyInReferences | InvalidReferenceType | SelfReference

  /** A step ends normally or throws; either way it leaves a graph behind. */
  datatype Outcome = Done(graph: Graph) | Thrown(graph: Graph, error: Error)

  function Names(g: Graph): map<NodeId, QualifiedName> {
    map id | id in g :: g[id].browseName
  }

  // ---- the name index -------------------------------------------------------------------------

  function SlotRefs(index: NameIndex, name: string): seq<Reference> {
    if name !in index then []
    else match index[name]
      case Single(r) => [r]
      case Many(rs) => rs
  }

  function IndexAdd(names: map<NodeId, QualifiedName>, index: NameIndex, r: Reference): NameIndex {
    if r.nodeId !in names then index
    else
      var name := names[r.nodeId].name;
      if name !in index then index[name := Single(r)]
      else match index[name]
        case Single(first) => index[name := Many([first, r])]
        case Many(rs) => index[name := Many(rs + [r])]
  }

  /** A slot that holds a single reference is deleted without comparing it with `r`. */
  function IndexRemove(names: map<NodeId, QualifiedName>, index: NameIndex, r: Reference): NameIndex {
    if r.nodeId !in names then index
    else
      var name := names[r.nodeId].name;
      if name !in index then index
      else match index[name]
        case Single(_) => index - {name}
        case Many(rs) =>
          var rest := Without(rs, r);
          if |rest| == 0 then index - {name}
          else if |rest| == 1 then index[name := Single(rest[0])]
          else index[name := Many(rest)]
  }

  function IndexAll(names: map<NodeId, QualifiedName>, refs: seq<Reference>): NameIndex {
    if refs == [] then map[]
    else IndexAdd(names, IndexAll(names, refs[..|refs| - 1]), refs[|refs| - 1])
  }

  predicate Indexable(tb: TypeTable, r: Reference) {
    r.isForward && r.referenceType in tb.hierarchical
  }

  function HandleHierarchical(tb: TypeTable, names: map<NodeId, QualifiedName>, st: NodeState,
      r: Reference): (s: NodeState)
    ensures s.(nameIndex := st.nameIndex) == st
  {
    if st.nameIndex.Some? && Indexable(tb, r)
    then st.(nameIndex := Some(IndexAdd(names, st.nameIndex.value, r)))
    else st
  }

  function RemoveHierarchical(tb: TypeTable, names: map<NodeId, QualifiedName>, st: NodeState,
      r: Reference): (s: NodeState)
    ensures s.(nameIndex := st.nameIndex) == st
  {
    if st.nameIndex.Some? && Indexable(tb, r)
    then st.(nameIndex := Some(IndexRemove(names, st.nameIndex.value, r)))
    else st
  }

  function Filter(refs: seq<Reference>, keep: Reference -> bool): seq<Reference> {
    if refs == [] then []
    else (if keep(refs[0]) then [refs[0]] else []) + Filter(refs[1..], keep)
  }

  /** findReferencesEx("HierarchicalReferences") */
  function FindHierarchical(tb: TypeTable, st: NodeState): seq<Reference> {
    Filter(st.own, (r: Reference) => Indexable(tb, r)) + Filter(st.back, (r: Reference) => Indexable(tb, r))
  }

  function WithNameIndex(tb: TypeTable, names: map<NodeId, QualifiedName>, st: NodeState): NodeState {
    if st.nameIndex.Some? then st
    else st.(nameIndex := Some(IndexAll(names, FindHierarchical(tb, st))))
  }

  // ---- lookups --------------------------------------------------------------------------------

  function Matches(t: NodeId, fwd: bool): Reference -> bool {
    (r: Reference) => r.isForward == fwd && r.referenceType == t
  }

  /** findReferences_no_cache */
  function FindFresh(st: NodeState, t: NodeId, fwd: bool): seq<Reference> {
    Filter(st.own, Matches(t, fwd)) + Filter(st.back, Matches(t, fwd))
  }

  /** findReferences: the answer, and the node with the answer remembered; nothing is found or
      remembered for an id that is no reference type */
  function Find(tb: TypeTable, st: NodeState, t: NodeId, fwd: bool): (NodeState, seq<Reference>) {
    if t !in tb.types then (st, [])
    else if (t, fwd) in st.refCache then (st, st.refCache[(t, fwd)])
    else
      var answer := FindFresh(st, t, fwd);
      (st.(refCache := st.refCache[(t, fwd) := answer]), answer)
  }

  /** _select_by_browse_name, with or without a namespace */
  function Select(names: map<NodeId, QualifiedName>, index: NameIndex, name: string, ns: Option<nat>): seq<Reference> {
    var refs := SlotRefs(index, name);
    if ns.None? then refs else Filter(refs, InNamespace(names, ns.value))
  }

  function InNamespace(names: map<NodeId, QualifiedName>, ns: nat): Reference -> bool {
    (r: Reference) => r.nodeId in names && names[r.nodeId].namespaceIndex == ns
  }

  /** getChildByName: only the first reference selected is looked at; `hasChild` is empty as long as
      HasChild itself is not there */
  function ChildByName(tb: TypeTable, names: map<NodeId, QualifiedName>, st: NodeState, name: string,
      ns: Option<nat>): (NodeState, Option<NodeId>)
  {
    var built := WithNameIndex(tb, names, st);
    (built, FirstChild(tb, Select(names, built.nameIndex.value, name, ns)))
  }

  function FirstChild(tb: TypeTable, select: seq<Reference>): Option<NodeId> {
    if select == [] || select[0].referenceType !in tb.hasChild then None else Some(select[0].nodeId)
  }

  /** getNodeVersion */
  function NodeVersion(tb: TypeTable, g: Graph, a: NodeId): (Graph, Option<NodeId>)
    requires a in g
  {
    var (st, version) := ChildByName(tb, Names(g), g[a], "NodeVersion", Some(0));
    (g[a := st], version)
  }

  // ---- adding ---------------------------------------------------------------------------------

  function ClearCache(st: NodeState): NodeState {
    st.(refCache := map[], memo := map[])
  }

  /** __addReference, once its two assertions have passed */
  function Declare(tb: TypeTable, names: map<NodeId, QualifiedName>, st: NodeState, r: Reference): NodeState {
    ClearCache(HandleHierarchical(tb, names, st.(own := st.own + [r]), r))
  }

  /** BaseNode_add_backward_reference */
  function AddBackward(tb: TypeTable, g: Graph, b: NodeId, m: Reference): Outcome
    requires b in g
  {
    if m in g[b].own then Done(g)
    else if m in g[b].back then Thrown(g, AlreadyInBackReferences)
    else Done(g[b := ClearCache(HandleHierarchical(tb, Names(g), g[b].(back := g[b].back + [m]), m))])
  }

  /** _propagate_ref */
  function Propagate(tb: TypeTable, g: Graph, a: NodeId, r: Reference): Outcome {
    if tb.Mirrored(r.referenceType) && r.nodeId in g
    then AddBackward(tb, g, r.nodeId, Mirror(r, a))
    else Done(g)
  }

  /** addReference up to the event that reports it */
  function Link(tb: TypeTable, g: Graph, a: NodeId, r: Reference): Outcome
    requires a in g
  {
    if r in g[a].back then Thrown(g, AlreadyInBackReferences)
    else if r in g[a].own then Thrown(g, AlreadyInReferences)
    else
      var declared := g[a := Declare(tb, Names(g), g[a], r)];
      if r.referenceType !in tb.types then Thrown(declared, InvalidReferenceType)
      else Propagate(tb, declared, a, r)
  }

  /** _handle_add_reference_change_event: the far end is only asked for its version when the near end
      has none. The asking builds the child indexes. */
  function Announce(tb: TypeTable, g: Graph, a: NodeId, b: NodeId): Graph
    requires a in g
  {
    if b !in g then g
    else
      var (near, version) := NodeVersion(tb, g, a);
      if version.Some? then near else NodeVersion(tb, near, b).0
  }

  function AddReference(tb: TypeTable, g: Graph, a: NodeId, r: Reference): Outcome
    requires a in g
  {
    var linked := Link(tb, g, a, r);
    if linked.Thrown? then linked else Done(Announce(tb, linked.graph, a, r.nodeId))
  }

  // ---- creating a node ------------------------------------------------------------------------

  function PropagateAll(tb: TypeTable, g: Graph, a: NodeId, refs: seq<Reference>): Outcome {
    if refs == [] then Done(g)
    else
      var first := PropagateAll(tb, g, a, refs[..|refs| - 1]);
      if first.Thrown? then first
      else Propagate(tb, first.graph, a, refs[|refs| - 1])
  }

  /** The constructor, _register and propagate_back_references of one node, in one step. */
  function CreateNode(tb: TypeTable, g: Graph, id: NodeId, name: QualifiedName, refs: seq<Reference>): Outcome
    requires id !in g
  {
    if exists i, j :: 0 <= i < j < |refs| && refs[i] == refs[j] then Thrown(g, AlreadyInReferences)
    else PropagateAll(tb, g[id := NodeState(name, refs, [], map[], None, map[])], id, refs)
  }

  // ---- removing -------------------------------------------------------------------------------

  /** BaseNode_remove_backward_reference: the cache of the far end is left as it is. */
  function RemoveBackward(tb: TypeTable, g: Graph, b: NodeId, m: Reference): Graph
    requires b in g
  {
    var st := RemoveHierarchical(tb, Names(g), g[b], m);
    g[b := st.(back := Without(st.back, m))]
  }

  /** removeReference on the node that owns `r` */
  function RemoveOwned(tb: TypeTable, g: Graph, a: NodeId, r: Reference): Graph
    requires a in g && r.nodeId in g
  {
    var g1 := g[a := g[a].(own := Without(g[a].own, r))];
    var g2 := RemoveBackward(tb, g1, r.nodeId, Mirror(r, a));
    g2[a := ClearCache(RemoveHierarchical(tb, Names(g), g2[a], r))]
  }

  /** removeReference as the two ends call each other: None when `depth` calls are not enough. */
  function RemoveWithin(tb: TypeTable, g: Graph, a: NodeId, r: Reference, depth: nat): Option<Graph>
    requires a in g
    decreases depth
  {
    if depth == 0 then None
    else if r.nodeId !in g then Some(g)
    else if r in g[a].own then Some(RemoveOwned(tb, g, a, r))
    else if r in g[a].back then RemoveWithin(tb, g, r.nodeId, Mirror(r, a), depth - 1)
    else Some(g)
  }

  /** removeReference in a graph where a back reference is always the mirror of an owned one */
  function RemoveReference(tb: TypeTable, g: Graph, a: NodeId, r: Reference): Graph
    requires a in g
  {
    if r.nodeId !in g then g
    else if r in g[a].own then RemoveOwned(tb, g, a, r)
    else if r in g[a].back then RemoveOwned(tb, g, r.nodeId, Mirror(r, a))
    else g
  }

  /** unpropagate_back_references: takes the mirrors away, and throws on a reference of the node to
      itself */
  function UnpropagateAll(tb: TypeTable, g: Graph, a: NodeId, refs: seq<Reference>): Outcome {
    if refs == [] then Done(g)
    else
      var first, r := UnpropagateAll(tb, g, a, refs[..|refs| - 1]), refs[|refs| - 1];
      if first.Thrown? || r.nodeId !in first.graph then first
      else if r.nodeId == a then Thrown(first.graph, SelfReference)
      else Done(RemoveBackward(tb, first.graph, r.nodeId, Mirror(r, a)))
  }

  // ---- subtypes -------------------------------------------------------------------------------

  const HAS_SUBTYPE: NodeId := "ns=0;i=45"

  predicate IsSuper(r: Reference) {
    !r.isForward && r.referenceType == HAS_SUBTYPE
  }

  /** The references _slow_isSubtypeOf follows: inverse HasSubtype, declared or mirrored. */
  function Supers(st: NodeState): seq<Reference> {
    Filter(st.own + st.back, IsSuper)
  }

  datatype Walked = Answers(value: bool) | Throws | GoesOn

  /** _slow_isSubtypeOf: it throws on a second supertype and on one that is not registered; GoesOn when
      `depth` recursive calls are not enough. */
  function WalkUp(g: Graph, d: NodeId, b: NodeId, depth: nat): Walked
    requires d in g
    decreases depth
  {
    if d == b then Answers(true)
    else
      var supers := Supers(g[d]);
      if |supers| > 1 then Throws
      else if supers == [] then Answers(false)
      else if supers[0].nodeId !in g then Throws
      else if supers[0].nodeId == b then Answers(true)
      else if depth == 0 then GoesOn
      else WalkUp(g, supers[0].nodeId, b, depth - 1)
  }

  /** isSubtypeOf: a remembered answer, or that of the walk, which is then remembered. A walk that does
      not end leaves the graph as it is, like one that throws. */
  function Ask(g: Graph, d: NodeId, b: NodeId): (Graph, Walked)
    requires d in g
  {
    if b in g[d].memo then (g, Answers(g[d].memo[b]))
    else
      var walked := WalkUp(g, d, b, |g|);
      (if walked.Answers? then g[d := g[d].(memo := g[d].memo[b := walked.value])] else g, walked)
  }
}

/** Looking a child up by its browse name through the index: what the answer says about the live
    references, and when it does not depend on how the index came about. */
module ReferenceGraphChildren {
  import opened Common
  import opened References
  import opened ReferenceGraph
  import opened ReferenceGraphMirroring
  import opened ReferenceGraphDerived
  import opened ReferenceGraphRuns

  /** A live forward hierarchical reference to a registered node of that name. */
  predicate Leads(tb: TypeTable, names: map<NodeId, QualifiedName>, st: NodeState, name: string, ns: Option<nat>,
      r: Reference)
  {
    && r in st.own + st.back && r.isForward && r.referenceType in tb.hierarchical
    && r.nodeId in names && names[r.nodeId].name == name
    && (ns.Some? ==> names[r.nodeId].namespaceIndex == ns.value)
  }

  ghost predicate HasChildNamed(tb: TypeTable, names: map<NodeId, QualifiedName>, st: NodeState, name: string,
      ns: Option<nat>)
  {
    exists r :: Leads(tb, names, st, name, ns, r) && r.referenceType in tb.hasChild
  }

  function Selected(tb: TypeTable, g: Graph, a: NodeId, name: string, ns: Option<nat>): seq<Reference>
    requires a in g
  {
    Select(Names(g), WithNameIndex(tb, Names(g), g[a]).nameIndex.value, name, ns)
  }

  lemma SelectIsLive(tb: TypeTable, g: Graph, a: NodeId, name: string, ns: Option<nat>)
    requires Consistent(tb, g) && a in g
    ensures NoDup(Selected(tb, g, a, name, ns))
    ensures forall r :: r in Selected(tb, g, a, name, ns) <==> Leads(tb, Names(g), g[a], name, ns, r)
  {
    BuildKeepsDerived(tb, g, a);
    var st := WithNameIndex(tb, Names(g), g[a]);
    SameNames(g, a, st);
    assert DerivedOK(tb, Names(g), g[a := st][a]);
    assert SlotHolds(Names(g), st.nameIndex.value, Indexed(tb, st), name);
    if ns.Some? {
      FilterMembers(SlotRefs(st.nameIndex.value, name), InNamespace(Names(g), ns.value));
    }
  }

  /** The answer is always a live child of that name. It is missing although there is one exactly when
      the first reference of several under the name is hierarchical without being a HasChild. */
  lemma ChildByNameFinds(tb: TypeTable, g: Graph, a: NodeId, name: string, ns: Option<nat>)
    requires tb.Valid() && Consistent(tb, g) && a in g
    ensures var (_, child) := ChildByName(tb, Names(g), g[a], name, ns); var select := Selected(tb, g, a, name, ns);
      && (child.Some? ==>
            && select != [] && child.value == select[0].nodeId
            && Leads(tb, Names(g), g[a], name, ns, select[0]) && select[0].referenceType in tb.hasChild)
      && (child.None? && HasChildNamed(tb, Names(g), g[a], name, ns) <==>
            && |select| > 1 && select[0].referenceType !in tb.hasChild
            && exists r :: r in select && r.referenceType in tb.hasChild)
  {
    var select := Selected(tb, g, a, name, ns);
    SelectIsLive(tb, g, a, name, ns);
    if select != [] {
      assert Leads(tb, Names(g), g[a], name, ns, select[0]);
      assert |select| == 1 ==> select == [select[0]];
    }
  }

  /** getNodeVersion answers with a child that is called "NodeVersion" in namespace 0, and does so if there
      is one and no other hierarchical reference leads to that name. */
  lemma VersionFound(tb: TypeTable, g: Graph, a: NodeId, r: Reference)
    requires tb.Valid() && Consistent(tb, g) && a in g
    ensures var version := NodeVersion(tb, g, a).1;
      && (version.Some? ==> version.value in g && g[version.value].browseName == QualifiedName(0, "NodeVersion"))
      && (r in g[a].own + g[a].back && r.isForward && r.referenceType in tb.hasChild
          && r.nodeId in g && g[r.nodeId].browseName == QualifiedName(0, "NodeVersion")
          && (forall q :: Leads(tb, Names(g), g[a], "NodeVersion", Some(0), q) ==> q == r)
          ==> version == Some(r.nodeId))
  {
    var select := Selected(tb, g, a, "NodeVersion", Some(0));
    ChildByNameFinds(tb, g, a, "NodeVersion", Some(0));
    SelectIsLive(tb, g, a, "NodeVersion", Some(0));
    if select != [] {
      assert Leads(tb, Names(g), g[a], "NodeVersion", Some(0), select[0]);
    }
    assert Leads(tb, Names(g), g[a], "NodeVersion", Some(0), r) ==> r in select;
  }

  /** With at most one hierarchical reference under the name the answer does not depend on when the
      index was built. */
  lemma UniqueNameAnySchedule(tb: TypeTable, g: Graph, h: Graph, a: NodeId, name: string, ns: Option<nat>)
    requires Consistent(tb, g) && Consistent(tb, h) && SameIndexes(g, h) && Names(g) == Names(h) && a in g
    requires forall r, q :: Leads(tb, Names(g), g[a], name, ns, r) && Leads(tb, Names(g), g[a], name, ns, q) ==> r == q
    ensures ChildByName(tb, Names(g), g[a], name, ns).1 == ChildByName(tb, Names(h), h[a], name, ns).1
  {
    SelectIsLive(tb, g, a, name, ns);
    SelectIsLive(tb, h, a, name, ns);
    var s, t := Selected(tb, g, a, name, ns), Selected(tb, h, a, name, ns);
    assert forall r :: Leads(tb, Names(g), g[a], name, ns, r) <==> Leads(tb, Names(h), h[a], name, ns, r);
    assert t != [] ==> t[0] in t && t[0] in s;
    if s != [] {
      assert s[0] in s && s[0] in t;
      assert Leads(tb, Names(g), g[a], name, ns, s[0]) && Leads(tb, Names(g), g[a], name, ns, t[0]);
    }
  }

  // ---- with two references under the name it may ----------------------------------------------
  //
  // A data type "B" is created below the folder "A", and then "A" is given the component "C" of the
  // same name. Creating a data type asks no node for its version. So unless "A" was asked for some
  // child before, its index is built by addReference, when a scan lists the declared component first;
  // otherwise the component is appended to the index.

  const ORGANIZES: NodeId := "ns=0;i=35"
  const HAS_COMPONENT: NodeId := "ns=0;i=47"
  const TYPES := TypeTable({ORGANIZES, HAS_COMPONENT}, {}, {ORGANIZES, HAS_COMPONENT}, {HAS_COMPONENT})
  const UP := Reference(false, ORGANIZES, "A")
  const DOWN := Reference(true, ORGANIZES, "B")
  const COMPONENT := Reference(true, HAS_COMPONENT, "C")
  const INSIDE := Reference(false, HAS_COMPONENT, "A")
  const X := QualifiedName(1, "x")

  function Bare(name: string): NodeState {
    NodeState(QualifiedName(1, name), [], [], map[], None, map[])
  }

  function Start(): Graph {
    map["A" := Bare("a"), "C" := Bare("x")]
  }

  function FolderA(own: seq<Reference>, index: Option<NameIndex>): NodeState {
    Bare("a").(own := own, back := [DOWN], nameIndex := index)
  }

  /** The two nodes named "x" next to the folder. */
  function Nodes(a: NodeState, c: NodeState): Graph {
    map["A" := a, "B" := Bare("x").(own := [UP]), "C" := c]
  }

  function IndexOf(refs: seq<Reference>): Option<NameIndex> {
    Some(map["x" := if |refs| == 1 then Single(refs[0]) else Many(refs)])
  }

  function Related(): NodeState {
    Bare("x").(back := [INSIDE])
  }

  function End(refs: seq<Reference>): Graph {
    Nodes(FolderA([COMPONENT], IndexOf(refs)), Related().(nameIndex := Some(map[])))
  }

  lemma StartIsConsistent()
    ensures TYPES.Valid() && Consistent(TYPES, Start())
  {
    assert forall t :: t in TYPES.types ==> |t| == 9 && t[0] == 'n';
    assert forall t, u :: t in TYPES.types && u in TYPES.types ==> |t + "-"| > |u|;
    NothingConsistent(TYPES, Start());
  }

  lemma DataTypeCreated()
    ensures Apply(TYPES, Start(), Create("B", X, [UP])) == Nodes(FolderA([], None), Bare("x"))
  {
    var b := Bare("x").(own := [UP]);
    var g := Start()["B" := b];
    assert [UP][..0] == [];
    DownAdded(g);
    assert PropagateAll(TYPES, g, "B", []) == Done(g);
    assert g["A" := FolderA([], None)] == Nodes(FolderA([], None), Bare("x"));
  }

  lemma DownAdded(g: Graph)
    requires "A" in g && g["A"] == Bare("a")
    ensures Propagate(TYPES, g, "B", UP) == Done(g["A" := FolderA([], None)])
  {
    assert [] + [DOWN] == [DOWN];
  }

  lemma AskedBefore()
    ensures Apply(TYPES, Nodes(FolderA([], None), Bare("x")), LookupChild("A")) ==
      Nodes(FolderA([], IndexOf([DOWN])), Bare("x"))
  {
    var g, a := Nodes(FolderA([], None), Bare("x")), FolderA([], None);
    FindsDown(a);
    IndexesOne(Names(g), DOWN);
    assert g["A" := WithNameIndex(TYPES, Names(g), a)] == Nodes(FolderA([], IndexOf([DOWN])), Bare("x"));
  }

  lemma FindsDown(a: NodeState)
    requires a.own == [] && a.back == [DOWN]
    ensures FindHierarchical(TYPES, a) == [DOWN]
  {
    assert [DOWN][1..] == [];
  }

  lemma IndexesOne(names: map<NodeId, QualifiedName>, r: Reference)
    requires r.nodeId in names && names[r.nodeId].name == "x"
    ensures IndexAll(names, [r]) == map["x" := Single(r)]
  {
    assert [r][..0] == [];
  }

  /** The component is declared in a graph where the folder has this index or none. */
  lemma Linked(index: Option<NameIndex>, index': Option<NameIndex>)
    requires index.None? ==> index'.None?
    requires index.Some? ==> index == IndexOf([DOWN]) && index' == IndexOf([DOWN, COMPONENT])
    ensures Link(TYPES, Nodes(FolderA([], index), Bare("x")), "A", COMPONENT) ==
      Done(Nodes(FolderA([COMPONENT], index'), Related()))
  {
    var g := Nodes(FolderA([], index), Bare("x"));
    assert [] + [COMPONENT] == [COMPONENT] && [] + [INSIDE] == [INSIDE] && [DOWN] + [] == [DOWN];
    if index.Some? {
      assert IndexAdd(Names(g), index.value, COMPONENT) == index'.value;
    }
    var near := FolderA([COMPONENT], index');
    assert Declare(TYPES, Names(g), g["A"], COMPONENT) == near;
    assert AddBackward(TYPES, g["A" := near], "C", INSIDE) == Done(g["A" := near]["C" := Related()]);
    assert g["A" := near]["C" := Related()] == Nodes(near, Related());
  }

  /** Then both ends are asked for their version and have none. */
  lemma Announced(index: Option<NameIndex>, refs: seq<Reference>)
    requires |refs| == 2 && if index.None? then refs == [COMPONENT, DOWN] else index == IndexOf(refs)
    ensures Announce(TYPES, Nodes(FolderA([COMPONENT], index), Related()), "A", "C") == End(refs)
  {
    var a := FolderA([COMPONENT], index);
    var g := Nodes(a, Related());
    if index.None? {
      FindsBoth(TYPES, a, COMPONENT, DOWN);
      IndexesBoth(Names(g), COMPONENT, DOWN);
    }
    var near := Nodes(FolderA([COMPONENT], IndexOf(refs)), Related());
    assert g["A" := FolderA([COMPONENT], IndexOf(refs))] == near;
    assert NodeVersion(TYPES, g, "A") == (near, None);
    assert FindHierarchical(TYPES, Related()) == [] by {
      assert [INSIDE][1..] == [];
    }
    assert near["C" := Related().(nameIndex := Some(map[]))] == End(refs);
  }

  /** The folder was not asked before. */
  lemma IndexedLate()
    ensures Apply(TYPES, Apply(TYPES, Start(), Create("B", X, [UP])), Add("A", COMPONENT)) == End([COMPONENT, DOWN])
  {
    DataTypeCreated();
    Linked(None, None);
    Announced(None, [COMPONENT, DOWN]);
    AddIsLinkAndAnnounce(Nodes(FolderA([], None), Bare("x")), Nodes(FolderA([COMPONENT], None), Related()));
  }

  /** It was. */
  lemma IndexedEarly()
    ensures var asked := Apply(TYPES, Apply(TYPES, Start(), Create("B", X, [UP])), LookupChild("A"));
      Apply(TYPES, asked, Add("A", COMPONENT)) == End([DOWN, COMPONENT])
  {
    DataTypeCreated();
    AskedBefore();
    Linked(IndexOf([DOWN]), IndexOf([DOWN, COMPONENT]));
    Announced(IndexOf([DOWN, COMPONENT]), [DOWN, COMPONENT]);
    AddIsLinkAndAnnounce(Nodes(FolderA([], IndexOf([DOWN])), Bare("x")),
      Nodes(FolderA([COMPONENT], IndexOf([DOWN, COMPONENT])), Related()));
  }

  lemma AddIsLinkAndAnnounce(g: Graph, linked: Graph)
    requires "A" in g && "A" in linked && Link(TYPES, g, "A", COMPONENT) == Done(linked)
    ensures Apply(TYPES, g, Add("A", COMPONENT)) == Announce(TYPES, linked, "A", "C")
  {
  }

  /** Both runs end with the same references, */
  lemma SameReferences(refs: seq<Reference>, refs': seq<Reference>)
    ensures SameIndexes(End(refs), End(refs')) && Names(End(refs)) == Names(End(refs'))
  {
    var c := Related().(nameIndex := Some(map[]));
    var a := FolderA([COMPONENT], IndexOf(refs'));
    assert End(refs)["A" := a] == End(refs');
    SameNames(End(refs), "A", a);
  }

  /** but after the first the component is found, and after the second the same lookup finds nothing. */
  lemma LookupDependsOnHistory(names: map<NodeId, QualifiedName>)
    ensures ChildByName(TYPES, names, FolderA([COMPONENT], IndexOf([COMPONENT, DOWN])), "x", None).1 == Some("C")
    ensures ChildByName(TYPES, names, FolderA([COMPONENT], IndexOf([DOWN, COMPONENT])), "x", None).1 == None
  {
  }

  lemma NothingConsistent(tb: TypeTable, g: Graph)
    requires forall a :: a in g ==>
      g[a].own == [] && g[a].back == [] && g[a].refCache == map[] && g[a].nameIndex == None
    ensures Consistent(tb, g)
  {
    forall a, r
      ensures OwnedIsMirrored(tb, g, a, r) && HeldIsMirror(tb, g, a, r)
    {
    }
  }

  lemma FindsBoth(tb: TypeTable, st: NodeState, r: Reference, m: Reference)
    requires st.own == [r] && st.back == [m] && Indexable(tb, r) && Indexable(tb, m)
    ensures FindHierarchical(tb, st) == [r, m]
  {
    var keep := (q: Reference) => Indexable(tb, q);
    assert [r][1..] == [] && [m][1..] == [];
    assert Filter([r], keep) == [r] + Filter([], keep);
    assert Filter([m], keep) == [m] + Filter([], keep);
  }

  lemma IndexesBoth(names: map<NodeId, QualifiedName>, r: Reference, m: Reference)
    requires r.nodeId in names && m.nodeId in names && names[r.nodeId].name == names[m.nodeId].name == "x"
    ensures IndexAll(names, [r, m]) == map["x" := Many([r, m])]
  {
    assert [r, m][..1] == [r] && [r][..0] == [];
    assert IndexAll(names, [r]) == IndexAdd(names, map[], r);
    assert IndexAll(names, [r, m]) == IndexAdd(names, IndexAll(names, [r]), m);
  }
}

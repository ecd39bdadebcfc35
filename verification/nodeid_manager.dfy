/** Automatic NodeIds of one namespace: a counter, a table of symbolic names, and the check that
    decides whether a name found in the table may be used again. */
module NodeIdAllocation {
  import opened Common

  datatype NodeId = Numeric(namespace: nat, value: nat) | Text(namespace: nat, name: string)

  /** A registered node of the namespace with a numeric id. */
  datatype Occupant = Occupant(browseName: QualifiedName, parent: Option<NodeId>)

  type Occupancy = map<nat, Occupant>

  /** A request without a NodeId, with symbolic names registered. `fullName` is the name composed
      from the ancestors; `preparedName` the browse name without blanks and angle brackets. */
  datatype Request = Request(fullName: string, preparedName: string, browseName: QualifiedName, parent: Option<NodeId>)

  const FIRST_ID: nat := 1000

  datatype Manager = Manager(counter: nat, symbols: map<string, nat>, symbolsRev: set<nat>)

  // ---- one request ----------------------------------------------------------------------------

  /** The taken numbers still ahead of `c`. */
  function Ahead(taken: set<nat>, c: nat): set<nat> {
    set x | x in taken && x >= c
  }

  lemma AheadShrinks(taken: set<nat>, c: nat)
    requires c in taken
    ensures Ahead(taken, c + 1) < Ahead(taken, c)
  {
    assert c in Ahead(taken, c) && c !in Ahead(taken, c + 1);
  }

  /** buildNewNodeId: the first number from `c` on that is not taken. */
  function NextFree(taken: set<nat>, c: nat): (id: nat)
    ensures id >= c && id !in taken && forall x :: c <= x < id ==> x in taken
    decreases Ahead(taken, c)
  {
    if c !in taken then c
    else
      AheadShrinks(taken, c);
      NextFree(taken, c + 1)
  }

  predicate Reusable(nodes: Occupancy, id: nat, r: Request) {
    id in nodes ==> nodes[id].browseName == r.browseName && nodes[id].parent == r.parent
  }

  /** What is found in the table, a plain object; what it inherits has no number, which makeNodeId takes
      for 0. */
  function Cached(m: Manager, fullName: string): Option<nat> {
    if fullName in m.symbols then Some(m.symbols[fullName])
    else if Inherited(fullName) then Some(0)
    else None
  }

  function Record(m: Manager, fullName: string, id: nat): Manager {
    m.(symbols := m.symbols[fullName := id], symbolsRev := m.symbolsRev + {id})
  }

  function Construct(ns: nat, m: Manager, nodes: Occupancy, r: Request): (Manager, NodeId) {
    var cached := Cached(m, r.fullName);
    if cached.Some? && Reusable(nodes, cached.value, r) then
      (m, Numeric(ns, cached.value))
    else if r.parent.Some? && r.parent.value.Text? then
      (m, Text(r.parent.value.namespace, r.parent.value.name + "-" + r.preparedName))
    else
      var id := NextFree(nodes.Keys + m.symbolsRev, m.counter);
      var counted := m.(counter := id + 1);
      (if cached.Some? then counted else Record(counted, r.fullName, id), Numeric(ns, id))
  }

  /** The other branch: a numeric id given by the caller is recorded under its name unless the name
      is found. Nothing looks at the id. */
  function Adopt(m: Manager, fullName: string, id: nat): Manager {
    if Cached(m, fullName).Some? then m else Record(m, fullName, id)
  }

  // ---- runs -----------------------------------------------------------------------------------

  /** Requests without and with an id; between two of them the address space may change in any way. */
  datatype Step = Allocate(request: Request) | Explicit(fullName: string, id: nat) | World(nodes: Occupancy)

  datatype Issue = Issue(fullName: string, id: nat)

  /** `issued` lists the ids handed out automatically. */
  datatype State = State(manager: Manager, nodes: Occupancy, issued: seq<Issue>)

  function Apply(ns: nat, s: State, step: Step): State {
    match step
    case World(nodes) => s.(nodes := nodes)
    case Explicit(fullName, id) => s.(manager := Adopt(s.manager, fullName, id))
    case Allocate(r) =>
      var (m, id) := Construct(ns, s.manager, s.nodes, r);
      State(m, s.nodes, s.issued + if id.Numeric? then [Issue(r.fullName, id.value)] else [])
  }

  function Run(ns: nat, s: State, steps: seq<Step>): State
    decreases |steps|
  {
    if steps == [] then s else Run(ns, Apply(ns, s, steps[0]), steps[1..])
  }

  ghost predicate InjectiveTable(m: Manager) {
    && (forall x, y :: x in m.symbols && y in m.symbols && m.symbols[x] == m.symbols[y] ==> x == y)
    && (forall x :: x in m.symbols ==> m.symbols[x] in m.symbolsRev)
  }

  predicate FromTable(m: Manager, i: Issue) {
    Cached(m, i.fullName) == Some(i.id)
  }

  /** An id handed out for a name whose table entry could not be used; nothing records it, but the
      counter has passed it. */
  predicate Unrecorded(m: Manager, i: Issue) {
    0 < i.id < m.counter && i.id !in m.symbolsRev
  }

  /** No two names were given one id. */
  ghost predicate Distinct(issued: seq<Issue>) {
    forall i, j :: i in issued && j in issued && i.id == j.id ==> i.fullName == j.fullName
  }

  /** Where every id comes from; two names can only share the id 0. */
  ghost predicate Sound(s: State) {
    && InjectiveTable(s.manager) && s.manager.counter > 0
    && (forall i :: i in s.issued ==> FromTable(s.manager, i) || Unrecorded(s.manager, i))
    && (forall i, j :: i in s.issued && j in s.issued && i.id == j.id && i.id != 0 ==> i.fullName == j.fullName)
  }

  /** Nobody has the id, or a node of the same browse name and parent. */
  predicate FreeOrSame(nodes: Occupancy, id: nat, r: Request) {
    || id !in nodes
    || (nodes[id].browseName.name == r.browseName.name
        && nodes[id].browseName.namespaceIndex == r.browseName.namespaceIndex && nodes[id].parent == r.parent)
  }

  /** The request will be answered with the id 0, which another name has been given. */
  ghost predicate ZeroAgain(s: State, r: Request) {
    && Cached(s.manager, r.fullName) == Some(0) && Reusable(s.nodes, 0, r)
    && exists i :: i in s.issued && i.id == 0 && i.fullName != r.fullName
  }

  /** What a request returns: an id that nobody has, or that belongs to a node of the same browse
      name and parent. If no other symbolic name was given it so far, that stays so unless it is the id
      0 again. */
  lemma ConstructSound(ns: nat, s: State, r: Request)
    requires Sound(s)
    ensures Sound(Apply(ns, s, Allocate(r)))
    ensures var id := Construct(ns, s.manager, s.nodes, r).1;
      id.Numeric? ==> id.namespace == ns && FreeOrSame(s.nodes, id.value, r)
    ensures Distinct(s.issued) ==> (Distinct(Apply(ns, s, Allocate(r)).issued) <==> !ZeroAgain(s, r))
  {
    var m := s.manager;
    var (m', id) := Construct(ns, m, s.nodes, r);
    var s' := Apply(ns, s, Allocate(r));
    if id.Numeric? {
      var issue := Issue(r.fullName, id.value);
      assert forall i :: i in s'.issued <==> i in s.issued || i == issue;
      if m' == m {
        assert FromTable(m, issue);
      } else {
        NewNumber(s, issue, m');
      }
    } else {
      assert s'.issued == s.issued;
    }
  }

  /** A number from the counter was never handed out. */
  lemma NewNumber(s: State, issue: Issue, m': Manager)
    requires Sound(s) && issue.id >= s.manager.counter && issue.id !in s.manager.symbolsRev
    requires var counted := s.manager.(counter := issue.id + 1);
      m' == if Cached(s.manager, issue.fullName).Some? then counted else Record(counted, issue.fullName, issue.id)
    ensures forall i :: i in s.issued ==> i.id != issue.id
    ensures forall i :: i in s.issued ==> FromTable(m', i) || Unrecorded(m', i)
    ensures FromTable(m', issue) || Unrecorded(m', issue)
    ensures InjectiveTable(m')
  {
    forall i | i in s.issued
      ensures i.id != issue.id && (FromTable(m', i) || Unrecorded(m', i))
    {
      assert FromTable(s.manager, i) || Unrecorded(s.manager, i);
    }
  }

  /** The explicit id stands for no other name, in the table or among the ids handed out. */
  ghost predicate Clean(s: State, step: Step) {
    step.Explicit? && Cached(s.manager, step.fullName).None? ==>
      && step.id !in s.manager.symbols.Values
      && forall i :: i in s.issued && i.id == step.id ==> i.fullName == step.fullName
  }

  ghost predicate CleanRun(ns: nat, s: State, steps: seq<Step>)
    decreases |steps|
  {
    steps != [] ==> Clean(s, steps[0]) && CleanRun(ns, Apply(ns, s, steps[0]), steps[1..])
  }

  lemma ExplicitSound(ns: nat, s: State, step: Step)
    requires Sound(s) && step.Explicit? && Clean(s, step)
    ensures Sound(Apply(ns, s, step))
  {
    var m, m' := s.manager, Apply(ns, s, step).manager;
    if Cached(m, step.fullName).None? {
      AdoptInjective(m, step.fullName, step.id);
      forall i | i in s.issued
        ensures FromTable(m', i) || Unrecorded(m', i)
      {
        assert FromTable(m, i) || Unrecorded(m, i);
      }
    }
  }

  /** No request of the run is answered with the id 0 after another name was. */
  ghost predicate ZeroOnce(ns: nat, s: State, steps: seq<Step>)
    decreases |steps|
  {
    steps != [] ==>
      && (steps[0].Allocate? ==> !ZeroAgain(s, steps[0].request))
      && ZeroOnce(ns, Apply(ns, s, steps[0]), steps[1..])
  }

  lemma {:induction false} SharedForGood(ns: nat, s: State, steps: seq<Step>)
    requires !Distinct(s.issued)
    ensures !Distinct(Run(ns, s, steps).issued)
    decreases |steps|
  {
    if steps != [] {
      var s' := Apply(ns, s, steps[0]);
      var i, j :| i in s.issued && j in s.issued && i.id == j.id && i.fullName != j.fullName;
      assert i in s'.issued && j in s'.issued;
      SharedForGood(ns, s', steps[1..]);
    }
  }

  lemma {:induction false} RunSound(ns: nat, s: State, steps: seq<Step>)
    requires Sound(s) && CleanRun(ns, s, steps)
    ensures Sound(Run(ns, s, steps))
    ensures Distinct(s.issued) ==> (Distinct(Run(ns, s, steps).issued) <==> ZeroOnce(ns, s, steps))
    decreases |steps|
  {
    if steps != [] {
      var s' := Apply(ns, s, steps[0]);
      match steps[0] {
        case World(nodes) =>
        case Explicit(fullName, id) => ExplicitSound(ns, s, steps[0]);
        case Allocate(r) => ConstructSound(ns, s, r);
      }
      RunSound(ns, s', steps[1..]);
      if !Distinct(s'.issued) {
        SharedForGood(ns, s', steps[1..]);
      }
    }
  }

  /** From any injective table, in any run whose explicit ids, if there are any, are new: the table stays
      injective, the id a further request would get is free or its own, distinct symbolic names share no
      id but 0, and not even that exactly when no request was answered with a second 0. */
  lemma DistinctNamesDistinctIds(ns: nat, m: Manager, nodes: Occupancy, steps: seq<Step>, r: Request)
    requires InjectiveTable(m) && m.counter > 0 && CleanRun(ns, State(m, nodes, []), steps)
    ensures var s := Run(ns, State(m, nodes, []), steps); var id := Construct(ns, s.manager, s.nodes, r).1;
      && InjectiveTable(s.manager)
      && (id.Numeric? ==> FreeOrSame(s.nodes, id.value, r))
      && (forall i, j :: i in s.issued && j in s.issued && i.fullName != j.fullName && i.id == j.id ==> i.id == 0)
      && (Distinct(s.issued) <==> ZeroOnce(ns, State(m, nodes, []), steps))
  {
    RunSound(ns, State(m, nodes, []), steps);
    ConstructSound(ns, Run(ns, State(m, nodes, []), steps), r);
  }

  /** Only names that objects inherit can be given a second 0. */
  lemma {:induction false} OrdinaryNamesZeroOnce(ns: nat, s: State, steps: seq<Step>)
    requires Sound(s) && CleanRun(ns, s, steps) && forall i :: i in s.issued ==> !Inherited(i.fullName)
    requires forall step :: step in steps && step.Allocate? ==> !Inherited(step.request.fullName)
    ensures ZeroOnce(ns, s, steps)
    decreases |steps|
  {
    if steps != [] {
      assert steps[0] in steps && forall step :: step in steps[1..] ==> step in steps;
      match steps[0] {
        case World(nodes) =>
        case Explicit(fullName, id) => ExplicitSound(ns, s, steps[0]);
        case Allocate(r) => ConstructSound(ns, s, r);
      }
      OrdinaryNamesZeroOnce(ns, Apply(ns, s, steps[0]), steps[1..]);
    }
  }

  lemma {:induction false} AutomaticIsClean(ns: nat, s: State, steps: seq<Step>)
    requires forall step :: step in steps ==> !step.Explicit?
    ensures CleanRun(ns, s, steps)
    decreases |steps|
  {
    if steps != [] {
      AutomaticIsClean(ns, Apply(ns, s, steps[0]), steps[1..]);
    }
  }

  /** So in a purely automatic run over ordinary names distinct names never share an id. */
  lemma AutomaticRunDistinct(ns: nat, m: Manager, nodes: Occupancy, steps: seq<Step>)
    requires InjectiveTable(m) && m.counter > 0
    requires forall step :: step in steps ==> !step.Explicit?
    requires forall step :: step in steps && step.Allocate? ==> !Inherited(step.request.fullName)
    ensures Distinct(Run(ns, State(m, nodes, []), steps).issued)
  {
    AutomaticIsClean(ns, State(m, nodes, []), steps);
    OrdinaryNamesZeroOnce(ns, State(m, nodes, []), steps);
    RunSound(ns, State(m, nodes, []), steps);
  }

  /** An object without a parent. */
  function Plain(name: string): Request {
    Request(name, name, QualifiedName(1, name), None)
  }

  /** An object "constructor" is created and deleted, and then "valueOf" is created: both get the id 0. */
  lemma InheritedNamesShareZero()
    ensures var created := map[0 := Occupant(QualifiedName(1, "constructor"), None)];
      var steps := [Allocate(Plain("constructor")), World(created), World(map[]), Allocate(Plain("valueOf"))];
      Run(1, State(Manager(FIRST_ID, map[], {}), map[], []), steps).issued ==
        [Issue("constructor", 0), Issue("valueOf", 0)]
  {
    var created := map[0 := Occupant(QualifiedName(1, "constructor"), None)];
    var r1, r2 := Plain("constructor"), Plain("valueOf");
    var m := Manager(FIRST_ID, map[], {});
    assert Construct(1, m, map[], r1) == (m, Numeric(1, 0));
    assert Construct(1, m, map[], r2) == (m, Numeric(1, 0));
    var s1 := State(m, map[], [Issue("constructor", 0)]);
    assert [] + [Issue("constructor", 0)] == [Issue("constructor", 0)];
    assert Apply(1, State(m, map[], []), Allocate(r1)) == s1;
    var rest := [World(created), World(map[]), Allocate(r2)];
    assert [Allocate(r1), World(created), World(map[]), Allocate(r2)][1..] == rest;
    assert rest[1..] == [World(map[]), Allocate(r2)] && rest[1..][1..] == [Allocate(r2)] && [Allocate(r2)][1..] == [];
    assert Run(1, s1, rest) == Run(1, s1.(nodes := created), rest[1..]) == Run(1, s1, [Allocate(r2)]);
    assert Run(1, s1, [Allocate(r2)]) == Run(1, Apply(1, s1, Allocate(r2)), []);
  }

  // ---- which id -----------------------------------------------------------------------------------

  /** The table has an id for the name, and it can be given. */
  predicate Remembered(m: Manager, nodes: Occupancy, r: Request) {
    && (r.fullName in m.symbols || Inherited(r.fullName))
    && FreeOrSame(nodes, if r.fullName in m.symbols then m.symbols[r.fullName] else 0, r)
  }

  /** A child of a node with a textual id gets one itself unless the table has an id for it: in the
      namespace of the parent, a proper extension of its text, and recorded nowhere. */
  lemma TextId(ns: nat, m: Manager, nodes: Occupancy, r: Request)
    ensures var (m', id) := Construct(ns, m, nodes, r);
      && (id.Text? <==> !Remembered(m, nodes, r) && r.parent.Some? && r.parent.value.Text?)
      && (id.Text? ==> m' == m && id.namespace == r.parent.value.namespace && r.parent.value.name < id.name)
  {
  }

  /** Under one parent two textual ids are equal exactly when the prepared names are. */
  lemma TextIdsDistinct(ns: nat, m1: Manager, nodes1: Occupancy, r1: Request, m2: Manager, nodes2: Occupancy,
      r2: Request)
    requires r1.parent == r2.parent
    requires Construct(ns, m1, nodes1, r1).1.Text? && Construct(ns, m2, nodes2, r2).1.Text?
    ensures Construct(ns, m1, nodes1, r1).1 == Construct(ns, m2, nodes2, r2).1 <==> r1.preparedName == r2.preparedName
  {
    var start := r1.parent.value.name + "-";
    assert (start + r1.preparedName)[|start|..] == r1.preparedName;
    assert (start + r2.preparedName)[|start|..] == r2.preparedName;
  }

  function Below(parent: string, name: string): Request {
    Request(name, name, QualifiedName(1, name), Some(Text(1, parent)))
  }

  /** Under different parents they can be equal although the names are not. */
  lemma TextIdsMeet()
    ensures var m := Manager(FIRST_ID, map[], {});
      && Construct(1, m, map[], Below("abcdef", "Component1")).1 == Text(1, "abcdef-Component1")
      && Construct(1, m, map[], Below("a", "b-c")).1 == Text(1, "a-b-c") == Construct(1, m, map[], Below("a-b", "c")).1
  {
    assert "abcdef" + "-" + "Component1" == "abcdef-Component1";
    assert "a" + "-" + "b-c" == "a-b-c" == "a-b" + "-" + "c";
  }

  /** A number that the table gives, or that is recorded, is given again for the same name as long as nobody
      else has it. */
  lemma SameNameSameId(ns: nat, m: Manager, nodes: Occupancy, nodes': Occupancy, r: Request)
    requires Construct(ns, m, nodes, r).1.Numeric?
    requires Remembered(m, nodes, r) || (r.fullName !in m.symbols && !Inherited(r.fullName))
    requires FreeOrSame(nodes', Construct(ns, m, nodes, r).1.value, r)
    ensures var (m', id) := Construct(ns, m, nodes, r); Construct(ns, m', nodes', r) == (m', id)
  {
  }

  /** A new number is the first one from the counter on that neither a node nor a name has. It is
      recorded only if the table has nothing for the name, so that otherwise the next request gets another. */
  lemma NewNumberGiven(ns: nat, m: Manager, nodes: Occupancy, r: Request)
    requires !Remembered(m, nodes, r) && (r.parent.Some? ==> r.parent.value.Numeric?)
    ensures var (m', id) := Construct(ns, m, nodes, r);
      && id.Numeric? && id.value >= m.counter && id.value !in nodes && id.value !in m.symbolsRev
      && (forall x :: m.counter <= x < id.value ==> x in nodes || x in m.symbolsRev)
      && m'.counter == id.value + 1
      && (r.fullName in m.symbols || Inherited(r.fullName) ==> m'.symbols == m.symbols && m'.symbolsRev == m.symbolsRev)
      && (r.fullName !in m.symbols && !Inherited(r.fullName) ==>
            m'.symbols == m.symbols[r.fullName := id.value] && m'.symbolsRev == m.symbolsRev + {id.value})
  {
    var taken := nodes.Keys + m.symbolsRev;
    forall x | m.counter <= x < NextFree(taken, m.counter)
      ensures x in nodes || x in m.symbolsRev
    {
      assert x in taken;
    }
  }

  // ---- when the table is injective --------------------------------------------------------------

  /** The name is found, or the id stands for no name yet. */
  predicate NewId(m: Manager, fullName: string, id: nat) {
    Cached(m, fullName).Some? || id !in m.symbols.Values
  }

  lemma RecordInjective(m: Manager, fullName: string, id: nat)
    requires InjectiveTable(m) && fullName !in m.symbols
    ensures InjectiveTable(Record(m, fullName, id)) <==> id !in m.symbols.Values
  {
    var m' := Record(m, fullName, id);
    if id in m.symbols.Values {
      var x :| x in m.symbols && m.symbols[x] == id;
      assert x in m'.symbols && m'.symbols[x] == m'.symbols[fullName];
    }
  }

  lemma AdoptInjective(m: Manager, fullName: string, id: nat)
    requires InjectiveTable(m)
    ensures InjectiveTable(Adopt(m, fullName, id)) <==> NewId(m, fullName, id)
  {
    if Cached(m, fullName).None? {
      RecordInjective(m, fullName, id);
    }
  }

  lemma ConstructInjective(ns: nat, m: Manager, nodes: Occupancy, r: Request)
    requires InjectiveTable(m)
    ensures InjectiveTable(Construct(ns, m, nodes, r).0)
  {
    var id := NextFree(nodes.Keys + m.symbolsRev, m.counter);
    assert id !in m.symbols.Values;
  }

  ghost predicate AlwaysInjective(ns: nat, s: State, steps: seq<Step>)
    decreases |steps|
  {
    InjectiveTable(s.manager) && (steps != [] ==> AlwaysInjective(ns, Apply(ns, s, steps[0]), steps[1..]))
  }

  ghost predicate NewIds(ns: nat, s: State, steps: seq<Step>)
    decreases |steps|
  {
    steps != [] ==>
      && (steps[0].Explicit? ==> NewId(s.manager, steps[0].fullName, steps[0].id))
      && NewIds(ns, Apply(ns, s, steps[0]), steps[1..])
  }

  /** In any run, explicit ids included: the table is injective in every state exactly when every
      explicit id meets the condition. */
  lemma {:induction false} TableInjectiveIff(ns: nat, s: State, steps: seq<Step>)
    requires InjectiveTable(s.manager)
    ensures AlwaysInjective(ns, s, steps) <==> NewIds(ns, s, steps)
    decreases |steps|
  {
    if steps != [] {
      var s' := Apply(ns, s, steps[0]);
      match steps[0] {
        case World(nodes) =>
        case Explicit(fullName, id) => AdoptInjective(s.manager, fullName, id);
        case Allocate(r) => ConstructInjective(ns, s.manager, s.nodes, r);
      }
      if InjectiveTable(s'.manager) {
        TableInjectiveIff(ns, s', steps[1..]);
      }
    }
  }

  /** Two names are given one id by their callers. */
  lemma TwoNamesOneId()
    ensures var steps := [Explicit("A", 5), Explicit("B", 5)]; var s := State(Manager(FIRST_ID, map[], {}), map[], []);
      Run(1, s, steps).manager.symbols == map["A" := 5, "B" := 5] && !AlwaysInjective(1, s, steps)
  {
    var s := State(Manager(FIRST_ID, map[], {}), map[], []);
    var s1, s2 := Apply(1, s, Explicit("A", 5)), Apply(1, Apply(1, s, Explicit("A", 5)), Explicit("B", 5));
    assert [Explicit("A", 5), Explicit("B", 5)][1..] == [Explicit("B", 5)] && [Explicit("B", 5)][1..] == [];
    assert Run(1, s1, [Explicit("B", 5)]) == Run(1, s2, []);
    assert s2.manager.symbols["A"] == s2.manager.symbols["B"];
    assert !InjectiveTable(s2.manager);
    assert !AlwaysInjective(1, s2, []);
    assert !AlwaysInjective(1, s1, [Explicit("B", 5)]);
  }

  // ---- loading a table ----------------------------------------------------------------------------

  /** setSymbols: later entries override earlier ones and what was there. */
  function WithSymbols(table: map<string, nat>, symbols: seq<(string, nat)>): map<string, nat> {
    if symbols == [] then table
    else WithSymbols(table, symbols[..|symbols| - 1])[symbols[|symbols| - 1].0 := symbols[|symbols| - 1].1]
  }

  function ValuesOf(symbols: seq<(string, nat)>): set<nat> {
    set s | s in symbols :: s.1
  }

  /** A name stands for the last value given to it. */
  lemma {:induction false} LastGiven(table: map<string, nat>, symbols: seq<(string, nat)>, x: string)
    ensures x in WithSymbols(table, symbols) <==> x in table || exists i :: 0 <= i < |symbols| && symbols[i].0 == x
    ensures forall i ::
      0 <= i < |symbols| && symbols[i].0 == x && (forall j :: i < j < |symbols| ==> symbols[j].0 != x) ==>
        WithSymbols(table, symbols)[x] == symbols[i].1
    ensures x in table && (forall i :: 0 <= i < |symbols| ==> symbols[i].0 != x) ==>
      WithSymbols(table, symbols)[x] == table[x]
  {
    if symbols != [] {
      var init := symbols[..|symbols| - 1];
      LastGiven(table, init, x);
      assert forall i :: 0 <= i < |init| ==> init[i] == symbols[i];
    }
  }

  /** Names that are not in the table, each given once. */
  predicate NewNames(m: Manager, symbols: seq<(string, nat)>) {
    && (forall i, j :: 0 <= i < j < |symbols| ==> symbols[i].0 != symbols[j].0)
    && forall i :: 0 <= i < |symbols| ==> symbols[i].0 !in m.symbols
  }

  predicate NewValues(m: Manager, symbols: seq<(string, nat)>) {
    && (forall i, j :: 0 <= i < j < |symbols| ==> symbols[i].1 != symbols[j].1)
    && forall i :: 0 <= i < |symbols| ==> symbols[i].1 !in m.symbols.Values
  }

  function Loaded(m: Manager, symbols: seq<(string, nat)>): Manager {
    m.(symbols := WithSymbols(m.symbols, symbols), symbolsRev := m.symbolsRev + ValuesOf(symbols))
  }

  lemma OneMoreLoaded(m: Manager, symbols: seq<(string, nat)>, x: string, id: nat)
    requires NewNames(m, symbols + [(x, id)])
    ensures x !in Loaded(m, symbols).symbols
    ensures Loaded(m, symbols + [(x, id)]) == Record(Loaded(m, symbols), x, id)
    ensures id in Loaded(m, symbols).symbols.Values <==>
      id in m.symbols.Values || exists i :: 0 <= i < |symbols| && symbols[i].1 == id
  {
    var more := symbols + [(x, id)];
    assert more[..|symbols|] == symbols && more[|symbols|] == (x, id);
    assert forall i :: 0 <= i < |symbols| ==> more[i] == symbols[i];
    LastGiven(m.symbols, symbols, x);
    assert ValuesOf(more) == ValuesOf(symbols) + {id};
    ValuesLoaded(m, symbols, id);
  }

  lemma ValuesLoaded(m: Manager, symbols: seq<(string, nat)>, id: nat)
    requires NewNames(m, symbols)
    ensures id in Loaded(m, symbols).symbols.Values <==>
      id in m.symbols.Values || exists i :: 0 <= i < |symbols| && symbols[i].1 == id
  {
    var table := WithSymbols(m.symbols, symbols);
    if id in table.Values {
      var x :| x in table && table[x] == id;
      LastGiven(m.symbols, symbols, x);
    }
    if id in m.symbols.Values {
      var x :| x in m.symbols && m.symbols[x] == id;
      LastGiven(m.symbols, symbols, x);
      assert x in table && table[x] == id;
    }
    if i :| 0 <= i < |symbols| && symbols[i].1 == id {
      LastGiven(m.symbols, symbols, symbols[i].0);
      assert symbols[i].0 in table && table[symbols[i].0] == id;
    }
  }

  lemma OneMoreNew(m: Manager, symbols: seq<(string, nat)>, x: string, id: nat)
    ensures NewNames(m, symbols + [(x, id)]) ==> NewNames(m, symbols)
    ensures NewValues(m, symbols + [(x, id)]) <==>
      NewValues(m, symbols) && id !in m.symbols.Values && forall i :: 0 <= i < |symbols| ==> symbols[i].1 != id
  {
    var more := symbols + [(x, id)];
    assert forall i :: 0 <= i < |symbols| ==> more[i] == symbols[i];
    assert more[|symbols|] == (x, id);
  }

  /** Loading new names keeps the table injective exactly when their values are new and distinct. */
  lemma {:induction false} SymbolsInjective(m: Manager, symbols: seq<(string, nat)>)
    requires InjectiveTable(m) && NewNames(m, symbols)
    ensures InjectiveTable(Loaded(m, symbols)) <==> NewValues(m, symbols)
  {
    if symbols == [] {
      assert m.symbolsRev + {} == m.symbolsRev;
    } else {
      var init := symbols[..|symbols| - 1];
      var (x, id) := symbols[|symbols| - 1];
      assert symbols == init + [(x, id)];
      OneMoreNew(m, init, x, id);
      SymbolsInjective(m, init);
      LastSymbolInjective(m, init, x, id);
    }
  }

  lemma LastSymbolInjective(m: Manager, symbols: seq<(string, nat)>, x: string, id: nat)
    requires InjectiveTable(m) && NewNames(m, symbols) && NewNames(m, symbols + [(x, id)])
    requires InjectiveTable(Loaded(m, symbols)) <==> NewValues(m, symbols)
    ensures InjectiveTable(Loaded(m, symbols + [(x, id)])) <==> NewValues(m, symbols + [(x, id)])
  {
    OneMoreNew(m, symbols, x, id);
    OneMoreLoaded(m, symbols, x, id);
    if InjectiveTable(Loaded(m, symbols)) {
      RecordInjective(Loaded(m, symbols), x, id);
    } else {
      StillNotInjective(m, symbols, x, id);
    }
  }

  lemma StillNotInjective(m: Manager, symbols: seq<(string, nat)>, x: string, id: nat)
    requires InjectiveTable(m) && NewNames(m, symbols + [(x, id)]) && !InjectiveTable(Loaded(m, symbols))
    ensures !InjectiveTable(Loaded(m, symbols + [(x, id)]))
  {
    var before, after := Loaded(m, symbols), Loaded(m, symbols + [(x, id)]);
    OneMoreLoaded(m, symbols, x, id);
    forall y | y in before.symbols
      ensures before.symbols[y] in before.symbolsRev
    {
      LastGiven(m.symbols, symbols, y);
      RecordedRev(m, symbols, y);
    }
    var y, z :| y in before.symbols && z in before.symbols && before.symbols[y] == before.symbols[z] && y != z;
    assert y in after.symbols && z in after.symbols && after.symbols[y] == after.symbols[z];
  }

  lemma {:induction false} RecordedRev(m: Manager, symbols: seq<(string, nat)>, y: string)
    requires InjectiveTable(m) && y in Loaded(m, symbols).symbols
    ensures Loaded(m, symbols).symbols[y] in Loaded(m, symbols).symbolsRev
  {
    if symbols != [] {
      var init, last := symbols[..|symbols| - 1], symbols[|symbols| - 1];
      assert symbols == init + [last];
      assert last in symbols && forall s :: s in init ==> s in symbols;
      if y != last.0 {
        RecordedRev(m, init, y);
      }
    }
  }

  // ---- the manager object ---------------------------------------------------------------------

  class NodeIdManager {
    const namespaceIndex: nat
    var internalIdCounter: nat
    var cacheSymbolicName: map<string, nat>
    var cacheSymbolicNameRev: set<nat>

    ghost function Abs(): Manager
      reads this
    {
      Manager(internalIdCounter, cacheSymbolicName, cacheSymbolicNameRev)
    }

    constructor (namespaceIndex: nat)
      ensures this.namespaceIndex == namespaceIndex && Abs() == Manager(1000, map[], {})
    {
      this.namespaceIndex := namespaceIndex;
      internalIdCounter, cacheSymbolicName, cacheSymbolicNameRev := FIRST_ID, map[], {};
    }

    method SetSymbols(symbols: seq<(string, nat)>)
      modifies this
      ensures Abs() == Loaded(old(Abs()), symbols)
    {
      ghost var m := Abs();
      for k := 0 to |symbols|
        invariant Abs() == Loaded(m, symbols[..k])
      {
        assert symbols[..k + 1][..k] == symbols[..k] && symbols[..k + 1] == symbols[..k] + [symbols[k]];
        assert ValuesOf(symbols[..k + 1]) == ValuesOf(symbols[..k]) + {symbols[k].1};
        var (name, value) := symbols[k];
        cacheSymbolicName := cacheSymbolicName[name := value];
        cacheSymbolicNameRev := cacheSymbolicNameRev + {value};
      }
      assert symbols[..|symbols|] == symbols;
    }

    /** What reading the table under a name gives: its own entry, or something inherited. */
    method Lookup(fullName: string) returns (cached: Option<nat>)
      ensures cached == Cached(Abs(), fullName)
    {
      if fullName in cacheSymbolicName {
        return Some(cacheSymbolicName[fullName]);
      }
      cached := if Inherited(fullName) then Some(0) else None;
    }

    /** A numeric id given by the caller. */
    method AdoptNodeId(fullName: string, id: nat)
      modifies this
      ensures Abs() == Adopt(old(Abs()), fullName, id)
      ensures fullName in old(cacheSymbolicName) || Inherited(fullName) ==> Abs() == old(Abs())
      ensures fullName !in old(cacheSymbolicName) && !Inherited(fullName) ==>
        && cacheSymbolicName == old(cacheSymbolicName)[fullName := id]
        && cacheSymbolicNameRev == old(cacheSymbolicNameRev) + {id}
    {
      var cached := Lookup(fullName);
      if cached == None {
        cacheSymbolicName := cacheSymbolicName[fullName := id];
        cacheSymbolicNameRev := cacheSymbolicNameRev + {id};
      }
    }

    method BuildNewNodeId(nodes: Occupancy) returns (nodeId: NodeId)
      modifies this`internalIdCounter
      ensures nodeId == Numeric(namespaceIndex, NextFree(nodes.Keys + cacheSymbolicNameRev, old(internalIdCounter)))
      ensures internalIdCounter == nodeId.value + 1
    {
      nodeId := Numeric(namespaceIndex, internalIdCounter);
      internalIdCounter := internalIdCounter + 1;
      ghost var taken := nodes.Keys + cacheSymbolicNameRev;
      while nodeId.value in nodes || nodeId.value in cacheSymbolicNameRev
        invariant internalIdCounter > 0 && nodeId == Numeric(namespaceIndex, internalIdCounter - 1)
        invariant NextFree(taken, internalIdCounter - 1) == NextFree(taken, old(internalIdCounter))
        decreases Ahead(taken, internalIdCounter - 1)
      {
        AheadShrinks(taken, nodeId.value);
        nodeId := Numeric(namespaceIndex, internalIdCounter);
        internalIdCounter := internalIdCounter + 1;
      }
    }

    method ConstructNodeId(nodes: Occupancy, r: Request) returns (nodeId: NodeId)
      modifies this
      ensures (Abs(), nodeId) == Construct(namespaceIndex, old(Abs()), nodes, r)
    {
      var cached := Lookup(r.fullName);
      if cached.Some? {
        var reusable := IsCacheHitReusable(nodes, cached.value, r);
        if reusable {
          return Numeric(namespaceIndex, cached.value);
        }
      }
      if r.parent.Some? && r.parent.value.Text? {
        return Text(r.parent.value.namespace, r.parent.value.name + "-" + r.preparedName);
      }
      nodeId := BuildNewNodeId(nodes);
      if cached == None {
        cacheSymbolicName := cacheSymbolicName[r.fullName := nodeId.value];
        cacheSymbolicNameRev := cacheSymbolicNameRev + {nodeId.value};
      }
    }

    method IsCacheHitReusable(nodes: Occupancy, value: nat, r: Request) returns (reusable: bool)
      ensures reusable <==> Reusable(nodes, value, r)
      ensures reusable <==> FreeOrSame(nodes, value, r)
    {
      if value !in nodes {
        return true;
      }
      var occupant := nodes[value];
      var sameBrowseName :=
        && occupant.browseName.name == r.browseName.name
        && occupant.browseName.namespaceIndex == r.browseName.namespaceIndex;
      var sameParent :=
        if r.parent.Some? then occupant.parent.Some? && occupant.parent.value == r.parent.value
        else occupant.parent.None?;
      reusable := sameBrowseName && sameParent;
    }
  }
}

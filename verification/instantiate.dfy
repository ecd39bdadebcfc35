/** Instantiating a type: the children of the type and of its supertypes are merged, most derived
    type first. The children are leaves here. */
module Instantiation {
  import opened Common

  /** OtherRule stands for the placeholder rules and for anything unknown. */
  datatype ModellingRule = NoRule | Mandatory | Optional | OtherRule

  datatype Child = Child(browseName: QualifiedName, rule: ModellingRule)

  /** The children a type references through Aggregates and through Organizes. */
  datatype Level = Level(aggregates: seq<Child>, organized: seq<Child>)

  /** A child of the instance; `level` is how far above the instantiated type its original is. */
  datatype Clone = Clone(browseName: QualifiedName, isAggregate: bool, level: nat)

  datatype Options = Options(copyAlsoAllOptionals: bool, optionals: set<string>)

  /** The children so far, and the browse names already cloned in this instantiation. */
  datatype State = State(children: seq<Clone>, browseNames: set<QualifiedName>)

  datatype Result<+T> = Ok(value: T) | DuplicationFound

  // ---- one child ------------------------------------------------------------------------------

  /** Names of the aggregates of the instance: what the filter looks at when it is built. */
  function AggregateNames(children: seq<Clone>): seq<string> {
    if children == [] then []
    else (if children[0].isAggregate then [children[0].browseName.name] else []) + AggregateNames(children[1..])
  }

  function Count(names: seq<string>, name: string): nat {
    if names == [] then 0 else (if names[0] == name then 1 else 0) + Count(names[1..], name)
  }

  predicate Qualifies(o: Options, c: Child) {
    c.rule == Mandatory || (c.rule == Optional && (o.copyAlsoAllOptionals || c.browseName.name in o.optionals))
  }

  /** MandatoryChildOrRequestedOptionalFilter.shouldKeep; the filter remembers the aggregates the
      instance had when the level began. */
  function ShouldKeep(o: Options, present: seq<string>, c: Child): Result<bool> {
    var alreadyIn := Count(present, c.browseName.name);
    if alreadyIn > 1 then DuplicationFound
    else if alreadyIn == 1 then Ok(false)
    else Ok(Qualifies(o, c))
  }

  function CloneOne(o: Options, present: seq<string>, level: nat, isAggregate: bool, st: State, c: Child): Result<State>
  {
    if c.rule == NoRule then Ok(st)
    else
      var keep := ShouldKeep(o, present, c);
      if keep.DuplicationFound? then DuplicationFound
      else if !keep.value || c.browseName in st.browseNames then Ok(st)
      else Ok(State(st.children + [Clone(c.browseName, isAggregate, level)], st.browseNames + {c.browseName}))
  }

  /** _clone_collection_new */
  function CloneCollection(o: Options, present: seq<string>, level: nat, isAggregate: bool, st: State,
      cs: seq<Child>): Result<State>
  {
    if cs == [] then Ok(st)
    else
      var before := CloneCollection(o, present, level, isAggregate, st, cs[..|cs| - 1]);
      if before.DuplicationFound? then before
      else CloneOne(o, present, level, isAggregate, before.value, cs[|cs| - 1])
  }

  function CloneLevel(o: Options, level: nat, st: State, l: Level): Result<State> {
    var present := AggregateNames(st.children);
    var first := CloneCollection(o, present, level, true, st, l.aggregates);
    if first.DuplicationFound? then first
    else CloneCollection(o, present, level, false, first.value, l.organized)
  }

  /** `levels` are the instantiated type and its supertypes below the top-most type. */
  function CloneLevels(o: Options, st: State, levels: seq<Level>): Result<State> {
    if levels == [] then Ok(st)
    else
      var before := CloneLevels(o, st, levels[..|levels| - 1]);
      if before.DuplicationFound? then before
      else CloneLevel(o, |levels| - 1, before.value, levels[|levels| - 1])
  }

  function Instantiate(o: Options, children: seq<Clone>, levels: seq<Level>): Result<State> {
    CloneLevels(o, State(children, {}), levels)
  }

  // ---- what holds for every chain of types ----------------------------------------------------

  function BrowseNames(cs: seq<Clone>): seq<QualifiedName> {
    if cs == [] then [] else [cs[0].browseName] + BrowseNames(cs[1..])
  }

  lemma {:induction false} BrowseNamesAppend(a: seq<Clone>, b: seq<Clone>)
    ensures BrowseNames(a + b) == BrowseNames(a) + BrowseNames(b)
  {
    if a == [] {
      assert a + b == b;
    } else {
      assert (a + b)[0] == a[0] && (a + b)[1..] == a[1..] + b;
      BrowseNamesAppend(a[1..], b);
    }
  }

  /** `st` extends `children` by clones with distinct browse names, which it remembers. */
  ghost predicate Extends(children: seq<Clone>, st: State) {
    && children <= st.children
    && NoDup(BrowseNames(st.children[|children|..]))
    && forall q :: q in BrowseNames(st.children[|children|..]) <==> q in st.browseNames
  }

  lemma OneExtends(o: Options, present: seq<string>, level: nat, isAggregate: bool, children: seq<Clone>, st: State,
      c: Child)
    requires Extends(children, st) && CloneOne(o, present, level, isAggregate, st, c).Ok?
    ensures Extends(children, CloneOne(o, present, level, isAggregate, st, c).value)
  {
    var st' := CloneOne(o, present, level, isAggregate, st, c).value;
    if st' != st {
      var added, clone := st.children[|children|..], Clone(c.browseName, isAggregate, level);
      assert st'.children[|children|..] == added + [clone];
      BrowseNamesAppend(added, [clone]);
      assert [clone][1..] == [];
      NoDupAppend(BrowseNames(added), c.browseName);
    }
  }

  lemma {:induction false} CollectionExtends(o: Options, present: seq<string>, level: nat, isAggregate: bool,
      children: seq<Clone>, st: State, cs: seq<Child>)
    requires Extends(children, st) && CloneCollection(o, present, level, isAggregate, st, cs).Ok?
    ensures Extends(children, CloneCollection(o, present, level, isAggregate, st, cs).value)
  {
    if cs != [] {
      CollectionExtends(o, present, level, isAggregate, children, st, cs[..|cs| - 1]);
      OneExtends(o, present, level, isAggregate, children,
        CloneCollection(o, present, level, isAggregate, st, cs[..|cs| - 1]).value, cs[|cs| - 1]);
    }
  }

  /** Whatever the types look like: the children the instance had stay, in place, and no browse name
      is cloned twice. */
  lemma {:induction false} NoBrowseNameTwice(o: Options, children: seq<Clone>, levels: seq<Level>)
    requires Instantiate(o, children, levels).Ok?
    ensures Extends(children, Instantiate(o, children, levels).value)
  {
    if levels == [] {
      assert children[|children|..] == [];
    } else {
      var l, n := levels[|levels| - 1], |levels| - 1;
      NoBrowseNameTwice(o, children, levels[..n]);
      var st := Instantiate(o, children, levels[..n]).value;
      var present := AggregateNames(st.children);
      CollectionExtends(o, present, n, true, children, st, l.aggregates);
      CollectionExtends(o, present, n, false, children,
        CloneCollection(o, present, n, true, st, l.aggregates).value, l.organized);
    }
  }

  // ---- what each level contributes ------------------------------------------------------------

  function All(l: Level): seq<Child> {
    l.aggregates + l.organized
  }

  function Part(l: Level, isAggregate: bool): seq<Child> {
    if isAggregate then l.aggregates else l.organized
  }

  /** No two children of a level that qualify share a name. */
  ghost predicate UniqueInLevel(o: Options, cs: seq<Child>) {
    forall i, j :: 0 <= i < j < |cs| && Qualifies(o, cs[i]) && Qualifies(o, cs[j]) ==>
      cs[i].browseName.name != cs[j].browseName.name
  }

  ghost predicate Unambiguous(o: Options, levels: seq<Level>, i: nat) {
    i < |levels| ==> UniqueInLevel(o, All(levels[i]))
  }

  ghost predicate UniqueNames(o: Options, levels: seq<Level>) {
    forall i :: Unambiguous(o, levels, i)
  }

  /** The instance's own aggregates have distinct names. */
  ghost predicate WellNamed(children: seq<Clone>) {
    NoDup(AggregateNames(children))
  }

  /** The names of the aggregates; an organized child does not count. */
  function Had(children: seq<Clone>): set<string> {
    set n | n in AggregateNames(children)
  }

  /** The qualifying children that neither the filter nor the list of clones holds back, in order. */
  function Selected(o: Options, present: set<string>, seen: set<QualifiedName>, level: nat, isAggregate: bool,
      cs: seq<Child>): seq<Clone>
  {
    if cs == [] then []
    else
      var c := cs[|cs| - 1];
      Selected(o, present, seen, level, isAggregate, cs[..|cs| - 1])
      + if Qualifies(o, c) && c.browseName.name !in present && c.browseName !in seen
        then [Clone(c.browseName, isAggregate, level)] else []
  }

  function Contribution(o: Options, had: set<string>, before: seq<Clone>, level: nat, l: Level): seq<Clone> {
    Selected(o, had + Had(before), Names(before), level, true, l.aggregates)
    + Selected(o, had + Had(before), Names(before), level, false, l.organized)
  }

  /** What the first `n` levels contribute. */
  function Expected(o: Options, had: set<string>, levels: seq<Level>, n: nat): seq<Clone>
    requires n <= |levels|
  {
    if n == 0 then []
    else Expected(o, had, levels, n - 1) + Contribution(o, had, Expected(o, had, levels, n - 1), n - 1, levels[n - 1])
  }

  /** Some qualifying child of `cs` has this browse name. */
  ghost predicate From(o: Options, cs: seq<Child>, q: QualifiedName) {
    exists c :: c in cs && Qualifies(o, c) && c.browseName == q
  }

  lemma {:induction false} SelectedExactly(o: Options, present: set<string>, seen: set<QualifiedName>, level: nat,
      isAggregate: bool, cs: seq<Child>)
    ensures forall x :: x in Selected(o, present, seen, level, isAggregate, cs) <==>
      && x == Clone(x.browseName, isAggregate, level) && From(o, cs, x.browseName)
      && x.browseName.name !in present && x.browseName !in seen
  {
    if cs != [] {
      var init, c := cs[..|cs| - 1], cs[|cs| - 1];
      SelectedExactly(o, present, seen, level, isAggregate, init);
      assert forall d :: d in cs <==> d in init || d == c;
      assert forall q :: From(o, cs, q) <==> From(o, init, q) || (Qualifies(o, c) && c.browseName == q);
    }
  }

  function Names(cs: seq<Clone>): set<QualifiedName> {
    set x | x in cs :: x.browseName
  }

  lemma NamesMembers(cs: seq<Clone>, q: QualifiedName)
    ensures q in Names(cs) <==> exists x :: x in cs && x.browseName == q
  {
  }

  lemma NamesUnion(a: seq<Clone>, b: seq<Clone>)
    ensures Names(a + b) == Names(a) + Names(b)
  {
    assert forall x :: x in a + b <==> x in a || x in b;
  }

  lemma {:induction false} AggregateNamesAppend(a: seq<Clone>, b: seq<Clone>)
    ensures AggregateNames(a + b) == AggregateNames(a) + AggregateNames(b)
  {
    if a == [] {
      assert a + b == b;
    } else {
      assert (a + b)[0] == a[0] && (a + b)[1..] == a[1..] + b;
      AggregateNamesAppend(a[1..], b);
      AppendAssoc(if a[0].isAggregate then [a[0].browseName.name] else [], AggregateNames(a[1..]), AggregateNames(b));
    }
  }

  lemma {:induction false} AggregateNamesMembers(cs: seq<Clone>, name: string)
    ensures name in AggregateNames(cs) <==> exists x :: x in cs && x.isAggregate && x.browseName.name == name
  {
    if cs != [] {
      AggregateNamesMembers(cs[1..], name);
      assert forall x :: x in cs <==> x == cs[0] || x in cs[1..];
    }
  }

  lemma {:induction false} CountAbsent(names: seq<string>, name: string)
    ensures Count(names, name) > 0 <==> name in names
    ensures NoDup(names) ==> Count(names, name) <= 1
  {
    if names != [] {
      CountAbsent(names[1..], name);
      assert names == [names[0]] + names[1..];
      assert NoDup(names) ==> names[0] !in names[1..] && NoDup(names[1..]);
    }
  }

  /** What the filter and the list of clones hold back, as sets. */
  ghost predicate HoldsBack(o: Options, names: seq<string>, browseNames: set<QualifiedName>, present: set<string>,
      seen: set<QualifiedName>, c: Child)
  {
    Qualifies(o, c) ==>
      && (c.browseName.name in names <==> c.browseName.name in present)
      && (c.browseName in browseNames <==> c.browseName in seen)
  }

  lemma {:induction false} CollectionSelects(o: Options, names: seq<string>, level: nat, isAggregate: bool, st: State,
      cs: seq<Child>,
                                             present: set<string>, seen: set<QualifiedName>)
    requires NoDup(names) && UniqueInLevel(o, cs)
    requires forall c :: c in cs ==> HoldsBack(o, names, st.browseNames, present, seen, c)
    ensures var added := Selected(o, present, seen, level, isAggregate, cs);
      CloneCollection(o, names, level, isAggregate, st, cs) ==
        Ok(State(st.children + added, st.browseNames + Names(added)))
  {
    if cs == [] {
      assert st.children + [] == st.children;
      assert Names([]) == {} && st.browseNames + {} == st.browseNames;
    } else {
      var init, c := cs[..|cs| - 1], cs[|cs| - 1];
      assert cs == init + [c];
      CollectionSelects(o, names, level, isAggregate, st, init, present, seen);
      var added := Selected(o, present, seen, level, isAggregate, init);
      LastIsNew(o, present, seen, level, isAggregate, cs);
      assert c in cs && HoldsBack(o, names, st.browseNames, present, seen, c);
      OneSelects(o, names, level, isAggregate, st, added, c, present, seen);
    }
  }

  lemma LastIsNew(o: Options, present: set<string>, seen: set<QualifiedName>, level: nat, isAggregate: bool,
      cs: seq<Child>)
    requires cs != [] && UniqueInLevel(o, cs)
    ensures var c := cs[|cs| - 1];
      Qualifies(o, c) ==> c.browseName !in Names(Selected(o, present, seen, level, isAggregate, cs[..|cs| - 1]))
  {
    var init, c := cs[..|cs| - 1], cs[|cs| - 1];
    SelectedExactly(o, present, seen, level, isAggregate, init);
    if Qualifies(o, c) {
      if d :| d in init && Qualifies(o, d) && d.browseName == c.browseName {
        EarlierDiffers(o, cs, d);
      }
      assert !From(o, init, c.browseName);
    }
  }

  lemma EarlierDiffers(o: Options, cs: seq<Child>, d: Child)
    requires cs != [] && UniqueInLevel(o, cs) && d in cs[..|cs| - 1]
    ensures Qualifies(o, d) && Qualifies(o, cs[|cs| - 1]) ==> d.browseName != cs[|cs| - 1].browseName
  {
    var i :| 0 <= i < |cs| - 1 && cs[i] == d;
  }

  lemma OneSelects(o: Options, names: seq<string>, level: nat, isAggregate: bool, st: State, added: seq<Clone>,
      c: Child,
                   present: set<string>, seen: set<QualifiedName>)
    requires NoDup(names) && HoldsBack(o, names, st.browseNames, present, seen, c)
    requires Qualifies(o, c) ==> c.browseName !in Names(added)
    ensures var more := added
        + if Qualifies(o, c) && c.browseName.name !in present && c.browseName !in seen
          then [Clone(c.browseName, isAggregate, level)] else [];
      CloneOne(o, names, level, isAggregate, State(st.children + added, st.browseNames + Names(added)), c)
        == Ok(State(st.children + more, st.browseNames + Names(more)))
  {
    CountAbsent(names, c.browseName.name);
    var clone := Clone(c.browseName, isAggregate, level);
    AppendAssoc(st.children, added, [clone]);
    NamesUnion(added, [clone]);
    assert Names([clone]) == {c.browseName};
    assert (st.browseNames + Names(added)) + {c.browseName} == st.browseNames + (Names(added) + {c.browseName});
    assert added + [] == added;
  }

  lemma CloneLevelsStep(o: Options, st: State, levels: seq<Level>, n: nat)
    requires n < |levels| && CloneLevels(o, st, levels[..n]).Ok?
    ensures CloneLevels(o, st, levels[..n + 1]) == CloneLevel(o, n, CloneLevels(o, st, levels[..n]).value, levels[n])
  {
    assert levels[..n + 1][..n] == levels[..n];
  }

  /** After `n` levels the instance has gained what they are expected to contribute. */
  ghost predicate Reached(o: Options, children: seq<Clone>, levels: seq<Level>, n: nat)
    requires n <= |levels|
  {
    var added := Expected(o, Had(children), levels, n);
    && Instantiate(o, children, levels[..n]) == Ok(State(children + added, Names(added)))
    && NoDup(AggregateNames(children + added))
  }

  /** With distinct aggregate names on the instance and unique names per level instantiation never finds
      a duplicate. */
  lemma InstantiatesExpected(o: Options, children: seq<Clone>, levels: seq<Level>)
    requires WellNamed(children) && UniqueNames(o, levels)
    ensures Reached(o, children, levels, |levels|)
  {
    NothingReached(o, children, levels);
    for n := 0 to |levels|
      invariant Reached(o, children, levels, n)
    {
      LevelReached(o, children, levels, n);
    }
  }

  lemma NothingReached(o: Options, children: seq<Clone>, levels: seq<Level>)
    requires WellNamed(children)
    ensures Reached(o, children, levels, 0)
  {
    assert children + [] == children && levels[..0] == [];
    assert Expected(o, Had(children), levels, 0) == [] && Names([]) == {};
    assert Instantiate(o, children, []) == Ok(State(children, {}));
  }

  lemma LevelReached(o: Options, children: seq<Clone>, levels: seq<Level>, n: nat)
    requires UniqueNames(o, levels) && n < |levels| && Reached(o, children, levels, n)
    ensures Reached(o, children, levels, n + 1)
  {
    var before := Expected(o, Had(children), levels, n);
    var added := before + Contribution(o, Had(children), before, n, levels[n]);
    assert Expected(o, Had(children), levels, n + 1) == added;
    CloneLevelsStep(o, State(children, {}), levels, n);
    assert Unambiguous(o, levels, n);
    LevelContributes(o, children, before, n, levels[n]);
    assert Instantiate(o, children, levels[..n + 1]) == Ok(State(children + added, Names(added)));
  }

  lemma LevelContributes(o: Options, children: seq<Clone>, before: seq<Clone>, n: nat, l: Level)
    requires UniqueInLevel(o, All(l)) && NoDup(AggregateNames(children + before))
    ensures var added := before + Contribution(o, Had(children), before, n, l);
      && CloneLevel(o, n, State(children + before, Names(before)), l) == Ok(State(children + added, Names(added)))
      && NoDup(AggregateNames(children + added))
  {
    var st, names := State(children + before, Names(before)), AggregateNames(children + before);
    var present, seen := Had(children) + Had(before), Names(before);
    var a, b := Selected(o, present, seen, n, true, l.aggregates), Selected(o, present, seen, n, false, l.organized);
    UniqueParts(o, l);
    AggregateNamesAppend(children, before);
    CollectionSelects(o, names, n, true, st, l.aggregates, present, seen);
    StillHeldBack(o, names, present, seen, n, l);
    CollectionSelects(o, names, n, false, State(st.children + a, seen + Names(a)), l.organized, present, seen);
    AppendAssoc(children + before, a, b);
    AppendAssoc(children, before, a + b);
    NamesUnion(a, b);
    NamesUnion(before, a + b);
    assert (seen + Names(a)) + Names(b) == seen + (Names(a) + Names(b));
    NewAggregatesDistinct(o, children, before, n, l, a, b);
  }

  /** The aggregates of a level hold none of its organized children back. */
  lemma StillHeldBack(o: Options, names: seq<string>, present: set<string>, seen: set<QualifiedName>, level: nat,
      l: Level)
    requires UniqueInLevel(o, All(l)) && forall n :: n in names <==> n in present
    ensures forall c :: c in l.organized ==>
      HoldsBack(o, names, seen + Names(Selected(o, present, seen, level, true, l.aggregates)), present, seen, c)
  {
    var a := Selected(o, present, seen, level, true, l.aggregates);
    SelectedExactly(o, present, seen, level, true, l.aggregates);
    forall c | c in l.organized && Qualifies(o, c)
      ensures c.browseName !in Names(a)
    {
      if From(o, l.aggregates, c.browseName) {
        var d :| d in l.aggregates && Qualifies(o, d) && d.browseName == c.browseName;
        DistinctParts(o, l, d, c);
        assert false;
      }
    }
  }

  lemma DistinctParts(o: Options, l: Level, c: Child, d: Child)
    requires UniqueInLevel(o, All(l)) && c in l.aggregates && d in l.organized && Qualifies(o, c) && Qualifies(o, d)
    ensures c.browseName.name != d.browseName.name
  {
    var i :| 0 <= i < |l.aggregates| && l.aggregates[i] == c;
    var j :| 0 <= j < |l.organized| && l.organized[j] == d;
    assert All(l)[i] == c && All(l)[|l.aggregates| + j] == d;
  }

  lemma UniqueParts(o: Options, l: Level)
    requires UniqueInLevel(o, All(l))
    ensures UniqueInLevel(o, l.aggregates) && UniqueInLevel(o, l.organized)
  {
    var k := |l.aggregates|;
    assert forall i :: 0 <= i < k ==> All(l)[i] == l.aggregates[i];
    forall i, j | 0 <= i < j < |l.organized| && Qualifies(o, l.organized[i]) && Qualifies(o, l.organized[j])
      ensures l.organized[i].browseName.name != l.organized[j].browseName.name
    {
      assert All(l)[k + i] == l.organized[i] && All(l)[k + j] == l.organized[j];
    }
  }

  lemma NewAggregatesDistinct(o: Options, children: seq<Clone>, before: seq<Clone>, n: nat, l: Level, a: seq<Clone>,
      b: seq<Clone>)
    requires UniqueInLevel(o, l.aggregates) && NoDup(AggregateNames(children + before))
    requires a == Selected(o, Had(children) + Had(before), Names(before), n, true, l.aggregates)
    requires b == Selected(o, Had(children) + Had(before), Names(before), n, false, l.organized)
    ensures NoDup(AggregateNames(children + (before + (a + b))))
  {
    AppendAssoc(children, before, a + b);
    AppendAssoc(children + before, a, b);
    AggregateNamesAppend(children + before, a);
    AggregateNamesAppend(children + before + a, b);
    AggregateNamesAppend(children, before);
    SelectedDistinct(o, Had(children) + Had(before), Names(before), n, l.aggregates);
    SelectedOrganized(o, Had(children) + Had(before), Names(before), n, l.organized);
    NoDupConcat(AggregateNames(children + before), AggregateNames(a));
    assert AggregateNames(children + before + a) + [] == AggregateNames(children + before + a);
  }

  lemma {:induction false} SelectedOrganized(o: Options, present: set<string>, seen: set<QualifiedName>, level: nat,
      cs: seq<Child>)
    ensures AggregateNames(Selected(o, present, seen, level, false, cs)) == []
  {
    if cs != [] {
      var init, c := cs[..|cs| - 1], cs[|cs| - 1];
      SelectedOrganized(o, present, seen, level, init);
      var before, clone := Selected(o, present, seen, level, false, init), Clone(c.browseName, false, level);
      AggregateNamesAppend(before, [clone]);
      assert [clone][1..] == [];
      assert before + [] == before;
    }
  }

  lemma {:induction false} SelectedDistinct(o: Options, present: set<string>, seen: set<QualifiedName>, level: nat,
      cs: seq<Child>)
    requires UniqueInLevel(o, cs)
    ensures NoDup(AggregateNames(Selected(o, present, seen, level, true, cs)))
    ensures forall n :: n in AggregateNames(Selected(o, present, seen, level, true, cs)) ==> n !in present
  {
    if cs != [] {
      var init, c := cs[..|cs| - 1], cs[|cs| - 1];
      SelectedDistinct(o, present, seen, level, init);
      var before, clone := Selected(o, present, seen, level, true, init), Clone(c.browseName, true, level);
      AggregateNamesAppend(before, [clone]);
      assert [clone][1..] == [];
      assert AggregateNames([clone]) == [c.browseName.name];
      assert before + [] == before;
      if Qualifies(o, c) {
        NameIsNew(o, present, seen, level, cs);
        NoDupAppend(AggregateNames(before), c.browseName.name);
      }
    }
  }

  lemma NameIsNew(o: Options, present: set<string>, seen: set<QualifiedName>, level: nat, cs: seq<Child>)
    requires cs != [] && UniqueInLevel(o, cs) && Qualifies(o, cs[|cs| - 1])
    ensures cs[|cs| - 1].browseName.name !in AggregateNames(Selected(o, present, seen, level, true, cs[..|cs| - 1]))
  {
    var init, name := cs[..|cs| - 1], cs[|cs| - 1].browseName.name;
    var before := Selected(o, present, seen, level, true, init);
    SelectedExactly(o, present, seen, level, true, init);
    AggregateNamesMembers(before, name);
    forall x | x in before
      ensures x.browseName.name != name
    {
      var d :| d in init && Qualifies(o, d) && d.browseName == x.browseName;
      var i :| 0 <= i < |cs| - 1 && cs[i] == d;
    }
  }

  // ---- which children are cloned ----------------------------------------------------------------

  /** No more derived level has a qualifying child of this browse name. */
  ghost predicate First(o: Options, levels: seq<Level>, i: nat, q: QualifiedName)
    requires i <= |levels|
  {
    forall k :: 0 <= k < i ==> !From(o, All(levels[k]), q)
  }

  /** An aggregate of this name, the first of its browse name, stands at level `j`. */
  ghost predicate ShadowedAt(o: Options, levels: seq<Level>, j: nat, name: string, q: QualifiedName)
    requires j < |levels|
  {
    q.name == name && From(o, levels[j].aggregates, q) && First(o, levels, j, q)
  }

  ghost predicate Shadowed(o: Options, levels: seq<Level>, i: nat, name: string)
    requires i <= |levels|
  {
    exists j: nat, q :: j < i && ShadowedAt(o, levels, j, name, q)
  }

  /** A child is cloned exactly when it qualifies, is the first of its browse name, and neither the
      instance nor a more derived level has an aggregate of its simple name in the way. */
  ghost predicate Cloned(o: Options, had: set<string>, levels: seq<Level>, x: Clone) {
    && x.level < |levels| && From(o, Part(levels[x.level], x.isAggregate), x.browseName)
    && x.browseName.name !in had
    && First(o, levels, x.level, x.browseName) && !Shadowed(o, levels, x.level, x.browseName.name)
  }

  lemma {:induction false} LeastShadow(o: Options, levels: seq<Level>, i: nat, name: string)
    returns (j: nat, q: QualifiedName)
    requires i <= |levels| && Shadowed(o, levels, i, name)
    ensures j < i && ShadowedAt(o, levels, j, name, q) && !Shadowed(o, levels, j, name)
    decreases i
  {
    j, q :| j < i && ShadowedAt(o, levels, j, name, q);
    if Shadowed(o, levels, j, name) {
      j, q := LeastShadow(o, levels, j, name);
    }
  }

  lemma ShadowedLater(o: Options, levels: seq<Level>, k: nat, n: nat, name: string)
    requires k <= n <= |levels|
    ensures Shadowed(o, levels, k, name) ==> Shadowed(o, levels, n, name)
  {
  }

  lemma {:induction false} LeastFrom(o: Options, levels: seq<Level>, i: nat, q: QualifiedName) returns (k: nat)
    requires i <= |levels| && !First(o, levels, i, q)
    ensures k < i && From(o, All(levels[k]), q) && First(o, levels, k, q)
    decreases i
  {
    k :| 0 <= k < i && From(o, All(levels[k]), q);
    if !First(o, levels, k, q) {
      k := LeastFrom(o, levels, k, q);
    }
  }

  lemma FromParts(o: Options, l: Level, q: QualifiedName)
    ensures From(o, All(l), q) <==> From(o, l.aggregates, q) || From(o, l.organized, q)
  {
    assert forall c :: c in All(l) <==> c in l.aggregates || c in l.organized;
  }

  /** The clones of the first `n` levels, when they are as Cloned says. */
  ghost predicate Exactly(o: Options, had: set<string>, levels: seq<Level>, n: nat, added: seq<Clone>) {
    forall x :: x in added <==> x.level < n && Cloned(o, had, levels, x)
  }

  /** Then what holds a child of the next level back is what Cloned says. */
  lemma HeldBackExactly(o: Options, had: set<string>, levels: seq<Level>, n: nat, added: seq<Clone>, q: QualifiedName)
    requires n < |levels| && Exactly(o, had, levels, n, added)
    ensures q.name in had + Had(added) || q in Names(added) <==>
      q.name in had || !First(o, levels, n, q) || Shadowed(o, levels, n, q.name)
  {
    AggregateNamesMembers(added, q.name);
    if x :| x in added && x.isAggregate && x.browseName.name == q.name {
      assert ShadowedAt(o, levels, x.level, q.name, x.browseName);
    }
    if x :| x in added && x.browseName == q {
      FromParts(o, levels[x.level], q);
      assert !First(o, levels, n, q);
    }
    if q.name !in had {
      if Shadowed(o, levels, n, q.name) {
        var j, p := LeastShadow(o, levels, n, q.name);
        assert Clone(p, true, j) in added;
      } else if !First(o, levels, n, q) {
        var k := LeastFrom(o, levels, n, q);
        FromParts(o, levels[k], q);
        ShadowedLater(o, levels, k, n, q.name);
        var x := Clone(q, From(o, levels[k].aggregates, q), k);
        assert x in added;
        NamesMembers(added, q);
      }
    }
  }

  lemma ContributionExactly(o: Options, had: set<string>, levels: seq<Level>, n: nat, before: seq<Clone>)
    requires n < |levels| && Exactly(o, had, levels, n, before)
    ensures forall x :: x in Contribution(o, had, before, n, levels[n]) <==> x.level == n && Cloned(o, had, levels, x)
  {
    SelectedExactly(o, had + Had(before), Names(before), n, true, levels[n].aggregates);
    SelectedExactly(o, had + Had(before), Names(before), n, false, levels[n].organized);
    forall x
      ensures x in Contribution(o, had, before, n, levels[n]) <==> x.level == n && Cloned(o, had, levels, x)
    {
      HeldBackExactly(o, had, levels, n, before, x.browseName);
    }
  }

  lemma NextLevelExactly(o: Options, had: set<string>, levels: seq<Level>, n: nat)
    requires n < |levels| && Exactly(o, had, levels, n, Expected(o, had, levels, n))
    ensures Exactly(o, had, levels, n + 1, Expected(o, had, levels, n + 1))
  {
    var before := Expected(o, had, levels, n);
    ContributionExactly(o, had, levels, n, before);
    OneLevelMore(o, had, levels, n, before, Contribution(o, had, before, n, levels[n]));
  }

  lemma ExpectedExactly(o: Options, had: set<string>, levels: seq<Level>)
    ensures Exactly(o, had, levels, |levels|, Expected(o, had, levels, |levels|))
  {
    for n := 0 to |levels|
      invariant Exactly(o, had, levels, n, Expected(o, had, levels, n))
    {
      NextLevelExactly(o, had, levels, n);
    }
  }

  lemma OneLevelMore(o: Options, had: set<string>, levels: seq<Level>, n: nat, before: seq<Clone>, more: seq<Clone>)
    requires Exactly(o, had, levels, n, before) && forall x :: x in more <==> x.level == n && Cloned(o, had, levels, x)
    ensures Exactly(o, had, levels, n + 1, before + more)
  {
    forall x
      ensures x in before + more <==> x.level < n + 1 && Cloned(o, had, levels, x)
    {
      assert x in before + more <==> x in before || x in more;
    }
  }

  /** The law of instantiation, for every chain with unique names per level: it never throws, the
      children the instance had stay in place, no browse name is cloned twice, and exactly the children
      Cloned describes are cloned. */
  lemma ClonesExactly(o: Options, children: seq<Clone>, levels: seq<Level>)
    requires WellNamed(children) && UniqueNames(o, levels)
    ensures Instantiate(o, children, levels).Ok?
    ensures var st := Instantiate(o, children, levels).value;
      && children <= st.children && NoDup(BrowseNames(st.children[|children|..]))
      && Exactly(o, Had(children), levels, |levels|, st.children[|children|..])
  {
    var added := Expected(o, Had(children), levels, |levels|);
    assert levels[..|levels|] == levels;
    InstantiatesExpected(o, children, levels);
    NoBrowseNameTwice(o, children, levels);
    assert (children + added)[|children|..] == added;
    ExpectedExactly(o, Had(children), levels);
  }

  /** Two instances that have gained the same clones. */
  ghost predicate InParallel(children: seq<Clone>, others: seq<Clone>, out: Result<State>, out': Result<State>) {
    && (out.Ok? <==> out'.Ok?)
    && (out.Ok? ==>
          && children <= out.value.children && others <= out'.value.children
          && out.value.children[|children|..] == out'.value.children[|others|..]
          && out.value.browseNames == out'.value.browseNames)
  }

  lemma {:induction false} CollectionInParallel(o: Options, present: seq<string>, level: nat, isAggregate: bool,
      children: seq<Clone>, others: seq<Clone>, st: State, st': State, cs: seq<Child>)
    requires InParallel(children, others, Ok(st), Ok(st'))
    ensures InParallel(children, others, CloneCollection(o, present, level, isAggregate, st, cs),
                       CloneCollection(o, present, level, isAggregate, st', cs))
  {
    if cs != [] {
      CollectionInParallel(o, present, level, isAggregate, children, others, st, st', cs[..|cs| - 1]);
    }
  }

  lemma SameAggregates(children: seq<Clone>, others: seq<Clone>, st: State, st': State)
    requires InParallel(children, others, Ok(st), Ok(st')) && AggregateNames(children) == AggregateNames(others)
    ensures AggregateNames(st.children) == AggregateNames(st'.children)
  {
    var added := st.children[|children|..];
    assert st.children == children + added && st'.children == others + added;
    AggregateNamesAppend(children, added);
    AggregateNamesAppend(others, added);
  }

  lemma {:induction false} LevelsInParallel(o: Options, children: seq<Clone>, others: seq<Clone>, levels: seq<Level>)
    requires AggregateNames(children) == AggregateNames(others)
    ensures InParallel(children, others, Instantiate(o, children, levels), Instantiate(o, others, levels))
  {
    if levels != [] {
      var init, n, l := levels[..|levels| - 1], |levels| - 1, levels[|levels| - 1];
      LevelsInParallel(o, children, others, init);
      if Instantiate(o, children, init).Ok? {
        var st, st' := Instantiate(o, children, init).value, Instantiate(o, others, init).value;
        SameAggregates(children, others, st, st');
        var present := AggregateNames(st.children);
        CollectionInParallel(o, present, n, true, children, others, st, st', l.aggregates);
        var first := CloneCollection(o, present, n, true, st, l.aggregates);
        var first' := CloneCollection(o, present, n, true, st', l.aggregates);
        if first.Ok? {
          CollectionInParallel(o, present, n, false, children, others, first.value, first'.value, l.organized);
        }
      }
    }
  }

  /** What the instance organizes has no influence on what is added, nor on whether it throws. */
  lemma OnlyAggregatesCount(o: Options, children: seq<Clone>, others: seq<Clone>, levels: seq<Level>)
    requires AggregateNames(children) == AggregateNames(others)
    ensures Instantiate(o, children, levels).Ok? <==> Instantiate(o, others, levels).Ok?
    ensures Instantiate(o, children, levels).Ok? ==>
      Instantiate(o, children, levels).value.children == children + Added(o, others, levels)
  {
    LevelsInParallel(o, children, others, levels);
  }

  function Added(o: Options, children: seq<Clone>, levels: seq<Level>): seq<Clone> {
    var out := Instantiate(o, children, levels);
    if out.Ok? && |children| <= |out.value.children| then out.value.children[|children|..] else []
  }

  // ---- when every name is added once ------------------------------------------------------------

  /** Some qualifying child of the level has this name. */
  ghost predicate NameQualifies(o: Options, l: Level, name: string) {
    exists c :: c in All(l) && Qualifies(o, c) && c.browseName.name == name
  }

  /** The most derived level at which the name qualifies. */
  ghost predicate MostDerived(o: Options, levels: seq<Level>, i: nat, name: string)
    requires i < |levels|
  {
    NameQualifies(o, levels[i], name) && forall k :: 0 <= k < i ==> !NameQualifies(o, levels[k], name)
  }

  /** At its most derived level the name is an organized child of browse name `q`, and a less derived
      level has a qualifying child of the same name in another namespace. */
  ghost predicate Rivals(o: Options, had: set<string>, levels: seq<Level>, i: nat, q: QualifiedName, j: nat,
      q': QualifiedName)
  {
    && i < j < |levels| && q.name !in had && MostDerived(o, levels, i, q.name) && From(o, levels[i].organized, q)
    && From(o, All(levels[j]), q') && q'.name == q.name && q' != q
  }

  ghost predicate NoRivals(o: Options, had: set<string>, levels: seq<Level>) {
    forall i, q, j, q' :: !Rivals(o, had, levels, i, q, j, q')
  }

  ghost predicate DistinctNames(cs: seq<Clone>) {
    forall i, j :: 0 <= i < j < |cs| ==> cs[i].browseName.name != cs[j].browseName.name
  }

  lemma {:induction false} FindMostDerived(o: Options, levels: seq<Level>, j: nat, name: string) returns (i: nat)
    requires j < |levels| && NameQualifies(o, levels[j], name)
    ensures i <= j && MostDerived(o, levels, i, name)
    decreases j
  {
    i := j;
    if k :| 0 <= k < j && NameQualifies(o, levels[k], name) {
      i := FindMostDerived(o, levels, k, name);
    }
  }

  lemma FromQualifies(o: Options, l: Level, q: QualifiedName)
    requires From(o, All(l), q)
    ensures NameQualifies(o, l, q.name)
  {
    var c :| c in All(l) && Qualifies(o, c) && c.browseName == q;
  }

  lemma NotFrom(o: Options, l: Level, q: QualifiedName)
    requires !NameQualifies(o, l, q.name)
    ensures !From(o, All(l), q) && !From(o, l.aggregates, q)
  {
    FromParts(o, l, q);
  }

  /** At its most derived level a name is cloned, whatever it is there. */
  lemma MostDerivedIsCloned(o: Options, had: set<string>, levels: seq<Level>, i: nat, name: string) returns (x: Clone)
    requires i < |levels| && MostDerived(o, levels, i, name) && name !in had
    ensures x.level == i && x.browseName.name == name && Cloned(o, had, levels, x)
  {
    var c :| c in All(levels[i]) && Qualifies(o, c) && c.browseName.name == name;
    var q := c.browseName;
    assert From(o, All(levels[i]), q);
    FromParts(o, levels[i], q);
    forall k, p: QualifiedName | 0 <= k < i && p.name == name
      ensures !From(o, All(levels[k]), p) && !ShadowedAt(o, levels, k, name, p)
    {
      NotFrom(o, levels[k], p);
    }
    x := Clone(q, From(o, levels[i].aggregates, q), i);
  }

  /** In one level a name stands for one browse name and one part. */
  lemma OneInLevel(o: Options, l: Level, p: QualifiedName, q: QualifiedName)
    requires UniqueInLevel(o, All(l)) && From(o, All(l), p) && From(o, All(l), q) && p.name == q.name
    ensures p == q && !(From(o, l.aggregates, p) && From(o, l.organized, p))
  {
    var c :| c in All(l) && Qualifies(o, c) && c.browseName == p;
    var d :| d in All(l) && Qualifies(o, d) && d.browseName == q;
    var i :| 0 <= i < |All(l)| && All(l)[i] == c;
    var j :| 0 <= j < |All(l)| && All(l)[j] == d;
    assert i == j;
    if From(o, l.aggregates, p) && From(o, l.organized, p) {
      var a :| a in l.aggregates && Qualifies(o, a) && a.browseName == p;
      var b :| b in l.organized && Qualifies(o, b) && b.browseName == p;
      DistinctParts(o, l, a, b);
    }
  }

  /** Two clones of one name betray rivals. */
  lemma TwoClonesRival(o: Options, had: set<string>, levels: seq<Level>, x: Clone, y: Clone)
    requires UniqueNames(o, levels) && Cloned(o, had, levels, x) && Cloned(o, had, levels, y)
    requires x.browseName != y.browseName && x.browseName.name == y.browseName.name && x.level <= y.level
    ensures !NoRivals(o, had, levels)
  {
    var name := x.browseName.name;
    FromParts(o, levels[x.level], x.browseName);
    FromParts(o, levels[y.level], y.browseName);
    FromQualifies(o, levels[x.level], x.browseName);
    var i := FindMostDerived(o, levels, x.level, name);
    var f := MostDerivedIsCloned(o, had, levels, i, name);
    FromParts(o, levels[i], f.browseName);
    assert Unambiguous(o, levels, x.level);
    if x.level == y.level {
      OneInLevel(o, levels[x.level], x.browseName, y.browseName);
    }
    if f.isAggregate {
      assert ShadowedAt(o, levels, i, name, f.browseName);
    }
    assert y.browseName != f.browseName by {
      assert First(o, levels, y.level, y.browseName);
    }
    assert Rivals(o, had, levels, i, f.browseName, y.level, y.browseName);
  }

  /** Rivals are both cloned, or something in between is. */
  lemma RivalsBothCloned(o: Options, had: set<string>, levels: seq<Level>, i: nat, q: QualifiedName, j: nat,
      q': QualifiedName) returns (y: Clone)
    requires UniqueNames(o, levels) && Rivals(o, had, levels, i, q, j, q')
    ensures Cloned(o, had, levels, Clone(q, false, i)) && Cloned(o, had, levels, y)
    ensures y.browseName.name == q.name && y.browseName != q
    decreases j
  {
    OnlyOrganized(o, had, levels, i, q);
    if k, p :| i < k < j && Rivals(o, had, levels, i, q, k, p) {
      y := RivalsBothCloned(o, had, levels, i, q, k, p);
    } else {
      FromParts(o, levels[j], q');
      y := Clone(q', From(o, levels[j].aggregates, q'), j);
      forall k | 0 <= k < j
        ensures !From(o, All(levels[k]), q')
        ensures forall p: QualifiedName :: p.name == q.name ==> !ShadowedAt(o, levels, k, q.name, p)
      {
        NothingBetween(o, had, levels, i, q, j, k);
      }
    }
  }

  lemma OnlyOrganized(o: Options, had: set<string>, levels: seq<Level>, i: nat, q: QualifiedName)
    requires UniqueNames(o, levels) && i < |levels| && q.name !in had
    requires MostDerived(o, levels, i, q.name) && From(o, levels[i].organized, q)
    ensures Cloned(o, had, levels, Clone(q, false, i))
  {
    var f := MostDerivedIsCloned(o, had, levels, i, q.name);
    FromParts(o, levels[i], q);
    FromParts(o, levels[i], f.browseName);
    assert Unambiguous(o, levels, i);
    OneInLevel(o, levels[i], q, f.browseName);
  }

  /** Before the first rival the name only stands for `q`, and is not the first aggregate of it. */
  lemma NothingBetween(o: Options, had: set<string>, levels: seq<Level>, i: nat, q: QualifiedName, j: nat, k: nat)
    requires UniqueNames(o, levels) && i < j < |levels| && k < j
    requires q.name !in had && MostDerived(o, levels, i, q.name) && From(o, levels[i].organized, q)
    requires forall m, p :: i < m < j ==> !Rivals(o, had, levels, i, q, m, p)
    ensures forall p: QualifiedName :: p.name == q.name && From(o, All(levels[k]), p) ==> p == q
    ensures forall p: QualifiedName :: p.name == q.name ==> !ShadowedAt(o, levels, k, q.name, p)
  {
    FromParts(o, levels[i], q);
    forall p: QualifiedName | p.name == q.name && From(o, All(levels[k]), p)
      ensures p == q
    {
      FromQualifies(o, levels[k], p);
      if k == i {
        assert Unambiguous(o, levels, i);
        OneInLevel(o, levels[i], p, q);
      } else if k > i {
        assert !Rivals(o, had, levels, i, q, k, p);
      }
    }
    forall p: QualifiedName | p.name == q.name && ShadowedAt(o, levels, k, q.name, p)
      ensures false
    {
      FromParts(o, levels[k], p);
      FromQualifies(o, levels[k], p);
      assert p == q;
      if k == i {
        assert Unambiguous(o, levels, i);
        OneInLevel(o, levels[i], p, q);
      }
    }
  }

  /** The names that instantiation adds are distinct exactly when no name has rivals: when whatever is
      organized first under a name has its browse name at every less derived level too. */
  lemma NamesOnceIff(o: Options, children: seq<Clone>, levels: seq<Level>)
    requires WellNamed(children) && UniqueNames(o, levels)
    ensures Instantiate(o, children, levels).Ok?
    ensures DistinctNames(Added(o, children, levels)) <==> NoRivals(o, Had(children), levels)
  {
    ClonesExactly(o, children, levels);
    var had, added := Had(children), Added(o, children, levels);
    if NoRivals(o, had, levels) {
      forall i, j | 0 <= i < j < |added|
        ensures added[i].browseName.name != added[j].browseName.name
      {
        BrowseNamesAt(added, i);
        BrowseNamesAt(added, j);
        var x, y := added[i], added[j];
        assert x in added && y in added;
        if x.browseName.name == y.browseName.name {
          if x.level <= y.level {
            TwoClonesRival(o, had, levels, x, y);
          } else {
            TwoClonesRival(o, had, levels, y, x);
          }
        }
      }
    } else {
      var i, q, j, q' :| Rivals(o, had, levels, i, q, j, q');
      var y := RivalsBothCloned(o, had, levels, i, q, j, q');
      SomewhereTwice(added, Clone(q, false, i), y);
    }
  }

  lemma SomewhereTwice(cs: seq<Clone>, x: Clone, y: Clone)
    requires x in cs && y in cs && x != y && x.browseName.name == y.browseName.name
    ensures !DistinctNames(cs)
  {
    var i :| 0 <= i < |cs| && cs[i] == x;
    var j :| 0 <= j < |cs| && cs[j] == y;
    assert cs[if i < j then i else j].browseName.name == cs[if i < j then j else i].browseName.name;
  }

  lemma {:induction false} BrowseNamesAt(cs: seq<Clone>, i: nat)
    requires i < |cs|
    ensures |BrowseNames(cs)| == |cs| && BrowseNames(cs)[i] == cs[i].browseName
  {
    if |cs| > 1 {
      BrowseNamesAt(cs[1..], if i > 0 then i - 1 else 0);
    } else {
      assert cs[1..] == [];
    }
  }

  /** Among the clones so far there is one of this name. */
  ghost predicate Gained(children: seq<Clone>, st: State, name: string) {
    |children| <= |st.children| && exists x :: x in st.children[|children|..] && x.browseName.name == name
  }

  /** Some qualifying child of `cs` has this name. */
  ghost predicate NameIn(o: Options, cs: seq<Child>, name: string) {
    exists c :: c in cs && Qualifies(o, c) && c.browseName.name == name
  }

  /** The filter sees the name if the instance had it, and only if it had or has gained it. */
  predicate Sees(children: seq<Clone>, st: State, present: seq<string>, name: string)
    requires |children| <= |st.children|
  {
    && (name in Had(children) ==> name in present)
    && (name in present ==>
          name in Had(children) || exists x :: x in st.children[|children|..] && x.browseName.name == name)
  }

  lemma OneGains(o: Options, present: seq<string>, level: nat, isAggregate: bool, children: seq<Clone>, st: State,
      c: Child, name: string)
    requires Extends(children, st) && Sees(children, st, present, name)
    requires CloneOne(o, present, level, isAggregate, st, c).Ok?
    ensures var st' := CloneOne(o, present, level, isAggregate, st, c).value;
      && Extends(children, st') && Sees(children, st', present, name)
      && (Gained(children, st', name) <==>
            Gained(children, st, name) || (name !in Had(children) && Qualifies(o, c) && c.browseName.name == name))
  {
    var st' := CloneOne(o, present, level, isAggregate, st, c).value;
    OneExtends(o, present, level, isAggregate, children, st, c);
    CountAbsent(present, c.browseName.name);
    if st' != st {
      OneMoreGained(children, st, Clone(c.browseName, isAggregate, level), name);
    } else if Qualifies(o, c) && c.browseName.name == name {
      HeldBackGained(children, st, present, c.browseName);
    }
  }

  lemma OneMoreGained(children: seq<Clone>, st: State, x: Clone, name: string)
    requires children <= st.children
    ensures Gained(children, State(st.children + [x], st.browseNames + {x.browseName}), name) <==>
      Gained(children, st, name) || x.browseName.name == name
    ensures forall y :: y in st.children[|children|..] ==> y in (st.children + [x])[|children|..]
  {
    var added := st.children[|children|..];
    assert (st.children + [x])[|children|..] == added + [x];
    assert forall y :: y in added + [x] <==> y in added || y == x;
  }

  lemma HeldBackGained(children: seq<Clone>, st: State, present: seq<string>, q: QualifiedName)
    requires Extends(children, st) && Sees(children, st, present, q.name)
    requires q.name in present || q in st.browseNames
    ensures q.name in Had(children) || Gained(children, st, q.name)
  {
    BrowseNamesMembers(st.children[|children|..], q);
  }

  lemma {:induction false} BrowseNamesMembers(cs: seq<Clone>, q: QualifiedName)
    ensures q in BrowseNames(cs) <==> exists x :: x in cs && x.browseName == q
  {
    if cs != [] {
      BrowseNamesMembers(cs[1..], q);
      assert forall x :: x in cs <==> x == cs[0] || x in cs[1..];
    }
  }

  lemma {:induction false} CollectionGains(o: Options, present: seq<string>, level: nat, isAggregate: bool,
                                           children: seq<Clone>, st: State, cs: seq<Child>, name: string)
    requires Extends(children, st) && Sees(children, st, present, name)
    requires CloneCollection(o, present, level, isAggregate, st, cs).Ok?
    ensures var st' := CloneCollection(o, present, level, isAggregate, st, cs).value;
      && Extends(children, st') && Sees(children, st', present, name)
      && (Gained(children, st', name) <==>
        Gained(children, st, name) || (name !in Had(children) && NameIn(o, cs, name)))
  {
    if cs != [] {
      var init, c := cs[..|cs| - 1], cs[|cs| - 1];
      CollectionGains(o, present, level, isAggregate, children, st, init, name);
      OneGains(o, present, level, isAggregate, children,
        CloneCollection(o, present, level, isAggregate, st, init).value, c, name);
      assert forall d :: d in cs <==> d in init || d == c;
    }
  }

  lemma SnapshotSees(children: seq<Clone>, st: State, name: string)
    requires children <= st.children
    ensures Sees(children, st, AggregateNames(st.children), name)
  {
    var added := st.children[|children|..];
    assert st.children == children + added;
    AggregateNamesAppend(children, added);
    AggregateNamesMembers(added, name);
  }

  lemma QualifiesInEither(o: Options, l: Level, name: string)
    ensures NameQualifies(o, l, name) <==> NameIn(o, l.aggregates, name) || NameIn(o, l.organized, name)
  {
    assert forall c :: c in All(l) <==> c in l.aggregates || c in l.organized;
  }

  lemma NothingGained(o: Options, children: seq<Clone>, name: string)
    ensures Instantiate(o, children, []).Ok?
    ensures Extends(children, Instantiate(o, children, []).value)
    ensures !Gained(children, Instantiate(o, children, []).value, name)
  {
    assert children[|children|..] == [];
  }

  lemma {:induction false} LevelsGain(o: Options, children: seq<Clone>, levels: seq<Level>, name: string)
    requires Instantiate(o, children, levels).Ok?
    ensures var st := Instantiate(o, children, levels).value;
      && Extends(children, st)
      && (Gained(children, st, name) <==>
            name !in Had(children) && exists i :: 0 <= i < |levels| && NameQualifies(o, levels[i], name))
  {
    hide Gained, NameQualifies, NameIn, CloneCollection, AggregateNames, Had;
    if levels == [] {
      NothingGained(o, children, name);
    } else {
      var init, n, l := levels[..|levels| - 1], |levels| - 1, levels[|levels| - 1];
      LevelsGain(o, children, init, name);
      var st := Instantiate(o, children, init).value;
      var present := AggregateNames(st.children);
      SnapshotSees(children, st, name);
      CollectionGains(o, present, n, true, children, st, l.aggregates, name);
      var st1 := CloneCollection(o, present, n, true, st, l.aggregates).value;
      CollectionGains(o, present, n, false, children, st1, l.organized, name);
      QualifiesInEither(o, l, name);
      assert forall i :: 0 <= i < n ==> init[i] == levels[i];
    }
  }

  /** On every chain, unless it throws: a name is added exactly when it qualifies somewhere and no
      aggregate of the instance has it. */
  lemma NameGained(o: Options, children: seq<Clone>, levels: seq<Level>, name: string)
    requires Instantiate(o, children, levels).Ok?
    ensures (exists x :: x in Added(o, children, levels) && x.browseName.name == name) <==>
      name !in Had(children) && exists i :: 0 <= i < |levels| && NameQualifies(o, levels[i], name)
  {
    LevelsGain(o, children, levels, name);
  }

  /** A level has a child of this name under this rule. */
  predicate Ruled(l: Level, name: string, rule: ModellingRule) {
    exists c :: c in l.aggregates + l.organized && c.browseName.name == name && c.rule == rule
  }

  /** With the rule written out: it is Mandatory at some level, or Optional at some level and asked for by
      name or with all the others. */
  lemma NameIsAdded(o: Options, children: seq<Clone>, levels: seq<Level>, name: string)
    requires Instantiate(o, children, levels).Ok?
    ensures (exists x :: x in Added(o, children, levels) && x.browseName.name == name) <==>
      && (forall x :: x in children && x.isAggregate ==> x.browseName.name != name)
      && exists i :: 0 <= i < |levels| &&
           (Ruled(levels[i], name, Mandatory)
            || (Ruled(levels[i], name, Optional) && (o.copyAlsoAllOptionals || name in o.optionals)))
  {
    NameGained(o, children, levels, name);
    AggregateNamesMembers(children, name);
    forall i | 0 <= i < |levels|
      ensures NameQualifies(o, levels[i], name) <==>
        || Ruled(levels[i], name, Mandatory)
        || (Ruled(levels[i], name, Optional) && (o.copyAlsoAllOptionals || name in o.optionals))
    {
      RuleDecides(o, levels[i], name);
    }
  }

  lemma RuleDecides(o: Options, l: Level, name: string)
    ensures NameQualifies(o, l, name) <==>
      Ruled(l, name, Mandatory) || (Ruled(l, name, Optional) && (o.copyAlsoAllOptionals || name in o.optionals))
  {
    if c :| c in All(l) && Qualifies(o, c) && c.browseName.name == name {
      assert Ruled(l, name, c.rule);
    }
  }

  /** Asking for one more optional child adds no other name, and adds that one exactly when it was not
      added before, no aggregate of the instance has it, and some level has it as Optional. */
  lemma OneMoreOptional(o: Options, children: seq<Clone>, levels: seq<Level>, extra: string, name: string)
    requires Instantiate(o, children, levels).Ok?
    requires Instantiate(o.(optionals := o.optionals + {extra}), children, levels).Ok?
    ensures var more := Added(o.(optionals := o.optionals + {extra}), children, levels);
      (exists x :: x in more && x.browseName.name == name) <==>
        || (exists x :: x in Added(o, children, levels) && x.browseName.name == name)
        || (name == extra && (forall x :: x in children && x.isAggregate ==> x.browseName.name != name)
            && exists i :: 0 <= i < |levels| && Ruled(levels[i], name, Optional))
  {
    NameIsAdded(o, children, levels, name);
    NameIsAdded(o.(optionals := o.optionals + {extra}), children, levels, name);
    hide Instantiate, Added, Ruled;
  }

  // ---- when it throws ---------------------------------------------------------------------------

  predicate AggregateNamed(x: Clone, name: string) {
    x.isAggregate && x.browseName.name == name
  }

  /** Two aggregates have this name. */
  predicate Doubled(children: seq<Clone>, name: string) {
    exists i, j :: 0 <= i < j < |children| && AggregateNamed(children[i], name) && AggregateNamed(children[j], name)
  }

  lemma {:induction false} DoubledCount(children: seq<Clone>, name: string)
    ensures Count(AggregateNames(children), name) > 1 <==> Doubled(children, name)
  {
    if children != [] {
      var x, rest := children[0], children[1..];
      DoubledCount(rest, name);
      CountAppend(if x.isAggregate then [x.browseName.name] else [], AggregateNames(rest), name);
      CountAbsent(AggregateNames(rest), name);
      AggregateNamesMembers(rest, name);
      DoubledFrom(children, name);
    }
  }

  lemma {:induction false} CountAppend(a: seq<string>, b: seq<string>, name: string)
    ensures Count(a + b, name) == Count(a, name) + Count(b, name)
  {
    if a == [] {
      assert a + b == b;
    } else {
      assert (a + b)[0] == a[0] && (a + b)[1..] == a[1..] + b;
      CountAppend(a[1..], b, name);
    }
  }

  lemma DoubledFrom(children: seq<Clone>, name: string)
    requires children != []
    ensures var x, rest := children[0], children[1..];
      Doubled(children, name) <==>
        || Doubled(rest, name)
        || (AggregateNamed(x, name) && exists y :: y in rest && AggregateNamed(y, name))
  {
    hide AggregateNamed;
    var x, rest := children[0], children[1..];
    if i, j :| 0 <= i < j < |children| && AggregateNamed(children[i], name) && AggregateNamed(children[j], name) {
      assert children[j] == rest[j - 1] && rest[j - 1] in rest;
      assert i > 0 ==> children[i] == rest[i - 1];
    }
    if i, j :| 0 <= i < j < |rest| && AggregateNamed(rest[i], name) && AggregateNamed(rest[j], name) {
      assert children[i + 1] == rest[i] && children[j + 1] == rest[j];
    }
    if y :| y in rest && AggregateNamed(y, name) {
      var j :| 0 <= j < |rest| && rest[j] == y;
      assert children[j + 1] == y;
    }
  }

  lemma {:induction false} CollectionThrows(o: Options, present: seq<string>, level: nat, isAggregate: bool, st: State,
      cs: seq<Child>)
    ensures CloneCollection(o, present, level, isAggregate, st, cs).DuplicationFound? <==>
      exists c :: c in cs && c.rule != NoRule && Count(present, c.browseName.name) > 1
  {
    if cs != [] {
      var init, c := cs[..|cs| - 1], cs[|cs| - 1];
      CollectionThrows(o, present, level, isAggregate, st, init);
      assert forall d :: d in cs <==> d in init || d == c;
    }
  }

  /** Two aggregates have a name that a child of the level with a modelling rule has as well. */
  predicate Crowded(children: seq<Clone>, l: Level) {
    exists c :: c in l.aggregates + l.organized && c.rule != NoRule && Doubled(children, c.browseName.name)
  }

  /** The instance comes to this level, and is crowded there. */
  ghost predicate ThrowsAt(o: Options, children: seq<Clone>, levels: seq<Level>, i: nat)
    requires i < |levels|
  {
    var before := Instantiate(o, children, levels[..i]);
    before.Ok? && Crowded(before.value.children, levels[i])
  }

  lemma LevelThrows(o: Options, level: nat, st: State, l: Level)
    ensures CloneLevel(o, level, st, l).DuplicationFound? <==> Crowded(st.children, l)
  {
    var present := AggregateNames(st.children);
    forall name
      ensures Count(present, name) > 1 <==> Doubled(st.children, name)
    {
      DoubledCount(st.children, name);
    }
    hide Doubled, Count;
    CollectionThrows(o, present, level, true, st, l.aggregates);
    var first := CloneCollection(o, present, level, true, st, l.aggregates);
    if first.Ok? {
      CollectionThrows(o, present, level, false, first.value, l.organized);
    }
  }

  /** The "Duplication found" assertion fails exactly when some level finds the instance like that. */
  lemma {:induction false} InstantiateThrows(o: Options, children: seq<Clone>, levels: seq<Level>)
    ensures Instantiate(o, children, levels).DuplicationFound? <==>
      exists i: nat :: i < |levels| && ThrowsAt(o, children, levels, i)
  {
    hide CloneLevel, Crowded;
    if levels != [] {
      var n := |levels| - 1;
      var init := levels[..n];
      InstantiateThrows(o, children, init);
      forall i: nat | i < n
        ensures ThrowsAt(o, children, init, i) <==> ThrowsAt(o, children, levels, i)
      {
        assert init[..i] == levels[..i];
      }
      var before := Instantiate(o, children, init);
      if before.Ok? {
        LevelThrows(o, n, before.value, levels[n]);
      }
      assert ThrowsAt(o, children, levels, n) <==>
        before.Ok? && CloneLevel(o, n, before.value, levels[n]).DuplicationFound?;
    }
  }

  /** Without rivals: each such name once, from the most derived level where it qualifies. */
  lemma OneChildPerName(o: Options, children: seq<Clone>, levels: seq<Level>, name: string)
    requires WellNamed(children) && UniqueNames(o, levels) && NoRivals(o, Had(children), levels)
    ensures Instantiate(o, children, levels).Ok?
    ensures Instantiate(o, children, levels).value.children == children + Added(o, children, levels)
    ensures DistinctNames(Added(o, children, levels))
    ensures (exists x :: x in Added(o, children, levels) && x.browseName.name == name) <==>
      name !in Had(children) && exists i :: 0 <= i < |levels| && NameQualifies(o, levels[i], name)
    ensures forall x :: x in Added(o, children, levels) ==>
      x.level < |levels| && MostDerived(o, levels, x.level, x.browseName.name)
  {
    ClonesExactly(o, children, levels);
    NamesOnceIff(o, children, levels);
    NameGained(o, children, levels, name);
    forall x | x in Added(o, children, levels)
      ensures x.level < |levels| && MostDerived(o, levels, x.level, x.browseName.name)
    {
      AddedIsMostDerived(o, children, levels, x);
    }
  }

  lemma AddedIsMostDerived(o: Options, children: seq<Clone>, levels: seq<Level>, x: Clone)
    requires WellNamed(children) && UniqueNames(o, levels) && x in Added(o, children, levels)
    requires DistinctNames(Added(o, children, levels))
    ensures x.level < |levels| && MostDerived(o, levels, x.level, x.browseName.name)
  {
    ClonesExactly(o, children, levels);
    FromParts(o, levels[x.level], x.browseName);
    FromQualifies(o, levels[x.level], x.browseName);
    var i := FindMostDerived(o, levels, x.level, x.browseName.name);
    var f := MostDerivedIsCloned(o, Had(children), levels, i, x.browseName.name);
    assert f in Added(o, children, levels);
    if f != x {
      SomewhereTwice(Added(o, children, levels), f, x);
    }
  }

  /** All children of the instance end up with distinct names exactly when they had distinct names, no
      name has rivals, and nothing qualifies under a name that the instance only organizes. */
  lemma WholeInstanceDistinct(o: Options, children: seq<Clone>, levels: seq<Level>)
    requires WellNamed(children) && UniqueNames(o, levels)
    ensures Instantiate(o, children, levels).Ok?
    ensures DistinctNames(Instantiate(o, children, levels).value.children) <==>
      && DistinctNames(children) && NoRivals(o, Had(children), levels)
      && forall x, i :: x in children && x.browseName.name !in Had(children) && 0 <= i < |levels| ==>
           !NameQualifies(o, levels[i], x.browseName.name)
  {
    ClonesExactly(o, children, levels);
    NamesOnceIff(o, children, levels);
    assert Instantiate(o, children, levels).value.children == children + Added(o, children, levels);
    hide DistinctNames, NoRivals, NameQualifies, Had, Instantiate, Added;
    DistinctInBoth(children, Added(o, children, levels));
    NoneAddedAgain(o, children, levels);
  }

  lemma NoneAddedAgain(o: Options, children: seq<Clone>, levels: seq<Level>)
    requires Instantiate(o, children, levels).Ok?
    ensures (forall x, y :: x in children && y in Added(o, children, levels) ==> x.browseName.name != y.browseName.name)
      <==>
      forall x, i :: x in children && x.browseName.name !in Had(children) && 0 <= i < |levels| ==>
        !NameQualifies(o, levels[i], x.browseName.name)
  {
    hide NameQualifies, Had, Instantiate, Added;
    forall x | x in children
      ensures (exists y :: y in Added(o, children, levels) && y.browseName.name == x.browseName.name) <==>
        && x.browseName.name !in Had(children)
        && exists i :: 0 <= i < |levels| && NameQualifies(o, levels[i], x.browseName.name)
    {
      NameGained(o, children, levels, x.browseName.name);
    }
  }

  lemma DistinctInBoth(a: seq<Clone>, b: seq<Clone>)
    ensures DistinctNames(a + b) <==>
      DistinctNames(a) && DistinctNames(b) && forall x, y :: x in a && y in b ==> x.browseName.name != y.browseName.name
  {
    var c := a + b;
    assert forall i :: 0 <= i < |a| ==> c[i] == a[i];
    assert forall j :: 0 <= j < |b| ==> c[|a| + j] == b[j];
    if DistinctNames(c) {
      forall i, j | 0 <= i < j < |b|
        ensures b[i].browseName.name != b[j].browseName.name
      {
        assert c[|a| + i].browseName.name != c[|a| + j].browseName.name;
      }
      forall x, y | x in a && y in b
        ensures x.browseName.name != y.browseName.name
      {
        var i :| 0 <= i < |a| && a[i] == x;
        var j :| 0 <= j < |b| && b[j] == y;
        assert c[i].browseName.name != c[|a| + j].browseName.name;
      }
    }
  }

  /** Rivals: an organized child and a child of the supertype with the same name in another namespace are
      both cloned. */
  lemma TwoNamespacesTwoChildren()
    ensures var derived := Level([], [Child(QualifiedName(1, "Limits"), Mandatory)]);
      var base := Level([Child(QualifiedName(2, "Limits"), Mandatory)], []);
      var out := Instantiate(Options(false, {}), [], [derived, base]);
      out.Ok? && out.value.children ==
        [Clone(QualifiedName(1, "Limits"), false, 0), Clone(QualifiedName(2, "Limits"), true, 1)]
  {
    var o := Options(false, {});
    var c1, c2 := Child(QualifiedName(1, "Limits"), Mandatory), Child(QualifiedName(2, "Limits"), Mandatory);
    var derived, base := Level([], [c1]), Level([c2], []);
    var x1, x2 := Clone(c1.browseName, false, 0), Clone(c2.browseName, true, 1);
    var st0 := State([], {});
    assert [c1][..0] == [] && [c2][..0] == [];
    assert CloneCollection(o, [], 0, false, st0, [c1]) == CloneOne(o, [], 0, false, st0, c1);
    var st1 := State([x1], {c1.browseName});
    assert [] + [x1] == [x1];
    assert {} + {c1.browseName} == {c1.browseName};
    assert Count([], "Limits") == 0;
    assert CloneCollection(o, [], 0, true, st0, []) == Ok(st0);
    assert CloneOne(o, [], 0, false, st0, c1) == Ok(st1);
    assert CloneLevel(o, 0, st0, derived) == Ok(st1);
    assert [derived, base][..1] == [derived] && [derived][..0] == [];
    assert CloneLevels(o, st0, [derived]) == Ok(st1);
    assert [x1][1..] == [];
    assert AggregateNames([x1]) == [];
    assert CloneCollection(o, [], 1, true, st1, [c2]) == CloneOne(o, [], 1, true, st1, c2);
    assert [x1] + [x2] == [x1, x2];
  }

  // ---- the instance ---------------------------------------------------------------------------

  class Instance {
    var children: seq<Clone>
    var browseNameMap: set<QualifiedName>

    function Abs(): State
      reads this
    {
      State(children, browseNameMap)
    }

    constructor (children: seq<Clone>)
      ensures Abs() == State(children, {})
    {
      this.children, browseNameMap := children, {};
    }

    /** The filter's snapshot of the aggregates. */
    method ListAggregates() returns (names: seq<string>)
      ensures names == AggregateNames(children)
    {
      names := [];
      for i := 0 to |children|
        invariant names == AggregateNames(children[..i])
      {
        assert children[..i + 1] == children[..i] + [children[i]];
        AggregateNamesAppend(children[..i], [children[i]]);
        assert [children[i]][1..] == [];
        if children[i].isAggregate {
          names := names + [children[i].browseName.name];
        }
      }
      assert children[..|children|] == children;
    }

    /** False when it throws. */
    method CloneCollectionNew(o: Options, present: seq<string>, level: nat, isAggregate: bool, cs: seq<Child>)
      returns (ok: bool)
      modifies this
      ensures var out := CloneCollection(o, present, level, isAggregate, old(Abs()), cs);
        ok == out.Ok? && (ok ==> Abs() == out.value)
    {
      ghost var st := Abs();
      for i := 0 to |cs|
        invariant CloneCollection(o, present, level, isAggregate, st, cs[..i]) == Ok(Abs())
      {
        assert cs[..i + 1][..i] == cs[..i];
        if cs[i].rule == NoRule {
          continue;
        }
        var keep := ShouldKeep(o, present, cs[i]);
        if keep.DuplicationFound? {
          StopsAt(o, present, level, isAggregate, st, cs, i + 1);
          return false;
        }
        if !keep.value {
          continue;
        }
        var key := cs[i].browseName;
        if key in browseNameMap {
          continue;
        }
        browseNameMap := browseNameMap + {key};
        children := children + [Clone(key, isAggregate, level)];
      }
      assert cs[..|cs|] == cs;
      ok := true;
    }

    /** The recursion up the chain of types; `level` counts the types already done, from the state
        `start`. False when it throws. */
    method InitializePropertiesAndComponents(o: Options, levels: seq<Level>, level: nat, ghost start: State)
      returns (ok: bool)
      requires level <= |levels| && CloneLevels(o, start, levels[..level]) == Ok(Abs())
      modifies this
      ensures var out := CloneLevels(o, start, levels);
        ok == out.Ok? && (ok ==> Abs() == out.value)
      decreases |levels| - level
    {
      if level == |levels| {
        assert levels[..level] == levels;
        return true;
      }
      assert levels[..level + 1][..level] == levels[..level];
      var present := ListAggregates();
      ok := CloneCollectionNew(o, present, level, true, levels[level].aggregates);
      if ok {
        ok := CloneCollectionNew(o, present, level, false, levels[level].organized);
      }
      if !ok {
        LevelsStopAt(o, start, levels, level + 1);
        return;
      }
      ok := InitializePropertiesAndComponents(o, levels, level + 1, start);
    }

    method Initialize(o: Options, levels: seq<Level>) returns (ok: bool)
      requires browseNameMap == {}
      modifies this
      ensures var out := Instantiate(o, old(children), levels);
        ok == out.Ok? && (ok ==> Abs() == out.value)
    {
      ok := InitializePropertiesAndComponents(o, levels, 0, Abs());
    }
  }

  lemma {:induction false} StopsAt(o: Options, present: seq<string>, level: nat, isAggregate: bool, st: State,
      cs: seq<Child>, n: nat)
    requires n <= |cs| && CloneCollection(o, present, level, isAggregate, st, cs[..n]).DuplicationFound?
    ensures CloneCollection(o, present, level, isAggregate, st, cs).DuplicationFound?
    decreases |cs|
  {
    if n == |cs| {
      assert cs[..n] == cs;
    } else {
      assert cs[..|cs| - 1][..n] == cs[..n];
      StopsAt(o, present, level, isAggregate, st, cs[..|cs| - 1], n);
    }
  }

  lemma {:induction false} LevelsStopAt(o: Options, st: State, levels: seq<Level>, n: nat)
    requires n <= |levels| && CloneLevels(o, st, levels[..n]).DuplicationFound?
    ensures CloneLevels(o, st, levels).DuplicationFound?
    decreases |levels|
  {
    if n == |levels| {
      assert levels[..n] == levels;
    } else {
      assert levels[..|levels| - 1][..n] == levels[..n];
      LevelsStopAt(o, st, levels[..|levels| - 1], n);
    }
  }
}

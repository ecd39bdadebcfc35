/** A variable that holds an array of extension objects and has one component variable per element,
    named by the element's index property. */
module ExtensionObjectArrays {
  import opened Common
  import opened References

  /** An extension object; `key` is its index property as text. */
  datatype ExtensionObject = ExtensionObject(key: string, data: int)

  /** A component of the array variable; `elsewhere` if it is a child of another node as well. */
  datatype Component = Component(nodeId: NodeId, name: string, elsewhere: bool)

  /** What addElement is given: data for a new element, with the id its component is going to get and
      whether a node of that id is registered already, or a variable that exposes one. */
  datatype NewElement =
    | Data(content: ExtensionObject, newNodeId: NodeId, taken: bool)
    | Existing(variable: Component, content: ExtensionObject)

  /** How removeElement is told what to remove. */
  datatype Selector =
    | ByIndex(index: int)
    | ByFunctor(functor: ExtensionObject -> bool)
    | ByVariable(variable: Component)

  /** `deleted` lists the nodes taken out of the address space because they had no parent left. */
  datatype Arr = Arr(elements: seq<ExtensionObject>, components: seq<Component>, deleted: seq<NodeId>)

  datatype Outcome = Done(arr: Arr) | Thrown(arr: Arr)

  // ---- adding ---------------------------------------------------------------------------------

  /** The test for an unused name asks for references of exactly the type HasChild, so it lets a
      second component of the same name through. */
  function AddElement(a: Arr, e: NewElement): Outcome {
    match e
    case Data(content, id, taken) =>
      if taken then Thrown(a)
      else Done(a.(elements := a.elements + [content],
                   components := a.components + [Component(id, content.key, false)]))
    case Existing(variable, content) =>
      if exists c :: c in a.components && c.nodeId == variable.nodeId then Thrown(a)
      else Done(a.(elements := a.elements + [content], components := a.components + [variable]))
  }

  // ---- removing -------------------------------------------------------------------------------

  function FindIndex(elements: seq<ExtensionObject>, functor: ExtensionObject -> bool): (i: int)
    ensures -1 <= i < |elements|
    ensures i >= 0 ==> functor(elements[i]) && forall j :: 0 <= j < i ==> !functor(elements[j])
    ensures i == -1 ==> forall j :: 0 <= j < |elements| ==> !functor(elements[j])
  {
    if elements == [] then -1
    else if functor(elements[0]) then 0
    else
      var i := FindIndex(elements[1..], functor);
      if i < 0 then -1 else i + 1
  }

  function Named(components: seq<Component>, name: string): seq<Component> {
    if components == [] then []
    else (if components[0].name == name then [components[0]] else []) + Named(components[1..], name)
  }

  /** A node without a parent is deleted. */
  function Orphan(c: Component): seq<NodeId> {
    if c.elsewhere then [] else [c.nodeId]
  }

  /** The element goes first; the component is looked up by name only then. */
  function RemoveElementByIndex(a: Arr, i: nat): Outcome
    requires i < |a.elements|
  {
    var elements := a.elements[..i] + a.elements[i + 1..];
    var found := Named(a.components, a.elements[i].key);
    if |found| != 1 then Thrown(a.(elements := elements))
    else Done(Arr(elements, Without(a.components, found[0]), a.deleted + Orphan(found[0])))
  }

  /** The index a selector stands for; negative when removeElement throws before changing anything.
      Index 0 is taken for a missing argument. */
  function Index(a: Arr, s: Selector): (i: int)
    ensures i < |a.elements|
  {
    match s
    case ByIndex(i) => if 0 < i < |a.elements| then i else -1
    case ByFunctor(f) => FindIndex(a.elements, f)
    case ByVariable(v) => FindIndex(a.elements, (e: ExtensionObject) => e.key == v.name)
  }

  function RemoveElement(a: Arr, s: Selector): Outcome {
    var i := Index(a, s);
    if i < 0 then Thrown(a) else RemoveElementByIndex(a, i)
  }

  // ---- in step --------------------------------------------------------------------------------

  function Keys(elements: seq<ExtensionObject>): (keys: seq<string>)
    ensures |keys| == |elements| && forall i :: 0 <= i < |keys| ==> keys[i] == elements[i].key
  {
    seq(|elements|, i requires 0 <= i < |elements| => elements[i].key)
  }

  function ComponentNames(components: seq<Component>): (names: seq<string>)
    ensures |names| == |components| && forall i :: 0 <= i < |names| ==> names[i] == components[i].name
  {
    seq(|components|, i requires 0 <= i < |components| => components[i].name)
  }

  /** The keys are distinct and are exactly the names of the components. */
  ghost predicate InStep(a: Arr) {
    && NoDup(Keys(a.elements)) && NoDup(ComponentNames(a.components))
    && forall k :: k in Keys(a.elements) <==> k in ComponentNames(a.components)
  }

  /** The key of the new element is unused, and a variable that is added carries it as its name. */
  ghost predicate Keyed(a: Arr, e: NewElement) {
    && e.content.key !in Keys(a.elements)
    && (e.Existing? ==> e.variable.name == e.content.key)
  }

  lemma KeysAppend(elements: seq<ExtensionObject>, e: ExtensionObject)
    ensures Keys(elements + [e]) == Keys(elements) + [e.key]
  {
  }

  lemma ComponentNamesAppend(components: seq<Component>, c: Component)
    ensures ComponentNames(components + [c]) == ComponentNames(components) + [c.name]
  {
  }

  /** An element that is added keeps array and components in step exactly when it is properly keyed. */
  lemma AddKeepsInStep(a: Arr, e: NewElement)
    requires InStep(a) && AddElement(a, e).Done?
    ensures InStep(AddElement(a, e).arr) <==> Keyed(a, e)
  {
    var c := if e.Data? then Component(e.newNodeId, e.content.key, false) else e.variable;
    var keys, names := Keys(a.elements), ComponentNames(a.components);
    KeysAppend(a.elements, e.content);
    ComponentNamesAppend(a.components, c);
    var keys', names' := keys + [e.content.key], names + [c.name];
    if Keyed(a, e) {
      NoDupAppend(keys, e.content.key);
      NoDupAppend(names, c.name);
    }
    if InStep(AddElement(a, e).arr) {
      SameNewName(keys, names, e.content.key, c.name);
    }
  }

  lemma SameNewName(keys: seq<string>, names: seq<string>, key: string, name: string)
    requires NoDup(keys + [key]) && NoDup(names + [name])
    requires forall k :: k in keys <==> k in names
    requires forall k :: k in keys + [key] <==> k in names + [name]
    ensures key !in keys && name == key
  {
    NoDupInit(keys, key);
    NoDupInit(names, name);
    assert key in keys + [key];
  }

  lemma FirstDiffers(x: string, s: seq<string>)
    requires NoDup([x] + s)
    ensures x !in s && NoDup(s)
  {
    var t := [x] + s;
    assert forall i :: 0 <= i < |s| ==> s[i] == t[i + 1] && t[0] != t[i + 1];
  }

  lemma {:induction false} NamedOnce(components: seq<Component>, name: string)
    requires NoDup(ComponentNames(components))
    ensures name !in ComponentNames(components) ==> Named(components, name) == []
    ensures name in ComponentNames(components) ==>
      var found := Named(components, name);
      |found| == 1 && found[0] in components && found[0].name == name
  {
    if components != [] {
      var rest := components[1..];
      assert ComponentNames(components) == [components[0].name] + ComponentNames(rest);
      FirstDiffers(components[0].name, ComponentNames(rest));
      NamedOnce(rest, name);
    }
  }

  lemma {:induction false} WithoutComponent(components: seq<Component>, c: Component)
    requires NoDup(ComponentNames(components)) && c in components
    ensures NoDup(ComponentNames(Without(components, c)))
    ensures forall n :: n in ComponentNames(Without(components, c)) <==> n in ComponentNames(components) && n != c.name
  {
    var left := Without(components, c);
    forall i, j | 0 <= i < |components| && 0 <= j < |components| && components[i].name == components[j].name
      ensures i == j
    {
      assert ComponentNames(components)[i] == ComponentNames(components)[j];
    }
    assert NoDup(components);
    WithoutNoDup(components, c);
    forall i, j | 0 <= i < j < |left|
      ensures ComponentNames(left)[i] != ComponentNames(left)[j]
    {
      assert left[i] in left && left[j] in left;
    }
    forall n
      ensures n in ComponentNames(left) <==> n in ComponentNames(components) && n != c.name
    {
      NameOf(left, n);
      NameOf(components, n);
    }
  }

  lemma NameOf(components: seq<Component>, n: string)
    ensures n in ComponentNames(components) <==> exists c :: c in components && c.name == n
  {
    if n in ComponentNames(components) {
      var i :| 0 <= i < |components| && ComponentNames(components)[i] == n;
      assert components[i] in components;
    }
    if c :| c in components && c.name == n {
      var i :| 0 <= i < |components| && components[i] == c;
      assert ComponentNames(components)[i] == n;
    }
  }

  lemma RemoveAtKeepsInStep(a: Arr, i: nat)
    requires InStep(a) && i < |a.elements|
    ensures var out := RemoveElementByIndex(a, i);
      && out.Done? && InStep(out.arr)
      && forall k :: k in Keys(out.arr.elements) <==> k in Keys(a.elements) && k != a.elements[i].key
  {
    var key := a.elements[i].key;
    assert Keys(a.elements)[i] == key;
    NamedOnce(a.components, key);
    WithoutComponent(a.components, Named(a.components, key)[0]);
    KeysWithoutOne(a.elements, i);
  }

  /** Removal from an array in step finds the one component it needs, and keeps them in step: the
      removed key is the only one that goes, and the other elements keep their order. */
  lemma RemoveKeepsInStep(a: Arr, s: Selector)
    requires InStep(a)
    ensures InStep(RemoveElement(a, s).arr)
    ensures RemoveElement(a, s).Thrown? <==> Index(a, s) < 0
    ensures RemoveElement(a, s).Thrown? ==> RemoveElement(a, s).arr == a
    ensures RemoveElement(a, s).Done? ==>
      forall k :: k in Keys(RemoveElement(a, s).arr.elements) <==>
        k in Keys(a.elements) && k != a.elements[Index(a, s)].key
  {
    hide InStep, RemoveElementByIndex;
    if Index(a, s) >= 0 {
      RemoveAtKeepsInStep(a, Index(a, s));
    }
  }

  /** The element a selector stands for: never the first by its index, and otherwise the first that
      satisfies the functor, or that is exposed by a variable of that name. */
  ghost predicate Designates(a: Arr, s: Selector, i: nat)
    requires i < |a.elements|
  {
    match s
    case ByIndex(n) => n == i && i > 0
    case ByFunctor(f) => f(a.elements[i]) && forall j :: 0 <= j < i ==> !f(a.elements[j])
    case ByVariable(v) => a.elements[i].key == v.name && forall j :: 0 <= j < i ==> a.elements[j].key != v.name
  }

  /** Element `i` is gone, and the component that bears its key, which is deleted if it has no other
      parent. */
  ghost predicate TakenOut(a: Arr, i: nat, a': Arr)
    requires i < |a.elements|
  {
    && a'.elements == a.elements[..i] + a.elements[i + 1..]
    && exists c :: c in a.components && c.name == a.elements[i].key && a'.components == Without(a.components, c)
                   && a'.deleted == a.deleted + if c.elsewhere then [] else [c.nodeId]
  }

  /** Removal throws exactly when there is no such element, and otherwise takes out that element. */
  lemma RemovesDesignated(a: Arr, s: Selector)
    requires InStep(a)
    ensures var out := RemoveElement(a, s);
      && (out.Thrown? <==> !exists i: nat :: i < |a.elements| && Designates(a, s, i))
      && (forall i: nat :: i < |a.elements| && Designates(a, s, i) ==> TakenOut(a, i, out.arr))
  {
    hide InStep, RemoveElementByIndex, TakenOut;
    var n := Index(a, s);
    RemoveKeepsInStep(a, s);
    forall i: nat | i < |a.elements|
      ensures Designates(a, s, i) <==> i == n
    {
    }
    if n >= 0 {
      assert Designates(a, s, n);
      RemovesWithComponent(a, n);
    }
  }

  lemma RemovesWithComponent(a: Arr, i: nat)
    requires InStep(a) && i < |a.elements|
    ensures TakenOut(a, i, RemoveElementByIndex(a, i).arr)
  {
    var key := a.elements[i].key;
    assert Keys(a.elements)[i] == key;
    NamedOnce(a.components, key);
    var c := Named(a.components, key)[0];
    assert c in a.components && c.name == key && RemoveElementByIndex(a, i).arr.components == Without(a.components, c);
  }

  /** What is added under a new key and removed by that key leaves elements and components as they were. */
  lemma AddThenRemoveRestores(a: Arr, e: NewElement)
    requires InStep(a) && AddElement(a, e).Done? && Keyed(a, e)
    ensures var out := RemoveElement(AddElement(a, e).arr, ByFunctor((x: ExtensionObject) => x.key == e.content.key));
      out.Done? && out.arr.elements == a.elements && out.arr.components == a.components
  {
    var a', f, n := AddElement(a, e).arr, (x: ExtensionObject) => x.key == e.content.key, |a.elements|;
    var c := if e.Data? then Component(e.newNodeId, e.content.key, false) else e.variable;
    AddKeepsInStep(a, e);
    forall j | 0 <= j < n
      ensures !f(a'.elements[j])
    {
      assert Keys(a.elements)[j] == a'.elements[j].key;
    }
    assert Designates(a', ByFunctor(f), n);
    assert a'.elements[..n] + a'.elements[n + 1..] == a.elements;
    RemovesDesignated(a', ByFunctor(f));
    var d :| d in a'.components && d.name == e.content.key
      && RemoveElement(a', ByFunctor(f)).arr.components == Without(a'.components, d);
    NotNamed(a.components, e.content.key);
    assert e.content.key !in ComponentNames(a.components);
    assert d == c;
    WithoutLast(a.components, c);
  }

  lemma NotNamed(components: seq<Component>, name: string)
    requires name !in ComponentNames(components)
    ensures forall c :: c in components ==> c.name != name
  {
    forall c | c in components
      ensures c.name != name
    {
      NameOf(components, c.name);
    }
  }

  lemma KeysWithoutOne(elements: seq<ExtensionObject>, i: nat)
    requires i < |elements| && NoDup(Keys(elements))
    ensures var left := Keys(elements[..i] + elements[i + 1..]);
      NoDup(left) && forall k :: k in left <==> k in Keys(elements) && k != elements[i].key
  {
    var keys, left := Keys(elements), Keys(elements[..i] + elements[i + 1..]);
    assert left == keys[..i] + keys[i + 1..];
    assert keys == keys[..i] + [keys[i]] + keys[i + 1..];
    NoDupConcat(keys[..i], keys[i + 1..]);
  }

  // ---- no node is lost --------------------------------------------------------------------------

  /** No two components are one node, and no deleted node is a component. */
  ghost predicate DistinctNodes(a: Arr) {
    && (forall i, j :: 0 <= i < j < |a.components| ==> a.components[i].nodeId != a.components[j].nodeId)
    && forall c :: c in a.components ==> c.nodeId !in a.deleted
  }

  /** The nodes that hang below the array alone, or did until they were deleted. */
  function Kept(a: Arr): set<NodeId> {
    (set c | c in a.components && !c.elsewhere :: c.nodeId) + set id | id in a.deleted
  }

  /** Removal deletes the component exactly when the array was its only parent, so no node is left
      without a parent and none that has one is deleted. */
  lemma RemoveLosesNoNode(a: Arr, s: Selector)
    requires InStep(a) && DistinctNodes(a)
    ensures var a' := RemoveElement(a, s).arr;
      DistinctNodes(a') && Kept(a') == Kept(a) && a.deleted <= a'.deleted
  {
    var i := Index(a, s);
    if i >= 0 {
      var key := a.elements[i].key;
      assert Keys(a.elements)[i] == key;
      NamedOnce(a.components, key);
      var c := Named(a.components, key)[0];
      var a' := RemoveElement(a, s).arr;
      assert a'.components == Without(a.components, c) && a'.deleted == a.deleted + Orphan(c);
      hide RemoveElement, InStep, DistinctNodes, Kept, Named, Without;
      StillDistinct(a, c, a');
      KeptAfterRemoval(a, c, a');
    }
  }

  lemma StillDistinct(a: Arr, c: Component, a': Arr)
    requires DistinctNodes(a) && c in a.components
    requires a'.components == Without(a.components, c) && a'.deleted == a.deleted + Orphan(c)
    ensures DistinctNodes(a')
  {
    WithoutDistinct(a.components, c);
  }

  lemma KeptAfterRemoval(a: Arr, c: Component, a': Arr)
    requires c in a.components && a'.components == Without(a.components, c) && a'.deleted == a.deleted + Orphan(c)
    ensures Kept(a') == Kept(a)
  {
    forall id
      ensures id in Kept(a') <==> id in Kept(a)
    {
      if d :| d in a.components && !d.elsewhere && d.nodeId == id {
        assert d == c || d in a'.components;
      }
    }
  }

  lemma WithoutDistinct(components: seq<Component>, c: Component)
    requires forall i, j :: 0 <= i < j < |components| ==> components[i].nodeId != components[j].nodeId
    requires c in components
    ensures var left := Without(components, c);
      && (forall i, j :: 0 <= i < j < |left| ==> left[i].nodeId != left[j].nodeId)
      && forall d :: d in left ==> d.nodeId != c.nodeId
  {
    assert NoDup(components);
    WithoutNoDup(components, c);
    var left := Without(components, c);
    forall d, e | d in components && e in components && d != e
      ensures d.nodeId != e.nodeId
    {
      var i :| 0 <= i < |components| && components[i] == d;
      var j :| 0 <= j < |components| && components[j] == e;
    }
    assert forall i :: 0 <= i < |left| ==> left[i] in components;
  }

  // ---- runs -----------------------------------------------------------------------------------

  datatype Step = Add(element: NewElement) | Remove(selector: Selector)

  function Apply(a: Arr, s: Step): Arr {
    match s
    case Add(e) => AddElement(a, e).arr
    case Remove(r) => RemoveElement(a, r).arr
  }

  function Run(a: Arr, steps: seq<Step>): Arr
    decreases |steps|
  {
    if steps == [] then a else Run(Apply(a, steps[0]), steps[1..])
  }

  ghost predicate KeyedRun(a: Arr, steps: seq<Step>)
    decreases |steps|
  {
    steps != [] ==>
      && (steps[0].Add? && AddElement(a, steps[0].element).Done? ==> Keyed(a, steps[0].element))
      && KeyedRun(Apply(a, steps[0]), steps[1..])
  }

  lemma {:induction false} RunKeepsInStep(a: Arr, steps: seq<Step>)
    requires InStep(a) && KeyedRun(a, steps)
    ensures InStep(Run(a, steps))
    decreases |steps|
  {
    if steps != [] {
      match steps[0] {
        case Add(e) =>
          if AddElement(a, e).Done? {
            AddKeepsInStep(a, e);
          }
        case Remove(r) => RemoveKeepsInStep(a, r);
      }
      RunKeepsInStep(Apply(a, steps[0]), steps[1..]);
    }
  }

  /** Two elements with the same key: the element is removed, its components stay. */
  lemma DuplicateKeyBreaksRemoval()
    ensures var e := ExtensionObject("7", 0);
      var a := Run(Arr([], [], []), [Add(Data(e, "A", false)), Add(Data(e, "B", false))]);
      RemoveElement(a, ByIndex(1)) == Thrown(Arr([e], [Component("A", "7", false), Component("B", "7", false)], []))
  {
    var e, c1, c2 := ExtensionObject("7", 0), Component("A", "7", false), Component("B", "7", false);
    var s1, s2 := Add(Data(e, "A", false)), Add(Data(e, "B", false));
    var a1, a2 := Arr([e], [c1], []), Arr([e, e], [c1, c2], []);
    assert [] + [e] == [e] && [] + [c1] == [c1];
    assert Apply(Arr([], [], []), s1) == a1;
    assert [e] + [e] == [e, e] && [c1] + [c2] == [c1, c2];
    assert Apply(a1, s2) == a2;
    assert [s1, s2][1..] == [s2] && [s2][1..] == [];
    assert Run(a1, [s2]) == Run(a2, []);
    assert Run(Arr([], [], []), [s1, s2]) == Run(a1, [s2]);
    assert [c1, c2][1..] == [c2] && [c2][1..] == [];
    assert Named([c2], "7") == [c2];
    assert Named([c1, c2], "7") == [c1] + [c2];
    assert a2.elements[..1] + a2.elements[2..] == [e];
  }

  // ---- the array variable ---------------------------------------------------------------------

  class DynamicVariableArray {
    var extensionObjectArray: seq<ExtensionObject>
    var components: seq<Component>
    var deleted: seq<NodeId>

    function Abs(): Arr
      reads this
    {
      Arr(extensionObjectArray, components, deleted)
    }

    constructor ()
      ensures Abs() == Arr([], [], []) && InStep(Abs())
    {
      extensionObjectArray, components, deleted := [], [], [];
    }

    /** False when it throws. */
    method Add(e: NewElement) returns (ok: bool)
      modifies this
      ensures ok == AddElement(old(Abs()), e).Done? && Abs() == AddElement(old(Abs()), e).arr
      ensures ok <==> if e.Data? then !e.taken else forall c :: c in old(components) ==> c.nodeId != e.variable.nodeId
      ensures extensionObjectArray == old(extensionObjectArray) + if ok then [e.content] else []
    {
      if e.Existing? {
        for i := 0 to |components|
          invariant forall j :: 0 <= j < i ==> components[j].nodeId != e.variable.nodeId
          invariant Abs() == old(Abs())
        {
          if components[i].nodeId == e.variable.nodeId {
            assert components[i] in components;
            return false;
          }
        }
        components := components + [e.variable];
      } else {
        if e.taken {
          return false;
        }
        components := components + [Component(e.newNodeId, e.content.key, false)];
      }
      extensionObjectArray := extensionObjectArray + [e.content];
      ok := true;
    }

    method Find(functor: ExtensionObject -> bool) returns (index: int)
      ensures index == FindIndex(extensionObjectArray, functor)
    {
      for i := 0 to |extensionObjectArray|
        invariant forall j :: 0 <= j < i ==> !functor(extensionObjectArray[j])
      {
        if functor(extensionObjectArray[i]) {
          return i;
        }
      }
      index := -1;
    }

    method RemoveByIndex(elementIndex: nat) returns (ok: bool)
      requires elementIndex < |extensionObjectArray|
      modifies this
      ensures var out := RemoveElementByIndex(old(Abs()), elementIndex);
        ok == out.Done? && Abs() == out.arr
    {
      var browseName := extensionObjectArray[elementIndex].key;
      extensionObjectArray := extensionObjectArray[..elementIndex] + extensionObjectArray[elementIndex + 1..];
      var select := Named(components, browseName);
      if |select| != 1 {
        return false;
      }
      components := Without(components, select[0]);
      if !select[0].elsewhere {
        deleted := deleted + [select[0].nodeId];
      }
      ok := true;
    }

    method Remove(s: Selector) returns (ok: bool)
      modifies this
      ensures var out := RemoveElement(old(Abs()), s);
        ok == out.Done? && Abs() == out.arr
      ensures ok ==>
        exists i: nat | i < |old(extensionObjectArray)| && Designates(old(Abs()), s, i) ::
          extensionObjectArray == old(extensionObjectArray)[..i] + old(extensionObjectArray)[i + 1..]
    {
      ghost var a := Abs();
      assert Index(a, s) >= 0 ==> Designates(a, s, Index(a, s));
      if (s.ByIndex? && s.index == 0) || |extensionObjectArray| == 0 {
        return false;
      }
      var elementIndex := -1;
      match s {
        case ByIndex(i) =>
          if !(0 <= i < |extensionObjectArray|) {
            return false;
          }
          elementIndex := i;
        case ByFunctor(f) =>
          elementIndex := Find(f);
        case ByVariable(v) =>
          elementIndex := Find((e: ExtensionObject) => e.key == v.name);
      }
      if elementIndex < 0 {
        return false;
      }
      ok := RemoveByIndex(elementIndex);
    }
  }
}

/** verifyCycle: does a package depend, through other packages of the repository, on itself? */
module DependencyCycles {
  import opened Common
  import opened Reachability

  type Package = string

  class DependencyGraph {
    var graph: map<Package, seq<Package>>

    constructor ()
      ensures graph == map[]
    {
      graph := map[];
    }

    /** False when it throws because the package is already there, or seems to be. */
    method AddDependencies(parent: Package, children: seq<Package>) returns (ok: bool)
      modifies this
      ensures ok <==> parent !in old(graph) && !Inherited(parent)
      ensures graph == if ok then old(graph)[parent := children] else old(graph)
    {
      if parent in graph || Inherited(parent) {
        return false;
      }
      graph := graph[parent := children];
      ok := true;
    }

    /** None when it throws: on a package that is not recorded, and on the way to one that only seems to
        be. */
    method VerifyCycle(parent: Package) returns (cycleCount: Option<nat>)
      ensures parent !in graph ==> cycleCount.None?
      ensures cycleCount.None? ==> parent !in graph || LeadsAstray(graph, parent)
      ensures cycleCount == Some(0) ==> !LeadsAstray(graph, parent)
      ensures cycleCount.Some? ==> (cycleCount.value > 0 <==> OnCycle(graph, parent))
    {
      if parent !in graph {
        return None;
      }
      ghost var net := Recorded(graph);
      forall child | child in graph[parent]
        ensures Reaches(net, parent, child)
      {
        OneStep(net, parent, child);
      }
      var search := new Search(graph, parent);
      var ok := search.Visit(graph[parent]);
      if !ok {
        return None;
      }
      if search.cycleCount == 0 {
        NoHitNoCycle(graph, parent, search.m);
      }
      cycleCount := Some(search.cycleCount);
    }
  }

  /** Only packages with an entry of their own are searched further. */
  function Recorded(graph: map<Package, seq<Package>>): Net<Package> {
    Net(graph, graph.Keys)
  }

  ghost predicate OnCycle(graph: map<Package, seq<Package>>, parent: Package) {
    Reaches(Recorded(graph), parent, parent)
  }

  /** Among the packages it depends on is one that is not recorded but that the table inherits. */
  ghost predicate LeadsAstray(graph: map<Package, seq<Package>>, parent: Package) {
    exists x :: Reaches(Recorded(graph), parent, x) && x !in graph && Inherited(x)
  }

  /** Everything on the list is visited or plainly not recorded. */
  predicate Done(graph: map<Package, seq<Package>>, seen: set<Package>, list: seq<Package>) {
    forall y :: y in list ==> if y in graph then y in seen else !Inherited(y)
  }

  /** A visited package is recorded, does not depend on `parent`, and its own packages are done. */
  ghost predicate Closed(graph: map<Package, seq<Package>>, parent: Package, seen: set<Package>, from: set<Package>) {
    forall x :: x in from ==> x in graph && parent !in graph[x] && Done(graph, seen, graph[x])
  }

  lemma NoHitNoCycle(graph: map<Package, seq<Package>>, parent: Package, seen: set<Package>)
    requires parent in graph && Closed(graph, parent, seen, seen)
    requires Done(graph, seen, graph[parent])
    ensures !OnCycle(graph, parent) && !LeadsAstray(graph, parent)
  {
    var net := Recorded(graph);
    forall x | Reaches(net, parent, x)
      ensures if x in graph then x in seen else !Inherited(x)
    {
      ClosedHoldsReached(net, parent, y => if y in graph then y in seen else !Inherited(y), x);
    }
    if Reaches(net, parent, parent) {
      LastStep(net, parent, parent);
      assert false;
    }
  }

  class Search {
    const graph: map<Package, seq<Package>>
    const parent: Package
    var m: set<Package>
    var cycleCount: nat

    constructor (graph: map<Package, seq<Package>>, parent: Package)
      ensures this.graph == graph && this.parent == parent && m == {} && cycleCount == 0
    {
      this.graph, this.parent := graph, parent;
      m, cycleCount := {}, 0;
    }

    /** The search stops looking at the rest of a list after a hit, so only a run without any hit is
        complete. False when it throws on a package that only seems to be recorded. */
    method Visit(cur: seq<Package>) returns (ok: bool)
      requires parent in graph && m <= graph.Keys
      requires forall child :: child in cur ==> Reaches(Recorded(graph), parent, child)
      modifies this
      ensures old(m) <= m <= graph.Keys && cycleCount >= old(cycleCount)
      ensures cycleCount > old(cycleCount) ==> OnCycle(graph, parent)
      ensures !ok ==> LeadsAstray(graph, parent)
      ensures ok && cycleCount == old(cycleCount) ==>
        && Closed(graph, parent, m, m - old(m))
        && Done(graph, m, cur)
      decreases graph.Keys - m
    {
      ghost var before, count := m, cycleCount;
      for i := 0 to |cur|
        invariant before <= m <= graph.Keys && cycleCount >= count
        invariant cycleCount > count ==> OnCycle(graph, parent)
        invariant cycleCount == count ==>
          && Closed(graph, parent, m, m - before)
          && Done(graph, m, cur[..i])
      {
        var child := cur[i];
        assert cur[..i + 1] == cur[..i] + [child];
        if child !in graph {
          if Inherited(child) {
            return false;
          }
          continue;
        }
        if child in m {
          continue;
        }
        var c := graph[child];
        ghost var net := Recorded(graph);
        if parent in c {
          StepAfter(net, parent, child, parent);
          cycleCount := cycleCount + 1;
          return true;
        }
        forall y | y in c
          ensures Reaches(net, parent, y)
        {
          StepAfter(net, parent, child, y);
        }
        m := m + {child};
        var deeper := Visit(c);
        if !deeper {
          return false;
        }
      }
      assert cur[..|cur|] == cur;
      ok := true;
    }
  }
}

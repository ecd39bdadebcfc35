/** extractRootViews: a breadth-first search up the hierarchical references. */
module RootViews {
  import opened Common
  import opened References
  import opened Reachability

  /** `parents` lists the sources of the inverse hierarchical references of a node, one entry per
      reference. */
  datatype Hierarchy = Hierarchy(parents: map<NodeId, seq<NodeId>>, views: set<NodeId>, objectsFolder: NodeId) {
    /** Views and the Objects folder are registered; a parent need not be. */
    predicate Valid() {
      views <= parents.Keys && objectsFolder in parents
    }
  }

  /** The local state of the search. */
  datatype Search = Search(q: seq<NodeId>, visited: set<NodeId>, results: seq<NodeId>)

  function NotFolder(ps: seq<NodeId>, folder: NodeId): (qs: seq<NodeId>)
    ensures forall p :: p in qs <==> p in ps && p != folder
  {
    if ps == [] then [] else (if ps[0] == folder then [] else [ps[0]]) + NotFolder(ps[1..], folder)
  }

  /** Steps to parents other than the Objects folder, never continuing from a view. */
  function Upwards(h: Hierarchy): Net<NodeId> {
    Net(map n | n in h.parents :: NotFolder(h.parents[n], h.objectsFolder), h.parents.Keys - h.views)
  }

  predicate OneUp(h: Hierarchy, n: NodeId, parent: NodeId) {
    n in h.parents && parent in h.parents[n] && parent != h.objectsFolder
  }

  /** A way up: each node is a parent of the one before and not the Objects folder, and no view stands in
      between. */
  ghost predicate WayUp(h: Hierarchy, p: seq<NodeId>) {
    && |p| >= 2
    && (forall i :: 0 <= i < |p| - 1 ==> OneUp(h, p[i], p[i + 1]))
    && (forall i :: 0 < i < |p| - 1 ==> p[i] !in h.views)
  }

  lemma UpwardsMeans(h: Hierarchy, node: NodeId, x: NodeId)
    ensures Reaches(Upwards(h), node, x) <==> exists p :: WayUp(h, p) && p[0] == node && p[|p| - 1] == x
  {
    var net := Upwards(h);
    forall p
      ensures Walk(net, p) <==> WayUp(h, p)
    {
      forall x, y
        ensures y in Next(net, x) <==> OneUp(h, x, y)
      {
      }
      hide Next;
      if WayUp(h, p) {
        forall i | 0 < i < |p| - 1
          ensures p[i] in net.through
        {
          assert OneUp(h, p[i], p[i + 1]);
        }
      }
    }
  }

  /** Everything a node that has been taken from the queue leads to is recorded. */
  ghost predicate Explored(h: Hierarchy, n: NodeId, visited: set<NodeId>, results: seq<NodeId>) {
    n in h.parents && Seen(h, h.parents[n], visited, results)
  }

  predicate Seen(h: Hierarchy, ps: seq<NodeId>, visited: set<NodeId>, results: seq<NodeId>) {
    forall p :: p in ps && p != h.objectsFolder ==> if p in h.views then p in results else p in visited
  }

  ghost predicate Recorded(h: Hierarchy, node: NodeId, visited: set<NodeId>, results: seq<NodeId>) {
    && (forall v :: v in results ==> v in h.views && Reaches(Upwards(h), node, v))
    && (forall n :: n in visited ==> n in h.parents && n !in h.views && Reaches(Upwards(h), node, n))
  }

  /** `added` are the nodes that `visited'` has in addition to `visited`. */
  ghost predicate Marks(visited: set<NodeId>, visited': set<NodeId>, added: seq<NodeId>) {
    && NoDup(added) && (forall n :: n in added ==> n !in visited)
    && forall n :: n in visited' <==> n in visited || n in added
  }

  lemma MarksOneMore(visited: set<NodeId>, visited': set<NodeId>, added: seq<NodeId>, n: NodeId)
    requires Marks(visited, visited', added) && n !in visited'
    ensures Marks(visited, visited' + {n}, added + [n])
  {
    NoDupAppend(added, n);
  }

  /** The nodes taken from the queue and those still in it: the start and then the marked ones. */
  ghost predicate Queued(node: NodeId, order: seq<NodeId>, q: seq<NodeId>, visited: set<NodeId>) {
    order + q != [] && (order + q)[0] == node && Marks({}, visited, (order + q)[1..])
  }

  lemma OneTurn(node: NodeId, order: seq<NodeId>, q: seq<NodeId>, visited: set<NodeId>, visited': set<NodeId>,
      added: seq<NodeId>)
    requires q != [] && Queued(node, order, q, visited) && Marks(visited, visited', added)
    ensures Queued(node, order + [q[0]], q[1..] + added, visited')
    ensures added == [] ==> visited' == visited
    ensures added != [] ==> visited < visited'
  {
    var marked := (order + q)[1..];
    assert (order + [q[0]]) + (q[1..] + added) == (order + q) + added;
    assert ((order + q) + added)[1..] == marked + added;
    NoDupConcat(marked, added);
    if added != [] {
      assert added[0] in visited' && added[0] !in visited;
    }
  }

  function ViewsAmong(h: Hierarchy, ps: seq<NodeId>): seq<NodeId> {
    if ps == [] then []
    else
      var p := ps[|ps| - 1];
      ViewsAmong(h, ps[..|ps| - 1]) + if p in h.views && p != h.objectsFolder then [p] else []
  }

  /** The view parents of the nodes of `order`, one after the other. */
  function Gathered(h: Hierarchy, order: seq<NodeId>): seq<NodeId> {
    if order == [] then []
    else
      var n := order[|order| - 1];
      Gathered(h, order[..|order| - 1]) + if n in h.parents then ViewsAmong(h, h.parents[n]) else []
  }

  lemma GatheredNext(h: Hierarchy, order: seq<NodeId>, n: NodeId)
    requires n in h.parents
    ensures Gathered(h, order + [n]) == Gathered(h, order) + ViewsAmong(h, h.parents[n])
  {
    assert (order + [n])[..|order|] == order;
  }

  ghost predicate AllExplored(h: Hierarchy, order: seq<NodeId>, visited: set<NodeId>, results: seq<NodeId>) {
    forall n :: n in order ==> Explored(h, n, visited, results)
  }

  lemma StillExplored(h: Hierarchy, order: seq<NodeId>, visited: set<NodeId>, results: seq<NodeId>, n: NodeId,
      visited': set<NodeId>, results': seq<NodeId>)
    requires AllExplored(h, order, visited, results) && visited <= visited' && results <= results'
    requires Explored(h, n, visited', results')
    ensures AllExplored(h, order + [n], visited', results')
  {
    assert forall p :: p in results ==> p in results';
  }

  /** Some reference on the way up is dangling. */
  ghost predicate Dangling(h: Hierarchy, node: NodeId) {
    exists p :: Reaches(Upwards(h), node, p) && p !in h.parents
  }

  /** Such a node: "A" is organized by a node that was never registered. */
  lemma OrganizedByNobody()
    ensures Dangling(Hierarchy(map["Objects" := [], "A" := ["Gone"]], {}, "Objects"), "A")
  {
    var h := Hierarchy(map["Objects" := [], "A" := ["Gone"]], {}, "Objects");
    assert NotFolder(["Gone"], "Objects") == ["Gone"] + NotFolder([], "Objects");
    OneStep(Upwards(h), "A", "Gone");
  }

  /** It throws exactly when a dangling reference can be reached. Otherwise the views found are exactly
      those that can be reached without passing through the Objects folder or another view. The start
      is searched first and every other node in between exactly once, the start again if it lies on a
      cycle; a view is listed once for each of its references to a searched node. */
  method ExtractRootViews(h: Hierarchy, node: NodeId) returns (views: Option<seq<NodeId>>, ghost order: seq<NodeId>)
    requires h.Valid() && node in h.parents && node !in h.views
    ensures views.None? <==> Dangling(h, node)
    ensures views.Some? ==>
      && (forall v :: v in views.value <==> v in h.views && Reaches(Upwards(h), node, v))
      && views.value == Gathered(h, order)
      && order != [] && order[0] == node && NoDup(order[1..])
      && (forall n :: n in order[1..] <==> n !in h.views && Reaches(Upwards(h), node, n))
  {
    var s := Search([node], {}, []);
    order := [];
    assert (order + s.q)[1..] == [];
    while s.q != []
      invariant Queued(node, order, s.q, s.visited)
      invariant Recorded(h, node, s.visited, s.results) && s.results == Gathered(h, order)
      invariant AllExplored(h, order, s.visited, s.results)
      decreases h.parents.Keys - s.visited, |s.q|
    {
      var current := s.q[0];
      TakenIsKnown(node, order, s.q, s.visited);
      var ok, s', added := ScanParents(h, node, current, s.(q := s.q[1..]));
      if !ok {
        return None, order;
      }
      OneTurn(node, order, s.q, s.visited, s'.visited, added);
      GatheredNext(h, order, current);
      StillExplored(h, order, s.visited, s.results, current, s'.visited, s'.results);
      order := order + [current];
      s := s';
    }
    assert order + [] == order;
    AllFound(h, node, order, s.visited, s.results);
    views := Some(s.results);
  }

  lemma TakenIsKnown(node: NodeId, order: seq<NodeId>, q: seq<NodeId>, visited: set<NodeId>)
    requires q != [] && Queued(node, order, q, visited)
    ensures q[0] == node || q[0] in visited
  {
    var all := order + q;
    assert all[|order|] == q[0];
    assert |order| > 0 ==> all[1..][|order| - 1] == q[0];
  }

  predicate IsNew(h: Hierarchy, s: Search, p: NodeId) {
    p != h.objectsFolder && p !in h.views && p !in s.visited
  }

  /** What a parent does to the search: it is queued and marked, listed, or passed over. */
  function AfterParent(h: Hierarchy, s: Search, p: NodeId): Search {
    if IsNew(h, s, p) then s.(q := s.q + [p], visited := s.visited + {p})
    else if p in h.views && p != h.objectsFolder then s.(results := s.results + [p])
    else s
  }

  /** What the parents `ps` of a node have done to the search `s`. */
  ghost predicate Scanned(h: Hierarchy, node: NodeId, ps: seq<NodeId>, s: Search, s': Search, added: seq<NodeId>) {
    && Marks(s.visited, s'.visited, added) && s'.q == s.q + added
    && s'.results == s.results + ViewsAmong(h, ps)
    && Recorded(h, node, s'.visited, s'.results)
    && Seen(h, ps, s'.visited, s'.results)
  }

  lemma NothingScanned(h: Hierarchy, node: NodeId, s: Search)
    requires Recorded(h, node, s.visited, s.results)
    ensures Scanned(h, node, [], s, s, [])
  {
    hide Recorded;
    assert s.q + [] == s.q && s.results + [] == s.results;
  }

  lemma SeenNext(h: Hierarchy, ps: seq<NodeId>, p: NodeId, s: Search)
    requires Seen(h, ps, s.visited, s.results)
    ensures Seen(h, ps + [p], AfterParent(h, s, p).visited, AfterParent(h, s, p).results)
  {
    assert forall x :: x in s.results ==> x in s.results + [p];
  }

  lemma ViewsAmongNext(h: Hierarchy, ps: seq<NodeId>, p: NodeId)
    ensures ViewsAmong(h, ps + [p]) == ViewsAmong(h, ps) + if p in h.views && p != h.objectsFolder then [p] else []
  {
    assert (ps + [p])[..|ps|] == ps;
  }

  lemma ScannedNext(h: Hierarchy, node: NodeId, current: NodeId, ps: seq<NodeId>, p: NodeId, s: Search, s': Search,
      added: seq<NodeId>)
    requires node !in h.views && Recorded(h, node, s.visited, s.results) && (current == node || current in s.visited)
    requires current in h.parents && p in h.parents[current] && p in h.parents
    requires Scanned(h, node, ps, s, s', added)
    ensures Scanned(h, node, ps + [p], s, AfterParent(h, s', p), if IsNew(h, s', p) then added + [p] else added)
  {
    ParentRecorded(h, node, current, p, s, s');
    SeenNext(h, ps, p, s');
    ViewsAmongNext(h, ps, p);
    hide Recorded, Marks, Seen, ViewsAmong;
    if IsNew(h, s', p) {
      MarksOneMore(s.visited, s'.visited, added, p);
      AppendAssoc(s.q, added, [p]);
    } else if p in h.views && p != h.objectsFolder {
      AppendAssoc(s.results, ViewsAmong(h, ps), [p]);
    }
  }

  /** The inner loop: the parents of a node just taken from the queue. False when it throws on a parent
      that is not registered. */
  method ScanParents(h: Hierarchy, node: NodeId, current: NodeId, s: Search)
    returns (ok: bool, s': Search, ghost added: seq<NodeId>)
    requires h.Valid() && (current == node || current in s.visited)
    requires node in h.parents && node !in h.views && Recorded(h, node, s.visited, s.results)
    ensures ok <==> forall p :: p in h.parents[current] ==> p in h.parents
    ensures !ok ==> Dangling(h, node)
    ensures ok ==> Scanned(h, node, h.parents[current], s, s', added)
  {
    s', added := s, [];
    var parentNodes := h.parents[current];
    NothingScanned(h, node, s);
    hide Scanned, Recorded;
    for i := 0 to |parentNodes|
      invariant forall p :: p in parentNodes[..i] ==> p in h.parents
      invariant Scanned(h, node, parentNodes[..i], s, s', added)
    {
      var parent := parentNodes[i];
      ghost var done := parentNodes[..i];
      assert parentNodes[..i + 1] == done + [parent];
      if parent !in h.parents {
        ParentReached(h, node, current, parent, s);
        ok := false;
        return;
      }
      ScannedNext(h, node, current, done, parent, s, s', added);
      if parent == h.objectsFolder {
        continue;
      }
      if parent in h.views {
        s' := s'.(results := s'.results + [parent]);
      } else {
        if parent in s'.visited {
          continue;
        }
        s' := s'.(q := s'.q + [parent], visited := s'.visited + {parent});
        added := added + [parent];
      }
    }
    assert parentNodes[..|parentNodes|] == parentNodes;
    ok := true;
  }

  lemma AllFound(h: Hierarchy, node: NodeId, order: seq<NodeId>, visited: set<NodeId>, results: seq<NodeId>)
    requires h.Valid() && Queued(node, order, [], visited)
    requires Recorded(h, node, visited, results) && AllExplored(h, order, visited, results)
    ensures !Dangling(h, node)
    ensures forall v :: v in results <==> v in h.views && Reaches(Upwards(h), node, v)
    ensures forall n :: n in order[1..] <==> n !in h.views && Reaches(Upwards(h), node, n)
  {
    assert order + [] == order;
    assert node in order && forall n :: n in visited ==> n in order[1..] && n in order;
    assert Explored(h, node, visited, results);
    assert forall n :: n in visited ==> Explored(h, n, visited, results);
    AllReached(h, node, visited, results);
  }

  lemma AllReached(h: Hierarchy, node: NodeId, visited: set<NodeId>, results: seq<NodeId>)
    requires Explored(h, node, visited, results) && forall n :: n in visited ==> Explored(h, n, visited, results)
    requires forall v :: v in results ==> v in h.views
    ensures forall n :: Reaches(Upwards(h), node, n) ==> n in visited || n in results
  {
    forall n | Reaches(Upwards(h), node, n)
      ensures n in visited || n in results
    {
      ClosedHoldsReached(Upwards(h), node, x => x in visited || x in results, n);
    }
  }

  lemma ParentReached(h: Hierarchy, node: NodeId, current: NodeId, parent: NodeId, s: Search)
    requires node !in h.views && Recorded(h, node, s.visited, s.results) && (current == node || current in s.visited)
    requires current in h.parents && parent in h.parents[current] && parent != h.objectsFolder
    ensures Reaches(Upwards(h), node, parent)
  {
    UpwardsStep(h, node, current, parent);
  }

  lemma ParentRecorded(h: Hierarchy, node: NodeId, current: NodeId, parent: NodeId, s: Search, s': Search)
    requires node !in h.views && Recorded(h, node, s.visited, s.results) && (current == node || current in s.visited)
    requires current in h.parents && parent in h.parents[current] && parent in h.parents
    requires Recorded(h, node, s'.visited, s'.results)
    ensures Recorded(h, node, AfterParent(h, s', parent).visited, AfterParent(h, s', parent).results)
  {
    if parent != h.objectsFolder {
      ParentReached(h, node, current, parent, s);
    }
  }

  lemma UpwardsStep(h: Hierarchy, node: NodeId, current: NodeId, parent: NodeId)
    requires current in h.parents && parent in h.parents[current] && parent != h.objectsFolder
    requires current == node || (current !in h.views && Reaches(Upwards(h), node, current))
    ensures Reaches(Upwards(h), node, parent)
  {
    var net := Upwards(h);
    assert parent in Next(net, current);
    if current == node {
      OneStep(net, node, parent);
    } else {
      StepAfter(net, node, current, parent);
    }
  }
}

/** Nested model-change transactions: changes are collected while a transaction is open and flushed
    when the outermost one ends, also when its body throws. */
module ModelChanges {
  import opened Common
  import opened References

  datatype Verb = NodeAdded | NodeDeleted | ReferenceAdded | ReferenceDeleted | DataTypeChanged

  datatype Change = Change(affected: NodeId, verb: Verb)

  /** The code that runs inside and around transactions: collecting, throwing, opening a
      transaction, and catching what a part of it throws. */
  datatype Code =
    | Collect(change: Change)
    | Throw
    | Transaction(body: seq<Code>)
    | Attempt(body: seq<Code>)

  // ---- what a run means -----------------------------------------------------------------------

  predicate Throws(body: seq<Code>) {
    if body == [] then false
    else match body[0]
      case Collect(_) => Throws(body[1..])
      case Throw => true
      case Transaction(inner) => Throws(inner) || Throws(body[1..])
      case Attempt(inner) => Throws(body[1..])
  }

  /** Every change collected, in order, up to the throw that ends the run if there is one. */
  function Collected(body: seq<Code>): seq<Change> {
    if body == [] then []
    else match body[0]
      case Collect(c) => [c] + Collected(body[1..])
      case Throw => []
      case Transaction(inner) => Collected(inner) + if Throws(inner) then [] else Collected(body[1..])
      case Attempt(inner) => Collected(inner) + Collected(body[1..])
  }

  /** What a run adds to the flushes, and the buffer it leaves. */
  datatype Effect = Effect(flushes: seq<seq<Change>>, pending: seq<Change>)

  function Then(first: Effect, next: Effect): Effect {
    Effect(first.flushes + next.flushes, next.pending)
  }

  /** endModelChange, inside another transaction or not */
  function End(nested: bool, e: Effect): Effect {
    if nested || e.pending == [] then e else Effect(e.flushes + [e.pending], [])
  }

  function Run(nested: bool, body: seq<Code>, pending: seq<Change>): Effect
    decreases body
  {
    if body == [] then Effect([], pending)
    else match body[0]
      case Collect(c) => Run(nested, body[1..], pending + [c])
      case Throw => Effect([], pending)
      case Transaction(inner) =>
        var done := End(nested, Run(true, inner, pending));
        if Throws(inner) then done else Then(done, Run(nested, body[1..], done.pending))
      case Attempt(inner) =>
        var first := Run(nested, inner, pending);
        Then(first, Run(nested, body[1..], first.pending))
  }

  /** A run outside any transaction. */
  function Outermost(body: seq<Code>, pending: seq<Change>): Effect {
    Run(false, body, pending)
  }

  function Concat(batches: seq<seq<Change>>): seq<Change> {
    if batches == [] then [] else batches[0] + Concat(batches[1..])
  }

  lemma {:induction false} ConcatAppend(a: seq<seq<Change>>, b: seq<seq<Change>>)
    ensures Concat(a + b) == Concat(a) + Concat(b)
  {
    if a == [] {
      assert a + b == b;
    } else {
      assert (a + b)[1..] == a[1..] + b && (a + b)[0] == a[0];
      ConcatAppend(a[1..], b);
    }
  }

  /** Each change flushed or still pending comes from `pending` or was collected, in order. */
  ghost predicate Conserves(e: Effect, pending: seq<Change>, collected: seq<Change>) {
    && Concat(e.flushes) + e.pending == pending + collected
    && forall i :: 0 <= i < |e.flushes| ==> e.flushes[i] != []
  }

  lemma Regroup(f1: seq<Change>, p1: seq<Change>, f2: seq<Change>, p2: seq<Change>, pending: seq<Change>,
      c1: seq<Change>, c2: seq<Change>)
    requires f1 + p1 == pending + c1 && f2 + p2 == p1 + c2
    ensures (f1 + f2) + p2 == pending + (c1 + c2)
  {
    AppendAssoc(f1, f2, p2);
    AppendAssoc(f1, p1, c2);
    AppendAssoc(pending, c1, c2);
  }

  lemma ThenConserves(e1: Effect, e2: Effect, pending: seq<Change>, c1: seq<Change>, c2: seq<Change>)
    requires Conserves(e1, pending, c1) && Conserves(e2, e1.pending, c2)
    ensures Conserves(Then(e1, e2), pending, c1 + c2)
  {
    ConcatAppend(e1.flushes, e2.flushes);
    Regroup(Concat(e1.flushes), e1.pending, Concat(e2.flushes), e2.pending, pending, c1, c2);
  }

  lemma EndConserves(nested: bool, e: Effect, pending: seq<Change>, c: seq<Change>)
    requires Conserves(e, pending, c)
    ensures Conserves(End(nested, e), pending, c)
  {
    ConcatAppend(e.flushes, [e.pending]);
    assert [e.pending][1..] == [];
    assert Concat([e.pending]) == e.pending;
    var f := Concat(e.flushes) + e.pending;
    assert f + [] == f;
  }

  /** Conservation: the flushes and what is left in the buffer hold every collected change exactly
      once, in collection order; no flush is empty. */
  lemma {:induction false} EveryChangeFlushedOnce(nested: bool, body: seq<Code>, pending: seq<Change>)
    ensures Conserves(Run(nested, body, pending), pending, Collected(body))
    decreases body
  {
    if body != [] {
      match body[0]
      case Collect(c) =>
        EveryChangeFlushedOnce(nested, body[1..], pending + [c]);
        AppendAssoc(pending, [c], Collected(body[1..]));
      case Throw =>
      case Transaction(inner) =>
        var done := End(nested, Run(true, inner, pending));
        EveryChangeFlushedOnce(true, inner, pending);
        EndConserves(nested, Run(true, inner, pending), pending, Collected(inner));
        if Throws(inner) {
          assert Collected(inner) + [] == Collected(inner);
        } else {
          EveryChangeFlushedOnce(nested, body[1..], done.pending);
          ThenConserves(done, Run(nested, body[1..], done.pending), pending, Collected(inner), Collected(body[1..]));
        }
      case Attempt(inner) =>
        var first := Run(nested, inner, pending);
        EveryChangeFlushedOnce(nested, inner, pending);
        EveryChangeFlushedOnce(nested, body[1..], first.pending);
        ThenConserves(first, Run(nested, body[1..], first.pending), pending, Collected(inner), Collected(body[1..]));
    }
  }

  /** Nothing is flushed while a transaction is open. */
  lemma {:induction false} NestedNeverFlushes(body: seq<Code>, pending: seq<Change>)
    ensures Run(true, body, pending) == Effect([], pending + Collected(body))
    decreases body
  {
    NestedFlushesNothing(body, pending);
    EveryChangeFlushedOnce(true, body, pending);
    var e := Run(true, body, pending);
    assert [] + e.pending == e.pending;
  }

  lemma {:induction false} NestedFlushesNothing(body: seq<Code>, pending: seq<Change>)
    ensures Run(true, body, pending).flushes == []
    decreases body
  {
    if body != [] {
      match body[0]
      case Collect(c) => NestedFlushesNothing(body[1..], pending + [c]);
      case Throw =>
      case Transaction(inner) =>
        NestedFlushesNothing(inner, pending);
        NestedFlushesNothing(body[1..], Run(true, inner, pending).pending);
      case Attempt(inner) =>
        NestedFlushesNothing(inner, pending);
        NestedFlushesNothing(body[1..], Run(true, inner, pending).pending);
    }
  }

  /** Changes are only ever collected inside a transaction. */
  predicate Enclosed(body: seq<Code>) {
    forall c :: c in body ==> !c.Collect? && (c.Attempt? ==> Enclosed(c.body))
  }

  /** The collected batches of the transactions that run on the outermost level, in order. */
  function Batches(body: seq<Code>): seq<seq<Change>> {
    if body == [] then []
    else match body[0]
      case Collect(_) => Batches(body[1..])
      case Throw => []
      case Transaction(inner) =>
        [Collected(inner)] + if Throws(inner) then [] else Batches(body[1..])
      case Attempt(inner) => Batches(inner) + Batches(body[1..])
  }

  function NonEmpty(batches: seq<seq<Change>>): seq<seq<Change>> {
    if batches == [] then []
    else (if batches[0] == [] then [] else [batches[0]]) + NonEmpty(batches[1..])
  }

  lemma {:induction false} NonEmptyAppend(a: seq<seq<Change>>, b: seq<seq<Change>>)
    ensures NonEmpty(a + b) == NonEmpty(a) + NonEmpty(b)
  {
    if a == [] {
      assert a + b == b;
    } else {
      assert (a + b)[1..] == a[1..] + b && (a + b)[0] == a[0];
      NonEmptyAppend(a[1..], b);
    }
  }

  lemma NonEmptyCons(batch: seq<Change>, rest: seq<seq<Change>>)
    ensures NonEmpty([batch] + rest) == (if batch == [] then [] else [batch]) + NonEmpty(rest)
  {
    assert ([batch] + rest)[1..] == rest;
  }

  /** Then each outermost transaction is one flush of exactly what it and the transactions nested in
      it collected, unless that is nothing, and the buffer ends empty. */
  lemma {:induction false} OneFlushPerOutermost(body: seq<Code>)
    requires Enclosed(body)
    ensures Outermost(body, []) == Effect(NonEmpty(Batches(body)), [])
    decreases body
  {
    if body != [] {
      assert body[0] in body;
      assert forall c :: c in body[1..] ==> c in body;
      match body[0]
      case Throw =>
      case Transaction(inner) =>
        var batch := Collected(inner);
        NestedNeverFlushes(inner, []);
        assert [] + batch == batch;
        var rest := if Throws(inner) then [] else Batches(body[1..]);
        NonEmptyCons(batch, rest);
        if !Throws(inner) {
          OneFlushPerOutermost(body[1..]);
        }
      case Attempt(inner) =>
        OneFlushPerOutermost(inner);
        OneFlushPerOutermost(body[1..]);
        NonEmptyAppend(Batches(inner), Batches(body[1..]));
    }
  }

  // ---- the handlers ---------------------------------------------------------------------------

  /** A node with or without a NodeVersion property. */
  datatype Versioned = Versioned(nodeId: NodeId, hasVersion: bool)

  /** _handle_add_reference_change_event, for a target that exists */
  function ReferenceAddedEvent(node1: Versioned, node2: Versioned): seq<Code> {
    if node1.hasVersion || node2.hasVersion
    then [Transaction([Collect(Change(node1.nodeId, ReferenceAdded)), Collect(Change(node2.nodeId, ReferenceAdded))])]
    else []
  }

  /** _handle_model_change_event: `parents` are the parent and the organizing folders */
  function NodeAddedEvent(node: Versioned, parents: seq<Versioned>): seq<Code> {
    if parents == [] then [] else NodeAddedUnder(node, parents[0]) + NodeAddedEvent(node, parents[1..])
  }

  function NodeAddedUnder(node: Versioned, parent: Versioned): seq<Code> {
    if !parent.hasVersion then []
    else [Transaction(
      [Collect(Change(node.nodeId, NodeAdded)), Collect(Change(parent.nodeId, ReferenceAdded))]
      + if node.hasVersion then [Collect(Change(node.nodeId, ReferenceAdded))] else [])]
  }

  function DeletedReferences(parents: seq<Versioned>): seq<Code> {
    if parents == [] then []
    else [Collect(Change(parents[0].nodeId, ReferenceDeleted))] + DeletedReferences(parents[1..])
  }

  /** _handle_delete_node_model_change_event */
  function NodeDeletedEvent(node: Versioned, parents: seq<Versioned>): seq<Code> {
    if node.hasVersion || (exists p :: p in parents && p.hasVersion)
    then [Transaction(DeletedReferences(parents) + [Collect(Change(node.nodeId, NodeDeleted))])]
    else []
  }

  function OnlyVersioned(nodes: seq<Versioned>): seq<Versioned> {
    if nodes == [] then [] else (if nodes[0].hasVersion then [nodes[0]] else []) + OnlyVersioned(nodes[1..])
  }

  lemma TransactionFirst(inner: seq<Code>, rest: seq<Code>)
    requires !Throws(inner) && Collected(inner) != []
    ensures Outermost([Transaction(inner)] + rest, []) ==
      Effect([Collected(inner)] + Outermost(rest, []).flushes, Outermost(rest, []).pending)
    ensures !Throws([Transaction(inner)] + rest) <==> !Throws(rest)
    ensures Collected([Transaction(inner)] + rest) == Collected(inner) + Collected(rest)
  {
    var body, batch := [Transaction(inner)] + rest, Collected(inner);
    assert body[0] == Transaction(inner) && body[1..] == rest;
    assert End(false, Run(true, inner, [])) == Effect([batch], []) by {
      NestedNeverFlushes(inner, []);
      assert [] + batch == batch && [] + [batch] == [batch];
    }
  }

  /** A node is added and referenced from `parent`, and from it if it is versioned itself. */
  predicate AddedUnder(node: Versioned, parent: Versioned, batch: seq<Change>) {
    && |batch| == (if node.hasVersion then 3 else 2)
    && batch[0] == Change(node.nodeId, NodeAdded) && batch[1] == Change(parent.nodeId, ReferenceAdded)
    && (node.hasVersion ==> batch[2] == Change(node.nodeId, ReferenceAdded))
  }

  lemma OneParent(node: Versioned, parent: Versioned, rest: seq<Code>)
    requires parent.hasVersion
    ensures var event := NodeAddedUnder(node, parent); var e := Outermost(event + rest, []);
      && |event| == 1 && event[0].Transaction?
      && |e.flushes| > 0 && AddedUnder(node, parent, e.flushes[0])
      && e == Effect([e.flushes[0]] + Outermost(rest, []).flushes, Outermost(rest, []).pending)
      && (Throws(event + rest) <==> Throws(rest))
  {
    var event := NodeAddedUnder(node, parent);
    CollectsAll(event[0].body);
    TransactionFirst(event[0].body, rest);
  }

  /** Outside a transaction, adding a node flushes once per versioned parent, in their order. */
  lemma {:induction false} NodeAddedFlushes(node: Versioned, parents: seq<Versioned>)
    ensures var body := NodeAddedEvent(node, parents);
      && Enclosed(body) && !Throws(body) && Outermost(body, []).pending == []
      && |Outermost(body, []).flushes| == |OnlyVersioned(parents)|
      && forall i :: 0 <= i < |OnlyVersioned(parents)| ==>
        AddedUnder(node, OnlyVersioned(parents)[i], Outermost(body, []).flushes[i])
  {
    if parents != [] {
      var rest := NodeAddedEvent(node, parents[1..]);
      NodeAddedFlushes(node, parents[1..]);
      if parents[0].hasVersion {
        OneParent(node, parents[0], rest);
      } else {
        assert NodeAddedUnder(node, parents[0]) + rest == rest;
      }
    }
  }

  /** Inside a transaction, the same changes go into one flush when the outermost ends. */
  lemma OneFlushInside(body: seq<Code>)
    requires Enclosed(body) && !Throws(body)
    ensures var flushes := Outermost(body, []).flushes;
      Outermost([Transaction(body)], []) == Effect(if flushes == [] then [] else [Concat(flushes)], [])
  {
    var flushes := Outermost(body, []).flushes;
    OneFlushPerOutermost(body);
    EveryChangeFlushedOnce(false, body, []);
    assert Concat(flushes) + [] == Concat(flushes) && [] + Collected(body) == Collected(body);
    if flushes != [] {
      assert Concat(flushes) == flushes[0] + Concat(flushes[1..]);
    }
    NestedNeverFlushes(body, []);
    assert [Transaction(body)][1..] == [];
    assert Run(false, [], []) == Effect([], []);
    assert [Collected(body)] + [] == [Collected(body)];
  }

  lemma {:induction false} CollectsAll(body: seq<Code>)
    requires forall c :: c in body ==> c.Collect?
    ensures !Throws(body) && |Collected(body)| == |body|
    ensures forall i :: 0 <= i < |body| ==> body[i] in body && Collected(body)[i] == body[i].change
  {
    if body != [] {
      assert body[0] in body;
      CollectsAll(body[1..]);
      forall i | 0 <= i < |body|
        ensures body[i] in body && Collected(body)[i] == body[i].change
      {
        assert i > 0 ==> body[i] == body[1..][i - 1];
      }
    }
  }

  lemma {:induction false} DeletedReferencesCollect(parents: seq<Versioned>)
    ensures |DeletedReferences(parents)| == |parents|
    ensures forall i :: 0 <= i < |parents| ==>
      DeletedReferences(parents)[i] == Collect(Change(parents[i].nodeId, ReferenceDeleted))
  {
    if parents != [] {
      DeletedReferencesCollect(parents[1..]);
    }
  }

  /** A deleted node flushes the lost reference of every parent and then itself, if one of them all is
      versioned. */
  lemma NodeDeletedFlushes(node: Versioned, parents: seq<Versioned>)
    ensures var e := Outermost(NodeDeletedEvent(node, parents), []);
      && e.pending == []
      && |e.flushes| == (if node.hasVersion || (exists p :: p in parents && p.hasVersion) then 1 else 0)
      && (e.flushes != [] ==>
            && |e.flushes[0]| == |parents| + 1 && e.flushes[0][|parents|] == Change(node.nodeId, NodeDeleted)
            && forall i :: 0 <= i < |parents| ==> e.flushes[0][i] == Change(parents[i].nodeId, ReferenceDeleted))
  {
    DeletedReferencesCollect(parents);
    var deleted := DeletedReferences(parents) + [Collect(Change(node.nodeId, NodeDeleted))];
    CollectsAll(deleted);
    TransactionFirst(deleted, []);
    assert [Transaction(deleted)] + [] == [Transaction(deleted)];
  }

  // ---- the services ---------------------------------------------------------------------------

  /** A node to be deleted with everything below it, and its parents as they are when its turn comes. */
  datatype Doomed = Doomed(node: Versioned, parents: seq<Versioned>, below: seq<Doomed>)

  datatype Service =
    | AddReference(near: Versioned, far: Versioned)
    /** `version` is the NodeVersion property that is created along with the node, if one is asked for. */
    | CreateNode(node: Versioned, version: Option<NodeId>, parents: seq<Versioned>)
    | DeleteNode(doomed: Doomed)

  /** The version of the new node is a node that is created as well, below it. */
  function VersionAdded(node: Versioned, version: Option<NodeId>): seq<Code> {
    if version.None? then []
    else [Transaction(NodeAddedEvent(Versioned(version.value, false), [Versioned(node.nodeId, true)]))]
  }

  /** Everything below goes first, each in a transaction of its own inside that of the node. */
  function Deleted(d: Doomed): seq<Code> {
    [Transaction(AllDeleted(d.below) + NodeDeletedEvent(d.node, d.parents))]
  }

  function AllDeleted(ds: seq<Doomed>): seq<Code> {
    if ds == [] then [] else Deleted(ds[0]) + AllDeleted(ds[1..])
  }

  function ServiceCode(s: Service): seq<Code> {
    match s
    case AddReference(near, far) => ReferenceAddedEvent(near, far)
    case CreateNode(node, version, parents) =>
      [Transaction(VersionAdded(node, version) + NodeAddedEvent(node, parents))]
    case DeleteNode(d) => Deleted(d)
  }

  /** The events of a deletion one after the other, as if there were no transaction around them. */
  function DeleteEvents(d: Doomed): seq<Code> {
    AllDeleteEvents(d.below) + NodeDeletedEvent(d.node, d.parents)
  }

  function AllDeleteEvents(ds: seq<Doomed>): seq<Code> {
    if ds == [] then [] else DeleteEvents(ds[0]) + AllDeleteEvents(ds[1..])
  }

  lemma {:induction false} CodeAppend(a: seq<Code>, b: seq<Code>)
    requires !Throws(a)
    ensures Throws(a + b) <==> Throws(b)
    ensures Collected(a + b) == Collected(a) + Collected(b)
    ensures Enclosed(a) && Enclosed(b) ==> Enclosed(a + b)
  {
    if a == [] {
      assert a + b == b;
    } else {
      assert (a + b)[0] == a[0] && (a + b)[1..] == a[1..] + b;
      CodeAppend(a[1..], b);
      match a[0]
      case Collect(c) => AppendAssoc([c], Collected(a[1..]), Collected(b));
      case Throw =>
      case Transaction(inner) => AppendAssoc(Collected(inner), Collected(a[1..]), Collected(b));
      case Attempt(inner) => AppendAssoc(Collected(inner), Collected(a[1..]), Collected(b));
    }
  }

  lemma OneTransaction(inner: seq<Code>)
    requires !Throws(inner)
    ensures !Throws([Transaction(inner)]) && Enclosed([Transaction(inner)])
    ensures Collected([Transaction(inner)]) == Collected(inner)
  {
    assert [Transaction(inner)][1..] == [];
    assert Collected(inner) + [] == Collected(inner);
  }

  lemma DeletedEventShape(node: Versioned, parents: seq<Versioned>)
    ensures !Throws(NodeDeletedEvent(node, parents)) && Enclosed(NodeDeletedEvent(node, parents))
  {
    DeletedReferencesCollect(parents);
    var deleted := DeletedReferences(parents) + [Collect(Change(node.nodeId, NodeDeleted))];
    CollectsAll(deleted);
    OneTransaction(deleted);
  }

  /** Nesting the transactions of a deletion changes nothing in what is collected. */
  lemma {:induction false} DeleteCollects(d: Doomed)
    ensures !Throws(Deleted(d)) && !Throws(DeleteEvents(d)) && Enclosed(DeleteEvents(d))
    ensures Collected(Deleted(d)) == Collected(DeleteEvents(d))
    decreases d, 0
  {
    AllDeleteCollects(d.below, d);
    DeletedEventShape(d.node, d.parents);
    CodeAppend(AllDeleted(d.below), NodeDeletedEvent(d.node, d.parents));
    CodeAppend(AllDeleteEvents(d.below), NodeDeletedEvent(d.node, d.parents));
    OneTransaction(AllDeleted(d.below) + NodeDeletedEvent(d.node, d.parents));
  }

  lemma {:induction false} AllDeleteCollects(ds: seq<Doomed>, d: Doomed)
    requires forall x :: x in ds ==> x in d.below
    ensures !Throws(AllDeleted(ds)) && !Throws(AllDeleteEvents(ds)) && Enclosed(AllDeleteEvents(ds))
    ensures Collected(AllDeleted(ds)) == Collected(AllDeleteEvents(ds))
    decreases d, 0, |ds|
  {
    if ds != [] {
      assert ds[0] in d.below && forall x :: x in ds[1..] ==> x in ds;
      DeleteCollects(ds[0]);
      AllDeleteCollects(ds[1..], d);
      CodeAppend(Deleted(ds[0]), AllDeleted(ds[1..]));
      CodeAppend(DeleteEvents(ds[0]), AllDeleteEvents(ds[1..]));
    }
  }

  /** Deleting a node with all below it raises as one event what its deletions would raise one by one,
      children before parents, or nothing if they would raise nothing. */
  lemma DeleteNodeRaises(d: Doomed)
    ensures var alone := Outermost(DeleteEvents(d), []).flushes;
      Outermost(Deleted(d), []) == Effect(if alone == [] then [] else [Concat(alone)], [])
  {
    DeleteCollects(d);
    OneFlushInside(DeleteEvents(d));
    var inner := AllDeleted(d.below) + NodeDeletedEvent(d.node, d.parents);
    AllDeleteCollects(d.below, d);
    DeletedEventShape(d.node, d.parents);
    CodeAppend(AllDeleted(d.below), NodeDeletedEvent(d.node, d.parents));
    OneTransaction(inner);
    OneBatch(inner);
    OneTransaction(DeleteEvents(d));
    OneBatch(DeleteEvents(d));
  }

  /** What the event holds, in order: what the deletions below collect, the deletion of every versioned
      child among it, and then, if the node or one of its parents is versioned, the lost reference of
      every parent and the node itself. */
  lemma ChildrenBeforeParents(d: Doomed) returns (below: seq<Change>, own: seq<Change>)
    ensures Outermost(Deleted(d), []) == Effect(if below + own == [] then [] else [below + own], [])
    ensures forall b :: b in d.below && b.node.hasVersion ==> Change(b.node.nodeId, NodeDeleted) in below
    ensures if d.node.hasVersion || (exists p :: p in d.parents && p.hasVersion) then
        && |own| == |d.parents| + 1 && own[|d.parents|] == Change(d.node.nodeId, NodeDeleted)
        && forall i :: 0 <= i < |d.parents| ==> own[i] == Change(d.parents[i].nodeId, ReferenceDeleted)
      else own == []
  {
    var inner := AllDeleted(d.below) + NodeDeletedEvent(d.node, d.parents);
    below, own := Collected(AllDeleted(d.below)), Collected(NodeDeletedEvent(d.node, d.parents));
    AllDeleteCollects(d.below, d);
    DeletedEventShape(d.node, d.parents);
    CodeAppend(AllDeleted(d.below), NodeDeletedEvent(d.node, d.parents));
    OneBatch(inner);
    OwnDeletion(d.node, d.parents);
    forall b | b in d.below && b.node.hasVersion
      ensures Change(b.node.nodeId, NodeDeleted) in below
    {
      DeletionCollected(d.below, b);
    }
  }

  lemma OwnDeletion(node: Versioned, parents: seq<Versioned>)
    ensures var own := Collected(NodeDeletedEvent(node, parents));
      if node.hasVersion || (exists p :: p in parents && p.hasVersion) then
        && |own| == |parents| + 1 && own[|parents|] == Change(node.nodeId, NodeDeleted)
        && forall i :: 0 <= i < |parents| ==> own[i] == Change(parents[i].nodeId, ReferenceDeleted)
      else own == []
  {
    DeletedReferencesCollect(parents);
    var deleted := DeletedReferences(parents) + [Collect(Change(node.nodeId, NodeDeleted))];
    CollectsAll(deleted);
    OneTransaction(deleted);
  }

  lemma {:induction false} DeletionCollected(ds: seq<Doomed>, b: Doomed)
    requires b in ds && b.node.hasVersion
    ensures Change(b.node.nodeId, NodeDeleted) in Collected(AllDeleted(ds))
  {
    DeleteCollects(ds[0]);
    CodeAppend(Deleted(ds[0]), AllDeleted(ds[1..]));
    if b == ds[0] {
      var inner := AllDeleted(b.below) + NodeDeletedEvent(b.node, b.parents);
      AllDeleteCollects(b.below, b);
      DeletedEventShape(b.node, b.parents);
      CodeAppend(AllDeleted(b.below), NodeDeletedEvent(b.node, b.parents));
      OneTransaction(inner);
      OwnDeletion(b.node, b.parents);
      var own := Collected(NodeDeletedEvent(b.node, b.parents));
      assert own[|b.parents|] in own;
    } else {
      DeletionCollected(ds[1..], b);
    }
  }

  /** What a transaction outside all others flushes is what its body collects. */
  lemma OneBatch(inner: seq<Code>)
    requires !Throws(inner)
    ensures Outermost([Transaction(inner)], []) == Effect(if Collected(inner) == [] then [] else [Collected(inner)], [])
  {
    NestedNeverFlushes(inner, []);
    assert [Transaction(inner)][1..] == [] && [] + Collected(inner) == Collected(inner);
    assert Run(false, [], []) == Effect([], []);
    assert [Collected(inner)] + [] == [Collected(inner)];
  }

  /** Creating a node raises at most one event: first the new version node with its parent, the node
      itself, if one was asked for, and then, for each versioned parent in order, what AddedUnder says. */
  lemma CreateNodeRaises(node: Versioned, version: Option<NodeId>, parents: seq<Versioned>)
    returns (groups: seq<seq<Change>>)
    ensures |groups| == |OnlyVersioned(parents)|
    ensures forall i :: 0 <= i < |groups| ==> AddedUnder(node, OnlyVersioned(parents)[i], groups[i])
    ensures var first :=
        if version.None? then [] else [Change(version.value, NodeAdded), Change(node.nodeId, ReferenceAdded)];
      Outermost(ServiceCode(CreateNode(node, version, parents)), [])
        == Effect(if version.None? && groups == [] then [] else [first + Concat(groups)], [])
  {
    var event := NodeAddedEvent(node, parents);
    groups := Outermost(event, []).flushes;
    NodeAddedFlushes(node, parents);
    EveryChangeFlushedOnce(false, event, []);
    assert Concat(groups) + [] == Concat(groups) && [] + Collected(event) == Collected(event);
    VersionCollects(node, version);
    CodeAppend(VersionAdded(node, version), event);
    OneBatch(VersionAdded(node, version) + event);
    if groups != [] {
      assert Concat(groups) == groups[0] + Concat(groups[1..]);
    }
  }

  lemma VersionCollects(node: Versioned, version: Option<NodeId>)
    ensures !Throws(VersionAdded(node, version))
    ensures Collected(VersionAdded(node, version)) ==
      if version.None? then [] else [Change(version.value, NodeAdded), Change(node.nodeId, ReferenceAdded)]
  {
    if version.Some? {
      var v, p := Versioned(version.value, false), Versioned(node.nodeId, true);
      var added := NodeAddedUnder(v, p);
      assert [p][1..] == [] && added + [] == added;
      assert NodeAddedEvent(v, [p]) == added;
      CollectsAll(added[0].body);
      OneTransaction(added[0].body);
      OneTransaction(added);
      assert added == [added[0]];
    }
  }

  /** Nothing happens to a versioned node. */
  predicate Quiet(s: Service) {
    match s
    case AddReference(near, far) => !near.hasVersion && !far.hasVersion
    case CreateNode(_, version, parents) => version.None? && forall p :: p in parents ==> !p.hasVersion
    case DeleteNode(d) => QuietDeletion(d)
  }

  predicate QuietDeletion(d: Doomed) {
    && !d.node.hasVersion && (forall p :: p in d.parents ==> !p.hasVersion)
    && forall b :: b in d.below ==> QuietDeletion(b)
  }

  /** Each service, called outside a transaction, raises one event if something versioned takes part
      and none otherwise, and leaves nothing behind; inside one it only adds to that of the outermost. */
  lemma OneEventPerService(s: Service)
    ensures Outermost(ServiceCode(s), []).pending == []
    ensures |Outermost(ServiceCode(s), []).flushes| == if Quiet(s) then 0 else 1
    ensures Run(true, ServiceCode(s), []).flushes == []
  {
    NestedFlushesNothing(ServiceCode(s), []);
    match s
    case AddReference(near, far) => ReferenceAddedFlushes(near, far);
    case CreateNode(node, version, parents) =>
      var groups := CreateNodeRaises(node, version, parents);
      NoneVersioned(parents);
    case DeleteNode(d) =>
      DeleteCollects(d);
      QuietCollects(d);
      AllDeleteCollects(d.below, d);
      DeletedEventShape(d.node, d.parents);
      CodeAppend(AllDeleted(d.below), NodeDeletedEvent(d.node, d.parents));
      OneTransaction(AllDeleted(d.below) + NodeDeletedEvent(d.node, d.parents));
      OneBatch(AllDeleted(d.below) + NodeDeletedEvent(d.node, d.parents));
  }

  /** A reference that is added raises one event with both ends, if one of them is versioned. */
  lemma ReferenceAddedFlushes(near: Versioned, far: Versioned)
    ensures Outermost(ReferenceAddedEvent(near, far), []) == Effect(
      if near.hasVersion || far.hasVersion
      then [[Change(near.nodeId, ReferenceAdded), Change(far.nodeId, ReferenceAdded)]] else [], [])
  {
    var added := [Collect(Change(near.nodeId, ReferenceAdded)), Collect(Change(far.nodeId, ReferenceAdded))];
    CollectsAll(added);
    OneBatch(added);
    assert Collected(added) == [Change(near.nodeId, ReferenceAdded), Change(far.nodeId, ReferenceAdded)];
  }

  lemma {:induction false} NoneVersioned(parents: seq<Versioned>)
    ensures OnlyVersioned(parents) == [] <==> forall p :: p in parents ==> !p.hasVersion
  {
    if parents != [] {
      NoneVersioned(parents[1..]);
      assert forall p :: p in parents <==> p == parents[0] || p in parents[1..];
    }
  }

  lemma DeletedEventCollects(node: Versioned, parents: seq<Versioned>)
    ensures Collected(NodeDeletedEvent(node, parents)) == [] <==>
      !node.hasVersion && forall p :: p in parents ==> !p.hasVersion
  {
    DeletedReferencesCollect(parents);
    var deleted := DeletedReferences(parents) + [Collect(Change(node.nodeId, NodeDeleted))];
    CollectsAll(deleted);
    OneTransaction(deleted);
  }

  lemma {:induction false} QuietCollects(d: Doomed)
    ensures Collected(DeleteEvents(d)) == [] <==> QuietDeletion(d)
    decreases d, 0
  {
    AllDeleteCollects(d.below, d);
    CodeAppend(AllDeleteEvents(d.below), NodeDeletedEvent(d.node, d.parents));
    DeletedEventCollects(d.node, d.parents);
    AllQuietCollect(d.below, d);
  }

  lemma {:induction false} AllQuietCollect(ds: seq<Doomed>, d: Doomed)
    requires forall x :: x in ds ==> x in d.below
    ensures Collected(AllDeleteEvents(ds)) == [] <==> forall b :: b in ds ==> QuietDeletion(b)
    decreases d, 0, |ds|
  {
    if ds != [] {
      assert ds[0] in d.below && forall x :: x in ds[1..] ==> x in ds;
      assert forall x :: x in ds <==> x == ds[0] || x in ds[1..];
      DeleteCollects(ds[0]);
      QuietCollects(ds[0]);
      AllQuietCollect(ds[1..], d);
      CodeAppend(DeleteEvents(ds[0]), AllDeleteEvents(ds[1..]));
    }
  }

  // ---- the address space ----------------------------------------------------------------------

  class AddressSpace {
    var modelChangeTransactionCounter: int
    var modelChanges: seq<Change>
    /** One entry for every GeneralModelChangeEvent raised. */
    var flushed: seq<seq<Change>>

    constructor ()
      ensures modelChangeTransactionCounter == 0 && modelChanges == [] && flushed == []
    {
      modelChangeTransactionCounter, modelChanges, flushed := 0, [], [];
    }

    method CollectModelChange(change: Change)
      modifies this`modelChanges
      ensures modelChanges == old(modelChanges) + [change]
    {
      modelChanges := modelChanges + [change];
    }

    method BeginModelChange()
      modifies this`modelChangeTransactionCounter
      ensures modelChangeTransactionCounter == old(modelChangeTransactionCounter) + 1
    {
      modelChangeTransactionCounter := modelChangeTransactionCounter + 1;
    }

    method EndModelChange()
      modifies this
      ensures modelChangeTransactionCounter == old(modelChangeTransactionCounter) - 1
      ensures modelChangeTransactionCounter == 0 && old(modelChanges) != [] ==>
        flushed == old(flushed) + [old(modelChanges)] && modelChanges == []
      ensures modelChangeTransactionCounter != 0 || old(modelChanges) == [] ==>
        flushed == old(flushed) && modelChanges == old(modelChanges)
    {
      modelChangeTransactionCounter := modelChangeTransactionCounter - 1;
      if modelChangeTransactionCounter == 0 {
        if |modelChanges| == 0 {
          return;
        }
        flushed := flushed + [modelChanges];
        modelChanges := [];
      }
    }

    /** Whatever the body does, the counter is back where it was; only a transaction opened outside
        all others flushes, and it leaves the buffer empty. */
    method ModelChangeTransaction(func: seq<Code>) returns (thrown: bool)
      requires modelChangeTransactionCounter >= 0
      modifies this
      ensures thrown == Throws(func)
      ensures modelChangeTransactionCounter == old(modelChangeTransactionCounter)
      ensures var e := End(old(modelChangeTransactionCounter) > 0, Run(true, func, old(modelChanges)));
        flushed == old(flushed) + e.flushes && modelChanges == e.pending
      ensures old(modelChangeTransactionCounter) > 0 ==>
        flushed == old(flushed) && modelChanges == old(modelChanges) + Collected(func)
      ensures old(modelChangeTransactionCounter) == 0 ==> modelChanges == []
      decreases func, 1
    {
      NestedNeverFlushes(func, modelChanges);
      BeginModelChange();
      thrown := Execute(func);
      EndModelChange();
    }

    method Execute(body: seq<Code>) returns (thrown: bool)
      requires modelChangeTransactionCounter >= 0
      modifies this
      ensures thrown == Throws(body)
      ensures modelChangeTransactionCounter == old(modelChangeTransactionCounter)
      ensures var e := Run(old(modelChangeTransactionCounter) > 0, body, old(modelChanges));
        flushed == old(flushed) + e.flushes && modelChanges == e.pending
      decreases body, 0
    {
      if body == [] {
        return false;
      }
      match body[0] {
        case Collect(c) =>
          CollectModelChange(c);
        case Throw =>
          return true;
        case Transaction(func) =>
          var failed := ModelChangeTransaction(func);
          if failed {
            return true;
          }
        case Attempt(part) =>
          var _ := Execute(part);
      }
      thrown := Execute(body[1..]);
    }
  }
}

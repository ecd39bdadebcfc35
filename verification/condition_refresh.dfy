/** apply_condition_refresh: a recursive traversal of notifiers and event sources with one shared
    cache. */
module ConditionRefresh {
  import opened Common
  import opened References
  import opened Reachability

  /** `sources` lists notifiers and then event sources of a node; only objects and variables, in
      `refreshable`, have a _conditionRefresh to re-enter. */
  datatype Sources = Sources(sources: map<NodeId, seq<NodeId>>, refreshable: set<NodeId>) {
    predicate Valid() {
      && refreshable <= sources.Keys
      && forall n, m :: n in sources && m in sources[n] ==> m in sources
    }

    function AsNet(): Net<NodeId> {
      Net(sources, refreshable)
    }
  }

  /** `n` has been processed once and after it, once each, the refreshable nodes that entered the
      cache; those are all reachable, and nothing reachable from them is missing. */
  ghost predicate Traversed(sp: Sources, n: NodeId, before: set<NodeId>, after: set<NodeId>, log: seq<NodeId>) {
    && before <= after
    && log != [] && log[0] == n && NoDup(log[1..])
    && (forall x :: x in log[1..] <==> x in after - before && x in sp.refreshable)
    && (forall x :: x in after - before ==> Reaches(sp.AsNet(), n, x))
    && (forall x, y :: (x == n || (x in after - before && x in sp.refreshable)) && y in Next(sp.AsNet(), x) ==>
          y in after)
  }

  class RefreshRun {
    const space: Sources
    var cache: set<NodeId>
    /** The nodes whose conditions have been re-sent, in order. */
    var resent: seq<NodeId>

    constructor (space: Sources)
      ensures this.space == space && cache == {} && resent == []
    {
      this.space := space;
      cache, resent := {}, [];
    }

    method ApplyConditionRefresh(n: NodeId) returns (ghost log: seq<NodeId>)
      requires space.Valid() && n in space.sources && cache <= space.sources.Keys
      modifies this
      ensures cache <= space.sources.Keys
      ensures resent == old(resent) + log
      ensures Traversed(space, n, old(cache), cache, log)
      decreases space.sources.Keys - cache
    {
      ghost var before := cache;
      resent := resent + [n];
      ghost var begun, done := resent, [];
      var arr := space.sources[n];
      for i := 0 to |arr|
        invariant before <= cache <= space.sources.Keys
        invariant resent == begun + done
        invariant Below(space, n, before, cache, done)
        invariant forall y :: y in arr[..i] ==> y in cache
      {
        var notifier := arr[i];
        assert arr[..i + 1] == arr[..i] + [notifier];
        if notifier !in cache {
          ghost var outer := cache;
          cache := cache + {notifier};
          if notifier in space.refreshable {
            ghost var more := ApplyConditionRefresh(notifier);
            Absorb(space, n, notifier, before, outer, cache, done, more);
            assert begun + (done + more) == (begun + done) + more;
            done := done + more;
          } else {
            Cached(space, n, notifier, before, outer, done);
          }
        }
      }
      assert arr[..|arr|] == arr;
      log := [n] + done;
      assert begun + done == old(resent) + log;
      AllBelow(space, n, before, cache, done);
    }
  }

  /** The part of a traversal of `n` that lies below `n`. */
  ghost predicate Below(sp: Sources, n: NodeId, before: set<NodeId>, cache: set<NodeId>, done: seq<NodeId>) {
    && NoDup(done)
    && (forall x :: x in done <==> x in cache - before && x in sp.refreshable)
    && (forall x :: x in cache - before ==> Reaches(sp.AsNet(), n, x))
    && (forall x, y :: x in cache - before && x in sp.refreshable && y in Next(sp.AsNet(), x) ==> y in cache)
  }

  lemma AllBelow(sp: Sources, n: NodeId, before: set<NodeId>, cache: set<NodeId>, done: seq<NodeId>)
    requires Below(sp, n, before, cache, done) && before <= cache
    requires forall y :: y in Next(sp.AsNet(), n) ==> y in cache
    ensures Traversed(sp, n, before, cache, [n] + done)
  {
    assert ([n] + done)[1..] == done;
  }

  lemma Cached(sp: Sources, n: NodeId, m: NodeId, before: set<NodeId>, cache: set<NodeId>, done: seq<NodeId>)
    requires Below(sp, n, before, cache, done) && m in Next(sp.AsNet(), n) && m !in sp.refreshable
    ensures Below(sp, n, before, cache + {m}, done)
  {
    OneStep(sp.AsNet(), n, m);
  }

  /** What a nested traversal from a neighbour adds to the traversal around it. */
  lemma Absorb(sp: Sources, n: NodeId, m: NodeId, before: set<NodeId>, outer: set<NodeId>, after: set<NodeId>,
      done: seq<NodeId>, log: seq<NodeId>)
    requires before <= outer && m in Next(sp.AsNet(), n) && m in sp.refreshable && m !in outer
    requires Traversed(sp, m, outer + {m}, after, log)
    requires Below(sp, n, before, outer, done)
    ensures Below(sp, n, before, after, done + log)
  {
    assert log == [m] + log[1..];
    NoDupConcat([m], log[1..]);
    NoDupConcat(done, log);
    forall x | x in after - before
      ensures Reaches(sp.AsNet(), n, x)
    {
      if x == m {
        OneStep(sp.AsNet(), n, m);
      } else if x !in outer {
        StepBefore(sp.AsNet(), n, m, x);
      }
    }
  }

  /** From an empty cache: the start first, then every reachable refreshable node exactly once. So
      the start is processed a second time exactly when it lies on a cycle, and never a third. */
  method ConditionRefresh(sp: Sources, start: NodeId) returns (resent: seq<NodeId>)
    requires sp.Valid() && start in sp.refreshable
    ensures resent != [] && resent[0] == start && NoDup(resent[1..])
    ensures forall x :: x in resent[1..] <==> x in sp.refreshable && Reaches(sp.AsNet(), start, x)
  {
    var run := new RefreshRun(sp);
    ghost var log := run.ApplyConditionRefresh(start);
    resent := run.resent;
    assert resent == log;
    forall x | Reaches(sp.AsNet(), start, x)
      ensures x in run.cache
    {
      var cache := run.cache;
      ClosedHoldsReached(sp.AsNet(), start, y => y in cache, x);
    }
  }

  /** How often a node appears in a list. */
  function Count(log: seq<NodeId>, n: NodeId): nat {
    if log == [] then 0 else (if log[0] == n then 1 else 0) + Count(log[1..], n)
  }

  lemma {:induction false} CountNoDup(log: seq<NodeId>, n: NodeId)
    requires NoDup(log)
    ensures Count(log, n) == if n in log then 1 else 0
  {
    if log != [] {
      assert forall x :: x in log <==> x == log[0] || x in log[1..];
      assert log[0] !in log[1..];
      CountNoDup(log[1..], n);
    }
  }

  lemma HowOftenProcessed(sp: Sources, start: NodeId, resent: seq<NodeId>, n: NodeId)
    requires resent != [] && resent[0] == start && NoDup(resent[1..]) && start in sp.refreshable
    requires forall x :: x in resent[1..] <==> x in sp.refreshable && Reaches(sp.AsNet(), start, x)
    ensures n != start ==> Count(resent, n) == if n in sp.refreshable && Reaches(sp.AsNet(), start, n) then 1 else 0
    ensures Count(resent, start) == if Reaches(sp.AsNet(), start, start) then 2 else 1
  {
    CountNoDup(resent[1..], n);
    CountNoDup(resent[1..], start);
  }
}

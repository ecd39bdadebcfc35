/** Reachability in a directed graph that is explored only through some of its nodes. */
module Reachability {

  /** `next` lists the neighbours of a node; a walk may continue only from its start and from nodes
      in `through`. */
  datatype Net<!N> = Net(next: map<N, seq<N>>, through: set<N>)

  function Next<N>(net: Net<N>, n: N): seq<N> {
    if n in net.next then net.next[n] else []
  }

  ghost predicate Walk<N>(net: Net<N>, p: seq<N>) {
    && |p| >= 2
    && (forall i :: 0 <= i < |p| - 1 ==> p[i + 1] in Next(net, p[i]))
    && (forall i :: 0 < i < |p| - 1 ==> p[i] in net.through)
  }

  /** `t` can be reached from `s` in at least one step. */
  ghost predicate Reaches<N(!new)>(net: Net<N>, s: N, t: N) {
    exists p :: Walk(net, p) && p[0] == s && p[|p| - 1] == t
  }

  lemma OneStep<N(!new)>(net: Net<N>, s: N, t: N)
    requires t in Next(net, s)
    ensures Reaches(net, s, t)
  {
    assert Walk(net, [s, t]);
  }

  lemma StepAfter<N(!new)>(net: Net<N>, s: N, m: N, t: N)
    requires Reaches(net, s, m) && m in net.through && t in Next(net, m)
    ensures Reaches(net, s, t)
  {
    var p :| Walk(net, p) && p[0] == s && p[|p| - 1] == m;
    var q := p + [t];
    forall i | 0 <= i < |q| - 1
      ensures q[i + 1] in Next(net, q[i])
    {
      assert i < |p| - 1 ==> q[i + 1] == p[i + 1];
    }
    assert Walk(net, q) && q[|q| - 1] == t;
  }

  lemma StepBefore<N(!new)>(net: Net<N>, s: N, m: N, t: N)
    requires m in Next(net, s) && m in net.through && Reaches(net, m, t)
    ensures Reaches(net, s, t)
  {
    var p :| Walk(net, p) && p[0] == m && p[|p| - 1] == t;
    var q := [s] + p;
    forall i | 0 <= i < |q| - 1
      ensures q[i + 1] in Next(net, q[i])
    {
      assert i > 0 ==> q[i] == p[i - 1];
    }
    forall i | 0 < i < |q| - 1
      ensures q[i] in net.through
    {
      assert q[i] == p[i - 1];
    }
    assert Walk(net, q) && q[|q| - 1] == t;
  }

  /** The last step of a walk. */
  lemma LastStep<N(!new)>(net: Net<N>, s: N, t: N)
    requires Reaches(net, s, t)
    ensures t in Next(net, s) || exists m :: Reaches(net, s, m) && m in net.through && t in Next(net, m)
  {
    var p :| Walk(net, p) && p[0] == s && p[|p| - 1] == t;
    if |p| > 2 {
      var q := p[..|p| - 1];
      assert Walk(net, q);
      var m := q[|q| - 1];
      assert Reaches(net, s, m) && t in Next(net, m);
    }
  }

  /** A set that holds the neighbours of `s` and is closed under further steps holds everything
      that can be reached. */
  lemma ClosedHoldsReached<N(!new)>(net: Net<N>, s: N, inside: N -> bool, t: N)
    requires forall x :: x in Next(net, s) ==> inside(x)
    requires forall x, y :: inside(x) && x in net.through && y in Next(net, x) ==> inside(y)
    requires Reaches(net, s, t)
    ensures inside(t)
  {
    var p :| Walk(net, p) && p[0] == s && p[|p| - 1] == t;
    ClosedAlong(net, p, inside, |p| - 1);
  }

  lemma {:induction false} ClosedAlong<N(!new)>(net: Net<N>, p: seq<N>, inside: N -> bool, i: nat)
    requires Walk(net, p) && 1 <= i < |p|
    requires forall x :: x in Next(net, p[0]) ==> inside(x)
    requires forall x, y :: inside(x) && x in net.through && y in Next(net, x) ==> inside(y)
    ensures inside(p[i])
  {
    assert p[i - 1 + 1] in Next(net, p[i - 1]);
    if i > 1 {
      ClosedAlong(net, p, inside, i - 1);
    }
  }
}

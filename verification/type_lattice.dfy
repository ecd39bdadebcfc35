/** isSubtypeOf: a recursive walk up the HasSubtype references, with an answer memo on every type
    node that is wiped only on the nodes whose references change. */
module TypeLattice {
  import opened Common
  import opened References

  /** subtypeOfObj: every type has at most one supertype. */
  type Supertypes = map<NodeId, NodeId>

  // ---- the order ------------------------------------------------------------------------------

  /** The type `n` steps above `d`. */
  function Up(s: Supertypes, d: NodeId, n: nat): Option<NodeId>
    decreases n
  {
    if n == 0 then Some(d)
    else if d !in s then None
    else Up(s, s[d], n - 1)
  }

  ghost predicate UpIs(s: Supertypes, d: NodeId, n: nat, b: NodeId) {
    Up(s, d, n) == Some(b)
  }

  /** The reflexive-transitive closure of subtypeOfObj. */
  ghost predicate Above(s: Supertypes, d: NodeId, b: NodeId) {
    exists n: nat :: UpIs(s, d, n, b)
  }

  ghost predicate Acyclic(s: Supertypes) {
    forall d, n: nat :: n > 0 ==> !UpIs(s, d, n, d)
  }

  lemma {:induction false} UpAdds(s: Supertypes, d: NodeId, m: nat, n: nat)
    ensures Up(s, d, m + n) == if Up(s, d, m).Some? then Up(s, Up(s, d, m).value, n) else None
    decreases m
  {
    if m > 0 && d in s {
      UpAdds(s, s[d], m - 1, n);
    }
  }

  lemma StepUp(s: Supertypes, d: NodeId, n: nat, b: NodeId)
    requires d in s && UpIs(s, s[d], n, b)
    ensures UpIs(s, d, n + 1, b)
  {
  }

  lemma AboveTransitive(s: Supertypes, a: NodeId, b: NodeId, c: NodeId)
    requires Above(s, a, b) && Above(s, b, c)
    ensures Above(s, a, c)
  {
    var m: nat :| UpIs(s, a, m, b);
    var n: nat :| UpIs(s, b, n, c);
    UpAdds(s, a, m, n);
    assert UpIs(s, a, m + n, c);
  }

  /** isSubtypeOf on an acyclic hierarchy is a partial order. */
  lemma PartialOrder(s: Supertypes, a: NodeId, b: NodeId, c: NodeId)
    requires Acyclic(s)
    ensures Above(s, a, a)
    ensures Above(s, a, b) && Above(s, b, c) ==> Above(s, a, c)
    ensures Above(s, a, b) && Above(s, b, a) ==> a == b
  {
    assert UpIs(s, a, 0, a);
    if Above(s, a, b) && Above(s, b, c) {
      AboveTransitive(s, a, b, c);
    }
    if Above(s, a, b) && Above(s, b, a) {
      var m: nat :| UpIs(s, a, m, b);
      var n: nat :| UpIs(s, b, n, a);
      UpAdds(s, a, m, n);
      assert UpIs(s, a, m + n, a);
    }
  }

  // ---- the walk -------------------------------------------------------------------------------

  /** _slow_isSubtypeOf: None when `depth` recursive calls are not enough. */
  function Walk(s: Supertypes, d: NodeId, b: NodeId, depth: nat): Option<bool>
    decreases depth
  {
    if d == b then Some(true)
    else if d !in s then Some(false)
    else if depth == 0 then None
    else Walk(s, s[d], b, depth - 1)
  }

  lemma {:induction false} WalkAnswers(s: Supertypes, d: NodeId, b: NodeId, depth: nat)
    ensures Walk(s, d, b, depth) == Some(true) ==> Above(s, d, b)
    ensures Walk(s, d, b, depth) == Some(false) ==> !Above(s, d, b)
    decreases depth
  {
    if d == b {
      assert UpIs(s, d, 0, b);
    } else if d !in s {
      assert forall n: nat :: UpIs(s, d, n, b) ==> n == 0;
    } else {
      AboveStep(s, d, b);
      if depth > 0 {
        WalkAnswers(s, s[d], b, depth - 1);
      }
    }
  }

  lemma AboveStep(s: Supertypes, d: NodeId, b: NodeId)
    requires d in s
    ensures Above(s, d, b) <==> d == b || Above(s, s[d], b)
  {
    if n: nat :| UpIs(s, d, n, b) {
      assert n > 0 ==> UpIs(s, s[d], n - 1, b);
    }
    assert d == b ==> UpIs(s, d, 0, b);
    if n: nat :| UpIs(s, s[d], n, b) {
      assert UpIs(s, d, n + 1, b);
    }
  }

  /** The chain of supertypes of `d` ends within `depth` steps. */
  predicate EndsWithin(s: Supertypes, d: NodeId, depth: nat)
    decreases depth
  {
    d !in s || (depth > 0 && EndsWithin(s, s[d], depth - 1))
  }

  lemma {:induction false} WalkEnds(s: Supertypes, d: NodeId, b: NodeId, depth: nat)
    requires EndsWithin(s, d, depth)
    ensures Walk(s, d, b, depth).Some?
    decreases depth
  {
    if d in s {
      WalkEnds(s, s[d], b, depth - 1);
    }
  }

  /** On an acyclic hierarchy the walk ends, after no more calls than there are subtypes, and
      decides the closure. */
  lemma WalkDecides(s: Supertypes, d: NodeId, b: NodeId)
    requires Acyclic(s)
    ensures Walk(s, d, b, |s|) == Some(true) <==> Above(s, d, b)
    ensures Walk(s, d, b, |s|) == Some(false) <==> !Above(s, d, b)
  {
    AcyclicEnds(s, d);
    WalkEnds(s, d, b, |s|);
    WalkAnswers(s, d, b, |s|);
    assert Walk(s, d, b, |s|).value || !Walk(s, d, b, |s|).value;
  }

  /** An acyclic hierarchy has no chain longer than itself. */
  lemma AcyclicEnds(s: Supertypes, d: NodeId)
    requires Acyclic(s)
    ensures EndsWithin(s, d, |s|)
  {
    if !EndsWithin(s, d, |s|) {
      NeverEnds(s, d, |s|);
      assert false;
    }
  }

  function Passed(s: Supertypes, d: NodeId, n: nat): set<NodeId>
    decreases n
  {
    if n == 0 then {} else {d} + if d in s then Passed(s, s[d], n - 1) else {}
  }

  lemma {:induction false} PassedIsUp(s: Supertypes, d: NodeId, n: nat, x: NodeId)
    requires x in Passed(s, d, n)
    ensures Above(s, d, x)
    decreases n
  {
    if x == d {
      assert UpIs(s, d, 0, d);
    } else {
      PassedIsUp(s, s[d], n - 1, x);
      AboveStep(s, d, x);
    }
  }

  /** Each step of a chain passes another type that has a supertype. */
  lemma {:induction false} NeverEnds(s: Supertypes, d: NodeId, depth: nat)
    requires Acyclic(s) && !EndsWithin(s, d, depth)
    ensures |s.Keys - Passed(s, d, depth + 1)| + depth + 1 == |s.Keys|
    decreases depth
  {
    if depth == 0 {
      assert Passed(s, s[d], 0) == {};
      OneMorePassed(s.Keys, {}, d);
      assert s.Keys - {} == s.Keys;
    } else {
      NeverEnds(s, s[d], depth - 1);
      NeverPassedAgain(s, d, depth);
      OneMorePassed(s.Keys, Passed(s, s[d], depth), d);
    }
  }

  lemma NeverPassedAgain(s: Supertypes, d: NodeId, depth: nat)
    requires Acyclic(s) && d in s
    ensures d !in Passed(s, s[d], depth)
  {
    if d in Passed(s, s[d], depth) {
      PassedIsUp(s, s[d], depth, d);
      var n: nat :| UpIs(s, s[d], n, d);
      StepUp(s, d, n, d);
    }
  }

  lemma OneMorePassed(types: set<NodeId>, passed: set<NodeId>, d: NodeId)
    requires d in types && d !in passed
    ensures |types - ({d} + passed)| + 1 == |types - passed|
  {
    assert types - ({d} + passed) == (types - passed) - {d};
  }

  // ---- one more edge --------------------------------------------------------------------------

  /** What hanging the root `c` under `p` adds to the order. */
  lemma AboveAfterAttach(s: Supertypes, c: NodeId, p: NodeId, d: NodeId, b: NodeId)
    requires c !in s && !Above(s, p, c)
    ensures Above(s[c := p], d, b) <==> Above(s, d, b) || (Above(s, d, c) && Above(s, p, b))
  {
    var s' := s[c := p];
    if n: nat :| UpIs(s, d, n, b) {
      UpKept(s, c, p, d, b, n);
    }
    if Above(s, d, c) && Above(s, p, b) {
      var m: nat :| UpIs(s, d, m, c);
      var n: nat :| UpIs(s, p, n, b);
      UpKept(s, c, p, d, c, m);
      UpKept(s, c, p, p, b, n);
      AboveStep(s', c, b);
      AboveTransitive(s', d, c, b);
    }
    if n: nat :| UpIs(s', d, n, b) {
      UpThrough(s, c, p, d, b, n);
    }
  }

  lemma {:induction false} UpKept(s: Supertypes, c: NodeId, p: NodeId, d: NodeId, b: NodeId, n: nat)
    requires c !in s && UpIs(s, d, n, b)
    ensures UpIs(s[c := p], d, n, b) && Above(s[c := p], d, b)
    decreases n
  {
    if n > 0 {
      UpKept(s, c, p, s[d], b, n - 1);
    }
    assert UpIs(s[c := p], d, n, b);
  }

  lemma {:induction false} UpThrough(s: Supertypes, c: NodeId, p: NodeId, d: NodeId, b: NodeId, n: nat)
    requires c !in s && !Above(s, p, c) && UpIs(s[c := p], d, n, b)
    ensures Above(s, d, b) || (Above(s, d, c) && Above(s, p, b))
    decreases n
  {
    if n == 0 {
      assert UpIs(s, d, 0, b);
    } else if d == c {
      assert UpIs(s, c, 0, c);
      UpThrough(s, c, p, p, b, n - 1);
    } else {
      UpThrough(s, c, p, s[d], b, n - 1);
      AboveStep(s, d, b);
      AboveStep(s, d, c);
    }
  }

  lemma AttachKeepsAcyclic(s: Supertypes, c: NodeId, p: NodeId)
    requires Acyclic(s) && c !in s && !Above(s, p, c)
    ensures Acyclic(s[c := p])
  {
    var s' := s[c := p];
    forall d, n: nat | n > 0
      ensures !UpIs(s', d, n, d)
    {
      if UpIs(s', d, n, d) {
        Loop(s, c, p, d, n);
      }
    }
  }

  /** A proper loop would have to use the new edge, and then lead from `p` back to `c`. */
  lemma Loop(s: Supertypes, c: NodeId, p: NodeId, d: NodeId, n: nat)
    requires Acyclic(s) && c !in s && !Above(s, p, c) && n > 0
    ensures !UpIs(s[c := p], d, n, d)
  {
    var s' := s[c := p];
    if UpIs(s', d, n, d) {
      var e := s'[d];
      assert UpIs(s', e, n - 1, d);
      assert Above(s', e, d);
      AboveAfterAttach(s, c, p, e, d);
      if d == c {
      } else if Above(s, e, d) {
        var k: nat :| UpIs(s, e, k, d);
        StepUp(s, d, k, d);
      } else {
        AboveStep(s, d, c);
        AboveTransitive(s, p, d, c);
      }
      assert false;
    }
  }

  lemma DetachKeepsAcyclic(s: Supertypes, c: NodeId)
    requires Acyclic(s)
    ensures Acyclic(s - {c})
  {
    var s' := s - {c};
    forall d, n: nat | n > 0
      ensures !UpIs(s', d, n, d)
    {
      if UpIs(s', d, n, d) {
        UpBefore(s, c, d, d, n);
      }
    }
  }

  lemma {:induction false} UpBefore(s: Supertypes, c: NodeId, d: NodeId, b: NodeId, n: nat)
    requires UpIs(s - {c}, d, n, b)
    ensures UpIs(s, d, n, b)
    decreases n
  {
    if n > 0 {
      UpBefore(s, c, (s - {c})[d], b, n - 1);
    }
  }

  // ---- the memo -------------------------------------------------------------------------------

  datatype Lattice = Lattice(supertypes: Supertypes, memo: map<NodeId, map<NodeId, bool>>)

  /** `d` remembers an answer for `b`. */
  predicate Remembers(l: Lattice, d: NodeId, b: NodeId) {
    d in l.memo && b in l.memo[d]
  }

  ghost predicate Right(l: Lattice, d: NodeId, b: NodeId) {
    Remembers(l, d, b) ==> (l.memo[d][b] <==> Above(l.supertypes, d, b))
  }

  ghost predicate Coherent(l: Lattice) {
    forall d, b :: Right(l, d, b)
  }

  /** A HasSubtype reference between `c` and its new supertype `p`: both ends are wiped. */
  function Attach(l: Lattice, c: NodeId, p: NodeId): Lattice {
    Lattice(l.supertypes[c := p], l.memo - {c, p})
  }

  /** Removal wipes only the end that owned the reference. */
  function Detach(l: Lattice, c: NodeId, owner: NodeId): Lattice {
    Lattice(l.supertypes - {c}, l.memo - {owner})
  }

  /** Some node below `c`, not wiped, remembers an answer about a node above `p`. */
  ghost predicate Straddles(l: Lattice, s: Supertypes, c: NodeId, p: NodeId, wiped: set<NodeId>) {
    exists d, b :: Straddle(l, s, c, p, wiped, d, b)
  }

  ghost predicate Straddle(l: Lattice, s: Supertypes, c: NodeId, p: NodeId, wiped: set<NodeId>, d: NodeId, b: NodeId) {
    d !in wiped && Remembers(l, d, b) && Above(s, d, c) && Above(s, p, b)
  }

  /** Every remembered answer across the new edge was "no", and is now wrong: the memo stays right
      exactly when there is none. */
  lemma AttachCoherent(l: Lattice, c: NodeId, p: NodeId)
    requires Coherent(l) && Acyclic(l.supertypes) && c !in l.supertypes && !Above(l.supertypes, p, c)
    ensures Coherent(Attach(l, c, p)) <==> !Straddles(l, l.supertypes, c, p, {c, p})
  {
    var s, l' := l.supertypes, Attach(l, c, p);
    forall d, b
      ensures Right(l', d, b) <==> !Straddle(l, s, c, p, {c, p}, d, b)
    {
      AboveAfterAttach(s, c, p, d, b);
      assert Right(l, d, b);
      if Above(s, d, c) && Above(s, p, b) && Above(s, d, b) {
        RootIsHighest(s, c, d, b);
        AboveTransitive(s, p, b, c);
        assert false;
      }
    }
  }

  /** Everything above a node below the root `c` is itself below `c`. */
  lemma {:induction false} RootIsHighest(s: Supertypes, c: NodeId, d: NodeId, b: NodeId)
    requires c !in s && Above(s, d, c) && Above(s, d, b)
    ensures Above(s, b, c)
  {
    var m: nat :| UpIs(s, d, m, c);
    var n: nat :| UpIs(s, d, n, b);
    if n <= m {
      UpAdds(s, d, n, m - n);
      assert UpIs(s, b, m - n, c);
    } else {
      UpAdds(s, d, m, n - m);
      assert false;
    }
  }

  /** Removing the edge: the memo stays right exactly when nothing that is not wiped remembers an
      answer across it. */
  lemma DetachCoherent(l: Lattice, c: NodeId, owner: NodeId)
    requires Coherent(l) && Acyclic(l.supertypes) && c in l.supertypes
    ensures Coherent(Detach(l, c, owner)) <==> !Straddles(l, l.supertypes, c, l.supertypes[c], {owner})
  {
    var s, p, l' := l.supertypes, l.supertypes[c], Detach(l, c, owner);
    var s' := s - {c};
    assert s == s'[c := p];
    DetachedBelow(s, c);
    forall d, b
      ensures Right(l', d, b) <==> !Straddle(l, s, c, p, {owner}, d, b)
    {
      assert Right(l, d, b);
      AboveAfterAttach(s', c, p, d, b);
      AboveAfterAttach(s', c, p, d, c);
      AboveAfterAttach(s', c, p, p, b);
      assert UpIs(s', c, 0, c);
      if Above(s', d, c) && Above(s', p, b) && Above(s', d, b) {
        RootIsHighest(s', c, d, b);
        AboveTransitive(s', p, b, c);
        assert false;
      }
    }
  }

  lemma DetachedBelow(s: Supertypes, c: NodeId)
    requires Acyclic(s) && c in s
    ensures !Above(s - {c}, s[c], c)
  {
    if n: nat :| UpIs(s - {c}, s[c], n, c) {
      UpBefore(s, c, s[c], c, n);
      StepUp(s, c, n, c);
    }
  }

  // ---- runs -----------------------------------------------------------------------------------

  datatype Step =
    | Ask(d: NodeId, b: NodeId)
    | Subtype(c: NodeId, p: NodeId)
    | Unsubtype(c: NodeId, owner: NodeId)
    | Touch(node: NodeId)

  /** The memoised call: a remembered answer, or the walk's answer, which is then remembered. */
  ghost function AskStep(l: Lattice, d: NodeId, b: NodeId): (Lattice, bool) {
    if Remembers(l, d, b) then (l, l.memo[d][b])
    else
      var answer := Above(l.supertypes, d, b);
      var known := if d in l.memo then l.memo[d] else map[];
      (l.(memo := l.memo[d := known[b := answer]]), answer)
  }

  ghost function Apply(l: Lattice, s: Step): Lattice {
    match s
    case Ask(d, b) => AskStep(l, d, b).0
    case Subtype(c, p) => Attach(l, c, p)
    case Unsubtype(c, owner) => Detach(l, c, owner)
    case Touch(n) => l.(memo := l.memo - {n})
  }

  ghost function Run(l: Lattice, steps: seq<Step>): Lattice
    decreases |steps|
  {
    if steps == [] then l else Run(Apply(l, steps[0]), steps[1..])
  }

  /** Single inheritance and no cycle: the type has no supertype yet and is not above its new one;
      only an edge that is there is removed. */
  ghost predicate Legal(l: Lattice, s: Step) {
    match s
    case Subtype(c, p) => c !in l.supertypes && !Above(l.supertypes, p, c)
    case Unsubtype(c, _) => c in l.supertypes
    case _ => true
  }

  /** No answer across the edge that changes is remembered by a type that is not wiped. */
  ghost predicate Safe(l: Lattice, s: Step)
    requires Legal(l, s)
  {
    match s
    case Subtype(c, p) => !Straddles(l, l.supertypes, c, p, {c, p})
    case Unsubtype(c, owner) => !Straddles(l, l.supertypes, c, l.supertypes[c], {owner})
    case _ => true
  }

  ghost predicate LegalRun(l: Lattice, steps: seq<Step>)
    decreases |steps|
  {
    steps != [] ==> Legal(l, steps[0]) && LegalRun(Apply(l, steps[0]), steps[1..])
  }

  ghost predicate SafeRun(l: Lattice, steps: seq<Step>)
    requires LegalRun(l, steps)
    decreases |steps|
  {
    steps != [] ==> Safe(l, steps[0]) && SafeRun(Apply(l, steps[0]), steps[1..])
  }

  /** The memo is right in every state of the run. */
  ghost predicate AlwaysCoherent(l: Lattice, steps: seq<Step>)
    decreases |steps|
  {
    Coherent(l) && (steps != [] ==> AlwaysCoherent(Apply(l, steps[0]), steps[1..]))
  }

  lemma StepKeepsAcyclic(l: Lattice, s: Step)
    requires Acyclic(l.supertypes) && Legal(l, s)
    ensures Acyclic(Apply(l, s).supertypes)
  {
    match s
    case Subtype(c, p) => AttachKeepsAcyclic(l.supertypes, c, p);
    case Unsubtype(c, _) => DetachKeepsAcyclic(l.supertypes, c);
    case _ =>
  }

  lemma StepCoherent(l: Lattice, s: Step)
    requires Coherent(l) && Acyclic(l.supertypes) && Legal(l, s)
    ensures Coherent(Apply(l, s)) <==> Safe(l, s)
  {
    match s
    case Subtype(c, p) => AttachCoherent(l, c, p);
    case Unsubtype(c, owner) => DetachCoherent(l, c, owner);
    case _ =>
      forall x, y
        ensures Right(Apply(l, s), x, y)
      {
        assert Right(l, x, y);
      }
  }

  /** Exactly the safe runs keep the memo right all the way. */
  lemma {:induction false} RunCoherent(l: Lattice, steps: seq<Step>)
    requires Coherent(l) && Acyclic(l.supertypes) && LegalRun(l, steps)
    ensures AlwaysCoherent(l, steps) <==> SafeRun(l, steps)
    decreases |steps|
  {
    if steps != [] {
      StepKeepsAcyclic(l, steps[0]);
      StepCoherent(l, steps[0]);
      if Safe(l, steps[0]) {
        RunCoherent(Apply(l, steps[0]), steps[1..]);
      } else {
        assert !AlwaysCoherent(Apply(l, steps[0]), steps[1..]);
      }
    }
  }

  // ---- one run after another ------------------------------------------------------------------

  lemma {:induction false} RunAppend(l: Lattice, first: seq<Step>, next: seq<Step>)
    ensures Run(l, first + next) == Run(Run(l, first), next)
    ensures LegalRun(l, first + next) <==> LegalRun(l, first) && LegalRun(Run(l, first), next)
    ensures LegalRun(l, first + next) ==>
      (SafeRun(l, first + next) <==> SafeRun(l, first) && SafeRun(Run(l, first), next))
    decreases |first|
  {
    if first == [] {
      assert first + next == next;
    } else {
      assert (first + next)[0] == first[0] && (first + next)[1..] == first[1..] + next;
      RunAppend(Apply(l, first[0]), first[1..], next);
    }
  }

  lemma {:induction false} SafeRunCoherent(l: Lattice, steps: seq<Step>)
    requires Coherent(l) && Acyclic(l.supertypes) && LegalRun(l, steps) && SafeRun(l, steps)
    ensures Coherent(Run(l, steps)) && Acyclic(Run(l, steps).supertypes)
    decreases |steps|
  {
    if steps != [] {
      StepKeepsAcyclic(l, steps[0]);
      StepCoherent(l, steps[0]);
      SafeRunCoherent(Apply(l, steps[0]), steps[1..]);
    }
  }

  // ---- several edges at once --------------------------------------------------------------------

  function Wipes(s: Step): set<NodeId> {
    match s
    case Subtype(c, p) => {c, p}
    case Unsubtype(_, owner) => {owner}
    case Touch(node) => {node}
    case Ask(_, _) => {}
  }

  function AllWipes(steps: seq<Step>): set<NodeId> {
    if steps == [] then {} else Wipes(steps[0]) + AllWipes(steps[1..])
  }

  /** The memo without what the steps are going to wipe. */
  function Wiped(l: Lattice, steps: seq<Step>): Lattice {
    l.(memo := l.memo - AllWipes(steps))
  }

  predicate Attaching(steps: seq<Step>) {
    forall s :: s in steps ==> s.Subtype? || s.Touch?
  }

  lemma WipedOneByOne(memo: map<NodeId, map<NodeId, bool>>, first: set<NodeId>, rest: set<NodeId>)
    ensures memo - first - rest == memo - (first + rest)
  {
  }

  lemma {:induction false} WipeFirst(l: Lattice, steps: seq<Step>, memo: map<NodeId, map<NodeId, bool>>)
    requires Attaching(steps) && memo - AllWipes(steps) == l.memo - AllWipes(steps)
    ensures Run(l.(memo := memo), steps) == Run(l, steps)
    ensures LegalRun(l.(memo := memo), steps) <==> LegalRun(l, steps)
    decreases |steps|
  {
    if steps != [] {
      var l1, m1 := Apply(l, steps[0]), memo - Wipes(steps[0]);
      assert steps[0] in steps && forall s :: s in steps[1..] ==> s in steps;
      assert Apply(l.(memo := memo), steps[0]) == l1.(memo := m1);
      WipedOneByOne(memo, Wipes(steps[0]), AllWipes(steps[1..]));
      WipedOneByOne(l.memo, Wipes(steps[0]), AllWipes(steps[1..]));
      WipeFirst(l1, steps[1..], m1);
    } else {
      assert memo - {} == memo && l.memo - {} == l.memo;
    }
  }

  /** A "no" that has become wrong stays so as long as edges are only added and it is not wiped. */
  lemma {:induction false} StaleForGood(l: Lattice, steps: seq<Step>, d: NodeId, b: NodeId)
    requires Attaching(steps) && LegalRun(l, steps) && d !in AllWipes(steps)
    requires Remembers(l, d, b) && !l.memo[d][b] && Above(l.supertypes, d, b)
    ensures !Coherent(Run(l, steps))
    decreases |steps|
  {
    if steps == [] {
      assert !Right(l, d, b);
    } else {
      assert steps[0] in steps && forall s :: s in steps[1..] ==> s in steps;
      if steps[0].Subtype? {
        AboveAfterAttach(l.supertypes, steps[0].c, steps[0].p, d, b);
      }
      StaleForGood(Apply(l, steps[0]), steps[1..], d, b);
    }
  }

  lemma UnsafeIsStale(l: Lattice, s: Step) returns (d: NodeId, b: NodeId)
    requires Coherent(l) && Acyclic(l.supertypes) && Legal(l, s) && !Safe(l, s) && s.Subtype?
    ensures var l' := Apply(l, s); Remembers(l', d, b) && !l'.memo[d][b] && Above(l'.supertypes, d, b)
  {
    var l' := Apply(l, s);
    StepCoherent(l, s);
    d, b :| !Right(l', d, b);
    assert Right(l, d, b);
    AboveAfterAttach(l.supertypes, s.c, s.p, d, b);
  }

  /** When nothing is remembered that is going to be wiped, the memo is right in the end exactly when
      every single step is safe. */
  lemma {:induction false} AttachRunCoherent(l: Lattice, steps: seq<Step>)
    requires Coherent(l) && Acyclic(l.supertypes) && LegalRun(l, steps) && Attaching(steps)
    requires l.memo.Keys !! AllWipes(steps)
    ensures Coherent(Run(l, steps)) <==> SafeRun(l, steps)
    decreases |steps|
  {
    if steps != [] {
      var l1 := Apply(l, steps[0]);
      assert steps[0] in steps && forall s :: s in steps[1..] ==> s in steps;
      StepKeepsAcyclic(l, steps[0]);
      StepCoherent(l, steps[0]);
      if Safe(l, steps[0]) {
        AttachRunCoherent(l1, steps[1..]);
      } else {
        var d, b := UnsafeIsStale(l, steps[0]);
        assert d in l1.memo && d in l.memo;
        StaleForGood(l1, steps[1..], d, b);
      }
    }
  }

  /** No answer across an edge that changes is remembered by a type that none of the steps wipes. */
  ghost predicate Harmless(l: Lattice, steps: seq<Step>) {
    LegalRun(Wiped(l, steps), steps) && SafeRun(Wiped(l, steps), steps)
  }

  /** Several edges that are added at once, as when a node is created, keep the memo right exactly when
      that is so. */
  lemma AttachAllCoherent(l: Lattice, steps: seq<Step>)
    requires Coherent(l) && Acyclic(l.supertypes) && LegalRun(l, steps) && Attaching(steps)
    ensures Coherent(Run(l, steps)) <==> Harmless(l, steps)
  {
    var l' := Wiped(l, steps);
    assert l'.memo - AllWipes(steps) == l.memo - AllWipes(steps);
    WipeFirst(l, steps, l'.memo);
    forall d, b
      ensures Right(l', d, b)
    {
      assert Right(l, d, b);
    }
    AttachRunCoherent(l', steps);
  }

  lemma OneStep(l: Lattice, s: Step)
    ensures Run(l, [s]) == Apply(l, s)
    ensures LegalRun(l, [s]) <==> Legal(l, s)
    ensures Legal(l, s) ==> (SafeRun(l, [s]) <==> Safe(l, s))
  {
    assert [s][1..] == [];
    assert Run(Apply(l, s), []) == Apply(l, s);
  }

  lemma OneStepHarmless(l: Lattice, s: Step)
    requires Coherent(l) && Acyclic(l.supertypes) && Legal(l, s)
    ensures Coherent(Apply(l, s)) <==> Harmless(l, [s])
  {
    StepCoherent(l, s);
    assert [s][1..] == [] && AllWipes([s]) == Wipes(s);
    OneStep(Wiped(l, [s]), s);
    match s
    case Subtype(c, p) => SameStraddles(l, l.supertypes, c, p, Wipes(s));
    case Unsubtype(c, _) => SameStraddles(l, l.supertypes, c, l.supertypes[c], Wipes(s));
    case _ =>
  }

  /** Edges that are added together, or a single step of any kind. */
  lemma HarmlessExactly(l: Lattice, steps: seq<Step>)
    requires Coherent(l) && Acyclic(l.supertypes) && LegalRun(l, steps)
    requires Attaching(steps) || |steps| == 1
    ensures Coherent(Run(l, steps)) <==> Harmless(l, steps)
  {
    hide Coherent, Acyclic, Harmless, LegalRun, Run;
    if Attaching(steps) {
      AttachAllCoherent(l, steps);
    } else {
      assert steps == [steps[0]];
      OneStep(l, steps[0]);
      OneStepHarmless(l, steps[0]);
    }
  }

  /** What is remembered by a node that is wiped makes no difference. */
  lemma SameStraddles(l: Lattice, s: Supertypes, c: NodeId, p: NodeId, wiped: set<NodeId>)
    ensures Straddles(l.(memo := l.memo - wiped), s, c, p, wiped) <==> Straddles(l, s, c, p, wiped)
  {
    forall d, b
      ensures Straddle(l.(memo := l.memo - wiped), s, c, p, wiped, d, b) <==> Straddle(l, s, c, p, wiped, d, b)
    {
    }
  }

  lemma {:induction false} LegalRunAcyclic(l: Lattice, steps: seq<Step>)
    requires Acyclic(l.supertypes) && LegalRun(l, steps)
    ensures Acyclic(Run(l, steps).supertypes)
    decreases |steps|
  {
    if steps != [] {
      StepKeepsAcyclic(l, steps[0]);
      LegalRunAcyclic(Apply(l, steps[0]), steps[1..]);
    }
  }

  // ---- runs that never touch a type with subtypes ---------------------------------------------

  predicate Leaf(s: Supertypes, c: NodeId) {
    forall d :: d in s ==> s[d] != c
  }

  /** A type is hung up before it has subtypes, and taken down after it has lost them, by a reference
      it owns itself. */
  predicate LeafStep(l: Lattice, s: Step) {
    match s
    case Subtype(c, p) => c !in l.supertypes && c != p && Leaf(l.supertypes, c)
    case Unsubtype(c, owner) => c in l.supertypes && Leaf(l.supertypes, c) && owner == c
    case _ => true
  }

  ghost predicate LeafRun(l: Lattice, steps: seq<Step>)
    decreases |steps|
  {
    steps != [] ==> LeafStep(l, steps[0]) && LeafRun(Apply(l, steps[0]), steps[1..])
  }

  lemma {:induction false} NothingBelowLeaf(s: Supertypes, c: NodeId, d: NodeId, n: nat)
    requires Leaf(s, c) && UpIs(s, d, n, c)
    ensures d == c
    decreases n
  {
    if n > 0 {
      NothingBelowLeaf(s, c, s[d], n - 1);
    }
  }

  lemma LeafStepSafe(l: Lattice, s: Step)
    requires LeafStep(l, s)
    ensures Legal(l, s) && Safe(l, s)
  {
    if s.Subtype? || s.Unsubtype? {
      forall d | Above(l.supertypes, d, s.c)
        ensures d == s.c
      {
        var n: nat :| UpIs(l.supertypes, d, n, s.c);
        NothingBelowLeaf(l.supertypes, s.c, d, n);
      }
    }
  }

  lemma {:induction false} LeafRunSafe(l: Lattice, steps: seq<Step>)
    requires LeafRun(l, steps)
    ensures LegalRun(l, steps) && SafeRun(l, steps)
    decreases |steps|
  {
    if steps != [] {
      LeafStepSafe(l, steps[0]);
      LeafRunSafe(Apply(l, steps[0]), steps[1..]);
    }
  }

  /** After such a run a memoised answer is the answer of the walk. */
  lemma RunKeepsCoherent(l: Lattice, steps: seq<Step>, d: NodeId, b: NodeId)
    requires Coherent(l) && Acyclic(l.supertypes) && LeafRun(l, steps)
    ensures var l' := Run(l, steps);
      && Coherent(l') && Acyclic(l'.supertypes)
      && Some(AskStep(l', d, b).1) == Walk(l'.supertypes, d, b, |l'.supertypes|)
  {
    LeafRunSafe(l, steps);
    SafeRunCoherent(l, steps);
    var l' := Run(l, steps);
    WalkDecides(l'.supertypes, d, b);
    assert Right(l', d, b);
  }

  /** Hanging a type that already has a subtype: "C" keeps answering that it is not an "A". */
  lemma LateAttachBreaksMemo()
    ensures var l := Run(Lattice(map[], map[]), [Subtype("C", "B"), Ask("C", "A"), Subtype("B", "A")]);
      Above(l.supertypes, "C", "A") && Remembers(l, "C", "A") && !l.memo["C"]["A"]
  {
    var s1, s2, s3 := Subtype("C", "B"), Ask("C", "A"), Subtype("B", "A");
    var l0 := Lattice(map[], map[]);
    var l1 := Apply(l0, s1);
    assert l1 == Lattice(map["C" := "B"], map[]);
    assert Walk(l1.supertypes, "C", "A", 1) == Some(false) by {
      assert Walk(l1.supertypes, "B", "A", 0) == Some(false);
    }
    WalkAnswers(l1.supertypes, "C", "A", 1);
    var l2 := Apply(l1, s2);
    assert l2 == Lattice(map["C" := "B"], map["C" := map["A" := false]]);
    var l3 := Apply(l2, s3);
    assert l3.supertypes["C"] == "B" && l3.supertypes["B"] == "A";
    assert Up(l3.supertypes, "A", 0) == Some("A");
    assert Up(l3.supertypes, "B", 1) == Some("A");
    assert UpIs(l3.supertypes, "C", 2, "A");
    var steps := [s1, s2, s3];
    assert steps[1..] == [s2, s3] && [s2, s3][1..] == [s3] && [s3][1..] == [];
    assert Run(l2, [s3]) == Run(l3, []) == l3;
    assert Run(l1, [s2, s3]) == Run(l2, [s3]);
  }
}

/** IndexIterator: an odometer over an index space, last index fastest. */
module IndexIteration {
  import opened Common

  /** A limit below 1 still lets its digit be 0 once: the odometer carries instead of stopping. */
  function Radix(limit: int): (r: nat)
    ensures r >= 1
  {
    if limit < 1 then 1 else limit
  }

  /** Multiplication by repeated addition, which keeps the proofs below linear. */
  function Times(v: nat, r: nat): nat {
    if v == 0 then 0 else Times(v - 1, r) + r
  }

  lemma {:induction false} TimesIsProduct(v: nat, r: nat)
    ensures Times(v, r) == v * r
  {
    if v > 0 {
      TimesIsProduct(v - 1, r);
    }
  }

  lemma {:induction false} TimesMono(v: nat, w: nat, r: nat)
    requires v <= w
    ensures Times(v, r) <= Times(w, r)
    decreases w
  {
    if v < w {
      TimesMono(v, w - 1, r);
    }
  }

  function Total(limits: seq<int>): (n: nat)
    ensures n >= 1
  {
    if limits == [] then 1 else Times(Total(Init(limits)), Radix(Last(limits)))
  }

  /** The product of the limits; a limit below 1 counts as 1. */
  function Product(limits: seq<int>): nat {
    if limits == [] then 1 else Product(Init(limits)) * Radix(Last(limits))
  }

  lemma {:induction false} TotalIsProduct(limits: seq<int>)
    ensures Total(limits) == Product(limits)
  {
    if limits != [] {
      TotalIsProduct(Init(limits));
      TimesIsProduct(Total(Init(limits)), Radix(Last(limits)));
    }
  }

  function Init<T>(s: seq<T>): seq<T>
    requires s != []
  {
    s[..|s| - 1]
  }

  function Last<T>(s: seq<T>): T
    requires s != []
  {
    s[|s| - 1]
  }

  /** An index tuple within the limits. */
  predicate Tuple(limits: seq<int>, d: seq<int>) {
    |d| == |limits| && forall i :: 0 <= i < |d| ==> 0 <= d[i] < Radix(limits[i])
  }

  /** The number whose mixed-radix digits are `d`. */
  function Value(limits: seq<int>, d: seq<int>): (v: nat)
    requires Tuple(limits, d)
  {
    if limits == [] then 0 else Times(Value(Init(limits), Init(d)), Radix(Last(limits))) + Last(d)
  }

  lemma {:induction false} ValueInRange(limits: seq<int>, d: seq<int>)
    requires Tuple(limits, d)
    ensures Value(limits, d) < Total(limits)
  {
    if limits != [] {
      ValueInRange(Init(limits), Init(d));
      DigitOrder(Value(Init(limits), Init(d)), Last(d), Total(Init(limits)), 0, Radix(Last(limits)));
    }
  }

  /** Comparing two numbers by their last digit in base `r`. */
  lemma DigitOrder(v: nat, x: nat, w: nat, y: nat, r: nat)
    requires x < r && y < r
    ensures Times(v, r) + x < Times(w, r) + y <==> v < w || (v == w && x < y)
  {
    if v < w {
      TimesMono(v + 1, w, r);
    } else if w < v {
      TimesMono(w + 1, v, r);
    }
  }

  /** The first differing index decides. */
  ghost predicate LexLess(d: seq<int>, e: seq<int>)
    requires |d| == |e|
  {
    exists i :: 0 <= i < |d| && d[..i] == e[..i] && d[i] < e[i]
  }

  lemma {:induction false} ValueInjective(limits: seq<int>, d: seq<int>, e: seq<int>)
    requires Tuple(limits, d) && Tuple(limits, e) && Value(limits, d) == Value(limits, e)
    ensures d == e
  {
    if limits != [] {
      var r, v, w := Radix(Last(limits)), Value(Init(limits), Init(d)), Value(Init(limits), Init(e));
      DigitOrder(v, Last(d), w, Last(e), r);
      DigitOrder(w, Last(e), v, Last(d), r);
      assert v == w && Last(d) == Last(e);
      ValueInjective(Init(limits), Init(d), Init(e));
      hide Tuple, Value;
      assert d == Init(d) + [Last(d)] && e == Init(e) + [Last(e)];
    }
  }

  /** Counting up is going through the tuples in lexicographic order. */
  lemma {:induction false} LexIsValueOrder(limits: seq<int>, d: seq<int>, e: seq<int>)
    requires Tuple(limits, d) && Tuple(limits, e)
    ensures LexLess(d, e) <==> Value(limits, d) < Value(limits, e)
  {
    if limits != [] {
      var v, w := Value(Init(limits), Init(d)), Value(Init(limits), Init(e));
      LexIsValueOrder(Init(limits), Init(d), Init(e));
      LexLast(d, e);
      if v == w {
        ValueInjective(Init(limits), Init(d), Init(e));
      }
      assert LexLess(d, e) <==> v < w || (v == w && Last(d) < Last(e));
      DigitOrder(v, Last(d), w, Last(e), Radix(Last(limits)));
    }
  }

  lemma LexLast(d: seq<int>, e: seq<int>)
    requires |d| == |e| > 0
    ensures LexLess(d, e) <==> LexLess(Init(d), Init(e)) || (Init(d) == Init(e) && Last(d) < Last(e))
  {
    var n := |d| - 1;
    if i :| 0 <= i < |d| && d[..i] == e[..i] && d[i] < e[i] {
      if i < n {
        assert Init(d)[..i] == d[..i] && Init(e)[..i] == e[..i];
        assert LexLess(Init(d), Init(e));
      }
    }
    if i :| 0 <= i < n && Init(d)[..i] == Init(e)[..i] && Init(d)[i] < Init(e)[i] {
      assert Init(d)[..i] == d[..i] && Init(e)[..i] == e[..i];
      assert LexLess(d, e);
    }
    if Init(d) == Init(e) && Last(d) < Last(e) {
      assert d[..n] == e[..n] && d[n] < e[n];
    }
  }

  // ---- the odometer ---------------------------------------------------------------------------

  /** One increment; None when the first digit would carry. */
  function Advance(limits: seq<int>, d: seq<int>): (next: Option<seq<int>>)
    requires |d| == |limits|
    ensures next.Some? ==> |next.value| == |limits|
  {
    if d == [] then None
    else if Last(d) + 1 < Last(limits) then Some(Init(d) + [Last(d) + 1])
    else
      var carried := Advance(Init(limits), Init(d));
      if carried.None? then None else Some(carried.value + [0])
  }

  lemma ValueAppend(limits: seq<int>, d: seq<int>, x: int)
    requires limits != [] && Tuple(Init(limits), d) && 0 <= x < Radix(Last(limits))
    ensures Tuple(limits, d + [x])
    ensures Value(limits, d + [x]) == Times(Value(Init(limits), d), Radix(Last(limits))) + x
  {
    assert Init(d + [x]) == d && Last(d + [x]) == x;
  }

  /** The last digit is not at its limit yet. */
  lemma LastAdvances(limits: seq<int>, d: seq<int>)
    requires limits != [] && Tuple(limits, d) && Last(d) + 1 < Last(limits)
    ensures Value(limits, d) + 1 < Total(limits)
    ensures Tuple(limits, Init(d) + [Last(d) + 1]) && Value(limits, Init(d) + [Last(d) + 1]) == Value(limits, d) + 1
  {
    ValueInRange(Init(limits), Init(d));
    DigitOrder(Value(Init(limits), Init(d)), Last(d) + 1, Total(Init(limits)), 0, Radix(Last(limits)));
    ValueAppend(limits, Init(d), Last(d) + 1);
  }

  /** Adding one to a number whose last digit is the highest one. */
  lemma CarryDigit(v: nat, t: nat, last: nat, r: nat)
    requires v < t && last + 1 == r
    ensures Times(v + 1, r) == Times(v, r) + last + 1
    ensures v + 1 < t <==> Times(v, r) + last + 1 < Times(t, r)
  {
    DigitOrder(v + 1, 0, t, 0, r);
  }

  /** The last digit is at its limit and the digits before it are advanced to `carried`, if they can be. */
  lemma LastCarries(limits: seq<int>, d: seq<int>, carried: Option<seq<int>>)
    requires limits != [] && Tuple(limits, d) && Last(d) + 1 >= Last(limits)
    requires carried.Some? <==> Value(Init(limits), Init(d)) + 1 < Total(Init(limits))
    requires carried.Some? ==>
      Tuple(Init(limits), carried.value) && Value(Init(limits), carried.value) == Value(Init(limits), Init(d)) + 1
    ensures carried.Some? <==> Value(limits, d) + 1 < Total(limits)
    ensures carried.Some? ==>
      Tuple(limits, carried.value + [0]) && Value(limits, carried.value + [0]) == Value(limits, d) + 1
  {
    ValueInRange(Init(limits), Init(d));
    CarryDigit(Value(Init(limits), Init(d)), Total(Init(limits)), Last(d), Radix(Last(limits)));
    if carried.Some? {
      ValueAppend(limits, carried.value, 0);
    }
  }

  lemma {:induction false} AdvanceCounts(limits: seq<int>, d: seq<int>)
    requires Tuple(limits, d)
    ensures var next := Advance(limits, d);
      && (next.Some? <==> Value(limits, d) + 1 < Total(limits))
      && (next.Some? ==> Tuple(limits, next.value) && Value(limits, next.value) == Value(limits, d) + 1)
  {
    if limits != [] {
      if Last(d) + 1 < Last(limits) {
        LastAdvances(limits, d);
      } else {
        AdvanceCounts(Init(limits), Init(d));
        LastCarries(limits, d, Advance(Init(limits), Init(d)));
      }
    }
  }

  function Zeros(n: nat): seq<int> {
    seq(n, _ => 0)
  }

  lemma {:induction false} ZerosAreFirst(limits: seq<int>)
    ensures Tuple(limits, Zeros(|limits|)) && Value(limits, Zeros(|limits|)) == 0
  {
    if limits != [] {
      ZerosAreFirst(Init(limits));
      assert Init(Zeros(|limits|)) == Zeros(|limits| - 1);
    }
  }

  /** The digits held after `k` successful calls of next; None once the space is used up. */
  function After(limits: seq<int>, k: nat): (d: Option<seq<int>>)
    ensures d.Some? ==> |d.value| == |limits|
  {
    if k == 0 then Some(Zeros(|limits|))
    else
      var before := After(limits, k - 1);
      if before.None? then None else Advance(limits, before.value)
  }

  /** Call number `k`, counted from 0, returns the digits of `k`, and exactly as many calls succeed as
      the product of the limits. */
  lemma {:induction false} Enumeration(limits: seq<int>, k: nat)
    ensures After(limits, k).Some? <==> k < Product(limits)
    ensures Total(limits) == Product(limits)
    ensures k < Total(limits) ==> Tuple(limits, After(limits, k).value) && Value(limits, After(limits, k).value) == k
    decreases k
  {
    TotalIsProduct(limits);
    if k == 0 {
      ZerosAreFirst(limits);
    } else {
      Enumeration(limits, k - 1);
      if k - 1 < Total(limits) {
        AdvanceCounts(limits, After(limits, k - 1).value);
      }
    }
  }

  /** So every index tuple is returned by exactly one call, in lexicographic order. */
  lemma EveryTupleOnce(limits: seq<int>, d: seq<int>, j: nat, k: nat)
    requires Tuple(limits, d)
    ensures After(limits, Value(limits, d)) == Some(d)
    ensures After(limits, k) == Some(d) ==> k == Value(limits, d)
    ensures j < k < Total(limits) ==>
      After(limits, j).Some? && After(limits, k).Some? && LexLess(After(limits, j).value, After(limits, k).value)
  {
    ValueInRange(limits, d);
    Enumeration(limits, Value(limits, d));
    ValueInjective(limits, After(limits, Value(limits, d)).value, d);
    Enumeration(limits, j);
    Enumeration(limits, k);
    if j < k < Total(limits) {
      LexIsValueOrder(limits, After(limits, j).value, After(limits, k).value);
    }
  }

  class IndexIterator {
    const limits: seq<int>
    var current: array?<int>

    ghost predicate Valid()
      reads this
    {
      current != null ==> current.Length == |limits|
    }

    function State(): Option<seq<int>>
      reads this, current
    {
      if current == null then None else Some(current[..])
    }

    constructor (limits: seq<int>)
      ensures this.limits == limits && Valid() && State() == After(limits, 0) && fresh(current)
    {
      this.limits := limits;
      new;
      Reset();
    }

    method Reset()
      modifies this
      ensures Valid() && State() == After(limits, 0) && fresh(current)
    {
      current := new int[|limits|];
      for i := 0 to |limits|
        invariant current != null && current.Length == |limits| && fresh(current)
        invariant forall j :: 0 <= j < i ==> current[j] == 0
      {
        current[i] := 0;
      }
      assert current[..] == Zeros(|limits|);
    }

    /** The carry chain: digits up to `n` are advanced in place; false when the first one overflows. */
    method Increase(n: int) returns (ok: bool)
      requires current != null && current.Length == |limits| && -1 <= n < |limits|
      modifies this`current, current
      ensures var next := Advance(limits[..n + 1], old(current[..n + 1]));
        && ok == next.Some?
        && (ok ==> current == old(current))
        && (ok ==> current[..n + 1] == next.value && current[n + 1..] == old(current[n + 1..]))
      decreases n + 1
    {
      if n < 0 {
        return false;
      }
      ghost var d := current[..n + 1];
      assert Init(d) == current[..n] && Last(d) == current[n];
      assert Init(limits[..n + 1]) == limits[..n] && Last(limits[..n + 1]) == limits[n];
      if current[n] + 1 >= limits[n] {
        if n == 0 {
          current := null;
          return false;
        }
        current[n] := 0;
        assert current[..n] == Init(d);
        ok := Increase(n - 1);
        if ok {
          assert current[..n + 1] == current[..n] + current[n..][..1];
          assert current[n + 1..] == current[n..][1..];
        }
        return;
      }
      current[n] := current[n] + 1;
      assert current[..n + 1] == Init(d) + [Last(d) + 1];
      ok := true;
    }

    method Increment()
      requires Valid()
      modifies this, current
      ensures Valid()
      ensures State() == if old(State()).None? then None else Advance(limits, old(State()).value)
    {
      if current == null {
        return;
      }
      var n := |limits| - 1;
      assert limits[..n + 1] == limits && current[..n + 1] == current[..];
      var ok := Increase(n);
      if !ok {
        current := null;
      } else {
        assert current[..n + 1] == current[..];
      }
    }

    /** None when it throws. */
    method Next() returns (r: Option<seq<int>>)
      requires Valid()
      modifies this, current
      ensures Valid() && r == old(State())
      ensures State() == if r.None? then None else Advance(limits, r.value)
      ensures forall k: nat :: old(State()) == After(limits, k) ==> State() == After(limits, k + 1)
    {
      if current == null {
        return None;
      }
      r := Some(current[..]);
      Increment();
    }
  }
}

/** Options and the few facts about duplicate-free sequences that the other modules share. */
module Common {

  datatype Option<+T> = None | Some(value: T)

  datatype QualifiedName = QualifiedName(namespaceIndex: nat, name: string)

  /** The names that every plain JavaScript object inherits, so that a table kept in one seems to hold
      them. */
  predicate Inherited(name: string) {
    || name in {"constructor", "toString", "toLocaleString", "valueOf", "hasOwnProperty", "isPrototypeOf"}
    || name in {"propertyIsEnumerable", "__proto__"}
    || name in {"__defineGetter__", "__defineSetter__", "__lookupGetter__", "__lookupSetter__"}
  }

  ghost predicate NoDup<T>(s: seq<T>) {
    forall i, j :: 0 <= i < j < |s| ==> s[i] != s[j]
  }

  lemma AppendAssoc<T>(a: seq<T>, b: seq<T>, c: seq<T>)
    ensures (a + b) + c == a + (b + c)
  {
  }

  /** `s` without any occurrence of `x`, the rest in order: Map.delete on an insertion-ordered Map. */
  function Without<T(==,!new)>(s: seq<T>, x: T): (t: seq<T>)
    ensures forall y :: y in t <==> y in s && y != x
    ensures |t| <= |s|
  {
    if s == [] then []
    else if s[0] == x then Without(s[1..], x)
    else [s[0]] + Without(s[1..], x)
  }

  lemma {:induction false} WithoutNoDup<T(!new)>(s: seq<T>, x: T)
    requires NoDup(s)
    ensures NoDup(Without(s, x))
  {
    if s != [] {
      assert s[0] !in s[1..];
      WithoutNoDup(s[1..], x);
    }
  }

  lemma {:induction false} WithoutAbsent<T(!new)>(s: seq<T>, x: T)
    requires x !in s
    ensures Without(s, x) == s
  {
    if s != [] {
      WithoutAbsent(s[1..], x);
    }
  }

  lemma {:induction false} WithoutAppend<T(!new)>(s: seq<T>, t: seq<T>, x: T)
    ensures Without(s + t, x) == Without(s, x) + Without(t, x)
  {
    if s == [] {
      assert s + t == t;
    } else {
      assert (s + t)[1..] == s[1..] + t;
      WithoutAppend(s[1..], t, x);
    }
  }

  /** Appending a new element and deleting it again is the identity, order included. */
  lemma WithoutLast<T(!new)>(s: seq<T>, x: T)
    requires x !in s
    ensures Without(s + [x], x) == s
  {
    WithoutAppend(s, [x], x);
    WithoutAbsent(s, x);
    assert [x][1..] == [];
  }

  lemma NoDupAppend<T(!new)>(s: seq<T>, x: T)
    requires NoDup(s) && x !in s
    ensures NoDup(s + [x])
  {
  }

  lemma NoDupInit<T(!new)>(s: seq<T>, x: T)
    requires NoDup(s + [x])
    ensures NoDup(s) && x !in s
  {
    var t := s + [x];
    assert forall i :: 0 <= i < |s| ==> t[i] == s[i] && t[i] != t[|s|];
  }

  lemma NoDupConcat<T(!new)>(s: seq<T>, t: seq<T>)
    requires NoDup(s) && NoDup(t) && forall x :: x in s ==> x !in t
    ensures NoDup(s + t)
  {
    forall i, j | 0 <= i < j < |s + t|
      ensures (s + t)[i] != (s + t)[j]
    {
      assert i < |s| ==> (s + t)[i] in s;
      assert j >= |s| ==> (s + t)[j] in t;
    }
  }

  lemma NoDupAppendAtMostOne<T(!new)>(s: seq<T>, t: seq<T>)
    requires NoDup(s) && |t| <= 1 && forall x :: x in t ==> x !in s
    ensures NoDup(s + t)
  {
    if t == [] {
      assert s + t == s;
    } else {
      NoDupAppend(s, t[0]);
      assert t == [t[0]];
    }
  }

  /** `xs` is obtained from `ys` by leaving elements out. */
  predicate Subsequence<T(==)>(xs: seq<T>, ys: seq<T>) {
    if xs == [] then true
    else if ys == [] then false
    else if xs[0] == ys[0] then Subsequence(xs[1..], ys[1..])
    else Subsequence(xs, ys[1..])
  }

  lemma {:induction false} SubsequenceSelf<T(!new)>(xs: seq<T>)
    ensures Subsequence(xs, xs)
  {
    if xs != [] {
      SubsequenceSelf(xs[1..]);
    }
  }

  lemma {:induction false} SubsequenceConcat<T(!new)>(xs: seq<T>, ys: seq<T>, vs: seq<T>, ws: seq<T>)
    requires Subsequence(xs, ys) && Subsequence(vs, ws)
    ensures Subsequence(xs + vs, ys + ws)
    decreases |ys|
  {
    if ys == [] {
      assert xs + vs == vs && ys + ws == ws;
    } else {
      assert (ys + ws)[1..] == ys[1..] + ws;
      if xs != [] && xs[0] == ys[0] {
        assert (xs + vs)[1..] == xs[1..] + vs;
        SubsequenceConcat(xs[1..], ys[1..], vs, ws);
      } else {
        SubsequenceConcat(xs, ys[1..], vs, ws);
        SubsequenceSkip(xs + vs, ys + ws);
      }
    }
  }

  lemma {:induction false} SubsequenceMembers<T(!new)>(xs: seq<T>, ys: seq<T>)
    requires Subsequence(xs, ys)
    ensures forall x :: x in xs ==> x in ys
  {
    if xs != [] {
      assert forall x :: x in xs ==> x == xs[0] || x in xs[1..];
      if xs[0] == ys[0] {
        SubsequenceMembers(xs[1..], ys[1..]);
      } else {
        SubsequenceMembers(xs, ys[1..]);
      }
    }
  }

  lemma {:induction false} SubsequenceTail<T(!new)>(xs: seq<T>, ys: seq<T>)
    requires xs != [] && Subsequence(xs, ys)
    ensures Subsequence(xs[1..], ys)
  {
    if xs[0] == ys[0] {
      if |xs| > 1 && xs[1] == ys[0] {
        SubsequenceTail(xs[1..], ys[1..]);
      }
    } else {
      SubsequenceTail(xs, ys[1..]);
      if |xs| > 1 && xs[1] == ys[0] {
        SubsequenceTail(xs[1..], ys[1..]);
      }
    }
  }

  lemma {:induction false} SubsequenceWithout<T(!new)>(xs: seq<T>, ys: seq<T>, x: T)
    requires Subsequence(xs, ys)
    ensures Subsequence(Without(xs, x), ys)
    decreases |ys|
  {
    if xs != [] {
      if xs[0] == x {
        SubsequenceTail(xs, ys);
        if xs[0] == ys[0] {
          SubsequenceWithout(xs[1..], ys[1..], x);
        } else {
          SubsequenceWithout(xs, ys[1..], x);
        }
        SubsequenceSkip(Without(xs, x), ys);
      } else if xs[0] == ys[0] {
        SubsequenceWithout(xs[1..], ys[1..], x);
      } else {
        SubsequenceWithout(xs, ys[1..], x);
      }
    }
  }

  lemma {:induction false} SubsequenceSkip<T(!new)>(xs: seq<T>, ys: seq<T>)
    requires ys != [] && Subsequence(xs, ys[1..])
    ensures Subsequence(xs, ys)
  {
    if xs != [] && xs[0] == ys[0] {
      SubsequenceTail(xs, ys[1..]);
    }
  }
}

/** References, and the hash under which both reference indexes of a node file them. */
module References {

  /** A NodeId by its canonical text, such as "ns=1;i=1000". */
  type NodeId = string

  datatype Reference = Reference(isForward: bool, referenceType: NodeId, nodeId: NodeId)

  function Hash(r: Reference): string {
    (if r.isForward then "" else "!") + r.referenceType + "-" + r.nodeId
  }

  /** The same edge seen from its other end; `owner` is the node that declares `r`. */
  function Mirror(r: Reference, owner: NodeId): Reference {
    Reference(!r.isForward, r.referenceType, owner)
  }

  /** No NodeId text starts with "!". */
  predicate TypeIds(types: set<NodeId>) {
    forall t :: t in types ==> t == "" || t[0] != '!'
  }

  /** The two texts that "-" could make ambiguous: "ns=1;s=a" and "ns=1;s=a-b". */
  predicate Separable(types: set<NodeId>) {
    forall t, u :: t in types && u in types ==> !(t + "-" <= u)
  }

  /** A hash tells apart all references over a set of reference types exactly when no reference
      type id is, up to a dash, the beginning of another one. */
  lemma HashIdentifiesReference(types: set<NodeId>)
    requires TypeIds(types)
    ensures Separable(types) <==>
      forall r: Reference, s: Reference ::
        r.referenceType in types && s.referenceType in types && Hash(r) == Hash(s) ==> r == s
  {
    if Separable(types) {
      forall r: Reference, s: Reference
        | r.referenceType in types && s.referenceType in types && Hash(r) == Hash(s)
        ensures r == s
      {
        SameHash(types, r, s);
      }
    } else {
      var t, u :| t in types && u in types && t + "-" <= u;
      var rest := u[|t| + 1..];
      assert u == t + "-" + rest;
      var r, s := Reference(true, t, rest + "-"), Reference(true, u, "");
      assert Hash(r) == Hash(s) by {
        assert Hash(r) == t + "-" + (rest + "-");
        assert Hash(s) == (t + "-" + rest) + "-";
      }
      assert r.nodeId != s.nodeId;
    }
  }

  lemma SameHash(types: set<NodeId>, r: Reference, s: Reference)
    requires Separable(types) && r.referenceType in types && s.referenceType in types
    requires TypeIds(types) && Hash(r) == Hash(s)
    ensures r == s
  {
    HashParts(types, r);
    HashParts(types, s);
    SameSplit(r.referenceType, r.nodeId, s.referenceType, s.nodeId);
  }

  lemma HashParts(types: set<NodeId>, r: Reference)
    requires TypeIds(types) && r.referenceType in types
    ensures Hash(r) != "" && (r.isForward <==> Hash(r)[0] != '!')
    ensures Hash(r)[if r.isForward then 0 else 1..] == r.referenceType + "-" + r.nodeId
  {
  }

  /** So a Map keyed by the hash files references as a set of references would. */
  lemma FiledByHash(types: set<NodeId>, refs: seq<Reference>, r: Reference)
    requires Separable(types) && TypeIds(types) && r.referenceType in types
    requires forall q :: q in refs ==> q.referenceType in types
    ensures (exists q :: q in refs && Hash(q) == Hash(r)) <==> r in refs
  {
    forall q | q in refs && Hash(q) == Hash(r)
      ensures q == r
    {
      SameHash(types, q, r);
    }
  }

  lemma SameSplit(t: string, n: string, u: string, m: string)
    requires t + "-" + n == u + "-" + m
    requires !(t + "-" <= u) && !(u + "-" <= t)
    ensures t == u && n == m
  {
    var h := t + "-" + n;
    assert h == u + "-" + m;
    assert h[..|t| + 1] == t + "-";
    assert h[..|u| + 1] == u + "-";
    assert |t| >= |u|;
    assert |u| >= |t|;
    assert t == h[..|t|] == u;
    assert n == h[|t| + 1..] == m;
  }
}

/** splitRoleList: a semicolon separated list of roles, in which a NodeId such as "ns=1;i=1661" has a
    semicolon of its own. */
module RoleLists {
  import opened Common

  const SEPARATOR: char := ';'

  /** The white space and line terminators that String.prototype.trim takes away. */
  predicate IsSpace(c: char) {
    || c in {' ', '\t', '\n', '\r', '\U{b}', '\U{c}', '\U{a0}', '\U{1680}'}
    || '\U{2000}' <= c <= '\U{200a}'
    || c in {'\U{2028}', '\U{2029}', '\U{202f}', '\U{205f}', '\U{3000}', '\U{feff}'}
  }

  function TrimStart(s: string): (t: string)
    ensures forall c :: c in t ==> c in s
    ensures t != "" ==> !IsSpace(t[0])
  {
    if s != "" && IsSpace(s[0]) then TrimStart(s[1..]) else s
  }

  function TrimEnd(s: string): (t: string)
    ensures forall c :: c in t ==> c in s
    ensures t <= s
    ensures t != "" ==> !IsSpace(t[|t| - 1])
  {
    if s != "" && IsSpace(s[|s| - 1]) then TrimEnd(s[..|s| - 1]) else s
  }

  function Trim(s: string): string {
    TrimEnd(TrimStart(s))
  }

  predicate Trimmed(s: string) {
    s != "" ==> !IsSpace(s[0]) && !IsSpace(s[|s| - 1])
  }

  lemma TrimIsTrimmed(s: string)
    ensures Trimmed(Trim(s))
    ensures Trimmed(s) ==> Trim(s) == s
    ensures forall c :: c in Trim(s) ==> c in s
  {
    var t := Trim(s);
    assert t <= TrimStart(s);
    assert t != "" ==> t[0] == TrimStart(s)[0];
  }

  /** One more character in front of a text that is split into `tokens`. */
  function Prepend(c: char, tokens: seq<string>): seq<string>
    requires |tokens| > 0
  {
    if c == SEPARATOR then [""] + tokens else [[c] + tokens[0]] + tokens[1..]
  }

  /** split(";"): never empty */
  function Split(s: string): (tokens: seq<string>)
    ensures |tokens| > 0
    ensures forall t :: t in tokens ==> SEPARATOR !in t
  {
    if s == "" then [""]
    else
      var rest := Split(s[1..]);
      assert rest[0] in rest;
      Prepend(s[0], rest)
  }

  /** /^ns=\d+$/ */
  predicate IsNamespacePrefix(s: string) {
    |s| >= 4 && s[..3] == "ns=" && forall i :: 3 <= i < |s| ==> '0' <= s[i] <= '9'
  }

  /** One turn of the loop. */
  function Take(roles: seq<string>, token: string): seq<string> {
    var role := Trim(token);
    if role == "" then roles
    else if roles != [] && IsNamespacePrefix(roles[|roles| - 1]) then
      roles[..|roles| - 1] + [roles[|roles| - 1] + [SEPARATOR] + role]
    else roles + [role]
  }

  function TakeAll(roles: seq<string>, tokens: seq<string>): seq<string>
    decreases |tokens|
  {
    if tokens == [] then roles else TakeAll(Take(roles, tokens[0]), tokens[1..])
  }

  function RoleList(roleIds: string): seq<string> {
    TakeAll([], Split(roleIds))
  }

  method SplitRoleList(roleIds: string) returns (roles: seq<string>)
    ensures roles == RoleList(roleIds)
    ensures Canonical(roles)
  {
    roles := [];
    var tokens := Split(roleIds);
    for i := 0 to |tokens|
      invariant TakeAll(roles, tokens[i..]) == RoleList(roleIds)
    {
      var role := Trim(tokens[i]);
      assert tokens[i..][0] == tokens[i] && tokens[i..][1..] == tokens[i + 1..];
      if |role| == 0 {
        continue;
      }
      if |roles| > 0 && IsNamespacePrefix(roles[|roles| - 1]) {
        roles := roles[..|roles| - 1] + [roles[|roles| - 1] + [SEPARATOR] + role];
        continue;
      }
      roles := roles + [role];
    }
    RoleListCanonical(roleIds);
  }

  // ---- the lists that survive a round trip ----------------------------------------------------

  function Join(roles: seq<string>): string {
    if roles == [] then "" else if |roles| == 1 then roles[0] else roles[0] + [SEPARATOR] + Join(roles[1..])
  }

  predicate Token(r: string) {
    r != "" && Trimmed(r) && SEPARATOR !in r
  }

  /** A role without semicolon that does not look like half a NodeId. */
  predicate Plain(r: string) {
    Token(r) && !IsNamespacePrefix(r)
  }

  predicate GluedAt(r: string, n: nat) {
    n < |r| && r[n] == SEPARATOR && IsNamespacePrefix(r[..n]) && Token(r[n + 1..])
  }

  /** "ns=1;" and the rest of a NodeId, or of anything else without a semicolon. */
  predicate Glued(r: string) {
    exists n: nat :: n < |r| && GluedAt(r, n)
  }

  /** The roles that can follow each other; half a NodeId may only come last. */
  predicate Canonical(roles: seq<string>) {
    forall i :: 0 <= i < |roles| ==>
      Plain(roles[i]) || Glued(roles[i]) || (i == |roles| - 1 && IsNamespacePrefix(roles[i]))
  }

  lemma PrefixIsToken(r: string)
    requires IsNamespacePrefix(r)
    ensures Token(r)
  {
    assert r[0] == r[..3][0] == 'n';
    assert r[1] == r[..3][1] && r[2] == r[..3][2];
    forall i | 0 <= i < |r|
      ensures r[i] != SEPARATOR
    {
    }
  }

  lemma GluedIsNoPrefix(r: string)
    requires Glued(r)
    ensures !IsNamespacePrefix(r)
  {
    var n: nat :| n < |r| && GluedAt(r, n);
    assert r[n] in r;
    if IsNamespacePrefix(r) {
      PrefixIsToken(r);
    }
  }

  // ---- every result is canonical --------------------------------------------------------------

  lemma TakeCanonical(roles: seq<string>, token: string)
    requires Canonical(roles) && SEPARATOR !in token
    ensures Canonical(Take(roles, token))
  {
    var role := Trim(token);
    TrimIsTrimmed(token);
    if role != "" {
      assert Token(role);
      if roles != [] && IsNamespacePrefix(roles[|roles| - 1]) {
        var last := roles[|roles| - 1];
        var r := last + [SEPARATOR] + role;
        assert r[..|last|] == last && r[|last| + 1..] == role;
        assert GluedAt(r, |last|);
      }
    }
  }

  lemma {:induction false} TakeAllCanonical(roles: seq<string>, tokens: seq<string>)
    requires Canonical(roles) && forall t :: t in tokens ==> SEPARATOR !in t
    ensures Canonical(TakeAll(roles, tokens))
    decreases |tokens|
  {
    if tokens != [] {
      TakeCanonical(roles, tokens[0]);
      TakeAllCanonical(Take(roles, tokens[0]), tokens[1..]);
    }
  }

  lemma RoleListCanonical(roleIds: string)
    ensures Canonical(RoleList(roleIds))
  {
    TakeAllCanonical([], Split(roleIds));
  }

  // ---- every canonical list comes back --------------------------------------------------------

  lemma {:induction false} SplitWhole(s: string)
    requires SEPARATOR !in s
    ensures Split(s) == [s]
  {
    if s != "" {
      SplitWhole(s[1..]);
      assert [s[0]] + s[1..] == s;
    }
  }

  lemma PrependAppend(c: char, a: seq<string>, b: seq<string>)
    requires |a| > 0
    ensures |a + b| > 0 && Prepend(c, a + b) == Prepend(c, a) + b
  {
    assert (a + b)[0] == a[0] && (a + b)[1..] == a[1..] + b;
  }

  lemma ConsAround(s: string, t: string)
    requires s != ""
    ensures var whole := s + [SEPARATOR] + t; whole != "" && whole[0] == s[0] && whole[1..] == s[1..] + [SEPARATOR] + t
  {
  }

  lemma {:induction false} SplitAround(s: string, t: string)
    ensures Split(s + [SEPARATOR] + t) == Split(s) + Split(t)
  {
    if s == "" {
      assert s + [SEPARATOR] + t == [SEPARATOR] + t;
      assert ([SEPARATOR] + t)[1..] == t;
    } else {
      ConsAround(s, t);
      SplitAround(s[1..], t);
      PrependAppend(s[0], Split(s[1..]), Split(t));
    }
  }

  lemma {:induction false} TakeAllAppend(roles: seq<string>, a: seq<string>, b: seq<string>)
    ensures TakeAll(roles, a + b) == TakeAll(TakeAll(roles, a), b)
    decreases |a|
  {
    if a == [] {
      assert a + b == b;
    } else {
      assert (a + b)[0] == a[0] && (a + b)[1..] == a[1..] + b;
      TakeAllAppend(Take(roles, a[0]), a[1..], b);
    }
  }

  predicate Open(roles: seq<string>) {
    roles != [] && IsNamespacePrefix(roles[|roles| - 1])
  }

  lemma TwoTokens(roles: seq<string>, head: string, tail: string)
    requires !Open(roles) && IsNamespacePrefix(head) && Token(head) && Token(tail)
    ensures TakeAll(roles, [head, tail]) == roles + [head + [SEPARATOR] + tail]
  {
    TrimIsTrimmed(head);
    TrimIsTrimmed(tail);
    var one := roles + [head];
    assert Take(roles, head) == one;
    assert one[..|one| - 1] == roles && one[|one| - 1] == head;
    assert Take(one, tail) == roles + [head + [SEPARATOR] + tail];
    assert [head, tail][1..] == [tail] && [tail][1..] == [];
    assert TakeAll(one, [tail]) == TakeAll(Take(one, tail), []);
  }

  lemma GluedRole(roles: seq<string>, r: string, n: nat)
    requires !Open(roles) && n < |r| && GluedAt(r, n)
    ensures TakeAll(roles, Split(r)) == roles + [r]
  {
    var head, tail := r[..n], r[n + 1..];
    assert r == head + [SEPARATOR] + tail;
    PrefixIsToken(head);
    SplitAround(head, tail);
    SplitWhole(head);
    SplitWhole(tail);
    TwoTokens(roles, head, tail);
    assert [head] + [tail] == [head, tail];
  }

  /** A role of a canonical list is taken back as it was. */
  lemma OneRole(roles: seq<string>, r: string)
    requires !Open(roles) && (Plain(r) || Glued(r) || IsNamespacePrefix(r))
    ensures TakeAll(roles, Split(r)) == roles + [r]
  {
    if Glued(r) {
      var n: nat :| n < |r| && GluedAt(r, n);
      GluedRole(roles, r, n);
    } else {
      if IsNamespacePrefix(r) {
        PrefixIsToken(r);
      }
      SplitWhole(r);
      TrimIsTrimmed(r);
      assert [r][1..] == [];
    }
  }

  lemma CanonicalTail(roles: seq<string>)
    requires Canonical(roles) && |roles| > 1
    ensures Canonical(roles[1..]) && (Plain(roles[0]) || Glued(roles[0])) && !IsNamespacePrefix(roles[0])
  {
    if Glued(roles[0]) {
      GluedIsNoPrefix(roles[0]);
    }
    forall i | 0 <= i < |roles| - 1
      ensures Plain(roles[1..][i]) || Glued(roles[1..][i]) || (i == |roles| - 2 && IsNamespacePrefix(roles[1..][i]))
    {
      assert roles[1..][i] == roles[i + 1];
    }
  }

  lemma ThenTheRest(roles: seq<string>, r: string, rest: seq<string>, text: string)
    requires TakeAll(roles, Split(r)) == roles + [r]
    requires TakeAll(roles + [r], Split(text)) == roles + [r] + rest
    ensures TakeAll(roles, Split(r + [SEPARATOR] + text)) == roles + ([r] + rest)
  {
    SplitAround(r, text);
    TakeAllAppend(roles, Split(r), Split(text));
    AppendAssoc(roles, [r], rest);
  }

  lemma {:induction false} CanonicalComesBack(roles: seq<string>, more: seq<string>)
    requires !Open(roles) && Canonical(more) && more != []
    ensures TakeAll(roles, Split(Join(more))) == roles + more
    decreases |more|
  {
    var r, rest := more[0], more[1..];
    assert more == [r] + rest;
    OneRole(roles, r);
    if rest != [] {
      CanonicalTail(more);
      CanonicalComesBack(roles + [r], rest);
      ThenTheRest(roles, r, rest, Join(rest));
    }
  }

  /** Splitting undoes joining exactly for the canonical lists. */
  lemma SplitUndoesJoin(roles: seq<string>)
    ensures RoleList(Join(roles)) == roles <==> Canonical(roles)
  {
    RoleListCanonical(Join(roles));
    if Canonical(roles) {
      if roles == [] {
        assert Split("") == [""] && [""][1..] == [];
        TrimIsTrimmed("");
      } else {
        CanonicalComesBack([], roles);
        assert [] + roles == roles;
      }
    }
  }

  /** So splitting a text, joining the roles and splitting again changes nothing. */
  lemma SplitIsNormalForm(roleIds: string)
    ensures RoleList(Join(RoleList(roleIds))) == RoleList(roleIds)
  {
    RoleListCanonical(roleIds);
    SplitUndoesJoin(RoleList(roleIds));
  }

  // ---- blanks and empty tokens ----------------------------------------------------------------

  predicate Blank(s: string) {
    forall c :: c in s ==> IsSpace(c)
  }

  /** `token` is `core` with blanks around it. */
  ghost predicate Padded(token: string, core: string) {
    Trimmed(core) && exists a, b :: Blank(a) && Blank(b) && token == a + core + b
  }

  lemma {:induction false} BlankStart(a: string, s: string)
    requires Blank(a)
    ensures TrimStart(a + s) == TrimStart(s)
  {
    if a == "" {
      assert a + s == s;
    } else {
      assert (a + s)[0] == a[0] && a[0] in a && (a + s)[1..] == a[1..] + s;
      BlankStart(a[1..], s);
    }
  }

  lemma {:induction false} BlankEnd(s: string, b: string)
    requires Blank(b)
    ensures TrimEnd(s + b) == TrimEnd(s)
    decreases |b|
  {
    if b == "" {
      assert s + b == s;
    } else {
      var n := |b| - 1;
      assert (s + b)[|s + b| - 1] == b[n] && b[n] in b && (s + b)[..|s + b| - 1] == s + b[..n];
      BlankEnd(s, b[..n]);
    }
  }

  lemma TrimPadded(token: string, core: string)
    requires Padded(token, core)
    ensures Trim(token) == core
  {
    var a, b :| Blank(a) && Blank(b) && token == a + core + b;
    assert token == a + (core + b);
    BlankStart(a, core + b);
    if core == "" {
      assert core + b == b == b + "";
      BlankStart(b, "");
    } else {
      assert (core + b)[0] == core[0];
      BlankEnd(core, b);
    }
  }

  lemma {:induction false} SplitTokens(tokens: seq<string>)
    requires tokens != [] && forall t :: t in tokens ==> SEPARATOR !in t
    ensures Split(Join(tokens)) == tokens
  {
    SplitWhole(tokens[0]);
    if |tokens| > 1 {
      SplitTokens(tokens[1..]);
      SplitAround(tokens[0], Join(tokens[1..]));
      assert [tokens[0]] + tokens[1..] == tokens;
    } else {
      assert tokens == [tokens[0]];
    }
  }

  lemma {:induction false} TakePadded(roles: seq<string>, tokens: seq<string>, cores: seq<string>)
    requires |tokens| == |cores| && forall i :: 0 <= i < |tokens| ==> Padded(tokens[i], cores[i])
    ensures TakeAll(roles, tokens) == TakeAll(roles, cores)
    decreases |tokens|
  {
    if tokens != [] {
      TrimPadded(tokens[0], cores[0]);
      TrimIsTrimmed(cores[0]);
      TakePadded(Take(roles, tokens[0]), tokens[1..], cores[1..]);
    }
  }

  lemma {:induction false} TakeWithoutEmpty(roles: seq<string>, tokens: seq<string>)
    ensures TakeAll(roles, tokens) == TakeAll(roles, Without(tokens, ""))
    decreases |tokens|
  {
    if tokens != [] {
      TakeWithoutEmpty(Take(roles, tokens[0]), tokens[1..]);
      TrimIsTrimmed(tokens[0]);
      if tokens[0] != "" {
        assert ([tokens[0]] + Without(tokens[1..], ""))[1..] == Without(tokens[1..], "");
      }
    }
  }

  /** Between semicolons, blanks around a text change nothing, and where there is nothing but blanks
      nothing is listed. */
  lemma BlanksDoNotMatter(tokens: seq<string>, cores: seq<string>)
    requires |tokens| == |cores| && forall i :: 0 <= i < |tokens| ==> Padded(tokens[i], cores[i])
    requires forall c :: c in cores ==> SEPARATOR !in c
    ensures RoleList(Join(tokens)) == RoleList(Join(Without(cores, "")))
  {
    if tokens != [] {
      forall t | t in tokens
        ensures SEPARATOR !in t
      {
        var i :| 0 <= i < |tokens| && tokens[i] == t;
        var a, b :| Blank(a) && Blank(b) && t == a + cores[i] + b;
        assert cores[i] in cores;
      }
      SplitTokens(tokens);
      TakePadded([], tokens, cores);
      TakeWithoutEmpty([], cores);
      var left := Without(cores, "");
      if left == [] {
        NothingListed();
      } else {
        SplitTokens(left);
      }
    }
  }

  lemma NothingListed()
    ensures RoleList("") == []
  {
    assert Split("") == [""] && [""][1..] == [];
    TrimIsTrimmed("");
  }

  /** So what a text lists is decided by the texts between its semicolons, blanks and empty ones aside:
      it is the canonical list that has the same ones, in which halves of a NodeId have met. */
  lemma ListsItsRoles(tokens: seq<string>, cores: seq<string>, roles: seq<string>)
    requires |tokens| == |cores| && forall i :: 0 <= i < |tokens| ==> Padded(tokens[i], cores[i])
    requires forall c :: c in cores ==> SEPARATOR !in c
    requires Canonical(roles) && Join(Without(cores, "")) == Join(roles)
    ensures RoleList(Join(tokens)) == roles
  {
    BlanksDoNotMatter(tokens, cores);
    SplitUndoesJoin(roles);
  }

  /** Half a NodeId is "ns=" and at least one digit. */
  lemma PrefixMeans(s: string)
    ensures IsNamespacePrefix(s) <==>
      exists digits :: s == "ns=" + digits && digits != "" && forall d :: d in digits ==> '0' <= d <= '9'
  {
    if IsNamespacePrefix(s) {
      assert s == "ns=" + s[3..];
    }
    if digits :| s == "ns=" + digits && digits != "" && forall d :: d in digits ==> '0' <= d <= '9' {
      assert s[..3] == "ns=" && s[3..] == digits;
      forall i | 3 <= i < |s|
        ensures '0' <= s[i] <= '9'
      {
        assert s[i] == digits[i - 3] && digits[i - 3] in digits;
      }
    }
  }
}

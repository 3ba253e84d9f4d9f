/** Access to connections: the entries of a role chain overridden by a user's own, and the checks on them. */
module DbAccess {
  import opened Text
  import opened Chains
  import opened Collections
  import opened Roles

  // ---- the entries of a role chain ----

  /** The chain ends within `n` steps. */
  predicate Ends(load: Loader, id: string, n: nat)
    decreases n
  {
    match Lookup(load, id)
    case None => true
    case Some(r) => r.parent == "" || (n > 0 && Ends(load, r.parent, n - 1))
  }

  /** The role this walk goes on with: administrators do not end it. */
  function Upward(load: Loader): Link {
    id =>
      match Lookup(load, id)
      case None => None
      case Some(r) => if r.parent == "" then None else Some(r.parent)
  }

  lemma {:induction false} EndsIsWithin(load: Loader, id: string, n: nat)
    ensures Ends(load, id, n) <==> EndsWithin(Upward(load), id, n)
    decreases n
  {
    var next := Upward(load)(id);
    if next.Some? && n > 0 {
      EndsIsWithin(load, next.value, n - 1);
    }
  }

  /** With finitely many roles the walk ends exactly if it meets none twice, and then within their number. */
  lemma WalkAccessEndsExactly(load: Loader, id: string, ids: set<string>)
    requires forall x :: Lookup(load, x).Some? ==> x in ids
    ensures (exists n: nat :: Ends(load, id, n)) <==> Ends(load, id, |ids|)
    ensures (exists n: nat :: Ends(load, id, n)) <==> !Repeats(Upward(load), id)
  {
    hide Repeats;
    EndsExactly(Upward(load), id, ids);
    EndsIsWithin(load, id, |ids|);
    if n: nat :| Ends(load, id, n) {
      EndsIsWithin(load, id, n);
    }
  }

  /** All entries up the chain, in order. */
  function ChainEntries(load: Loader, id: string, n: nat): seq<string>
    decreases n
  {
    match Lookup(load, id)
    case None => []
    case Some(r) => r.dbAccess + if r.parent != "" && n > 0 then ChainEntries(load, r.parent, n - 1) else []
  }

  /** Some role on the chain has the entry. */
  ghost predicate EntryOnChain(load: Loader, id: string, d: string) {
    exists k: nat :: RoleAt(load, id, k).Some? && d in RoleAt(load, id, k).value.dbAccess
  }

  lemma EntryOnChainStep(load: Loader, id: string, d: string)
    ensures EntryOnChain(load, id, d) <==>
      && Lookup(load, id).Some?
      && (d in Lookup(load, id).value.dbAccess
          || (Lookup(load, id).value.parent != "" && EntryOnChain(load, Lookup(load, id).value.parent, d)))
  {
    if Lookup(load, id).Some? {
      var r := Lookup(load, id).value;
      assert RoleAt(load, id, 0) == Some(r);
      if r.parent != "" && EntryOnChain(load, r.parent, d) {
        var k: nat :| RoleAt(load, r.parent, k).Some? && d in RoleAt(load, r.parent, k).value.dbAccess;
        assert RoleAt(load, id, k + 1) == RoleAt(load, r.parent, k);
      }
      if EntryOnChain(load, id, d) {
        var k: nat :| RoleAt(load, id, k).Some? && d in RoleAt(load, id, k).value.dbAccess;
        if k > 0 {
          assert RoleAt(load, id, k) == RoleAt(load, r.parent, k - 1);
        }
      }
    }
  }

  lemma {:induction false} ChainEntriesMean(load: Loader, id: string, n: nat, d: string)
    requires Ends(load, id, n)
    ensures d in ChainEntries(load, id, n) <==> EntryOnChain(load, id, d)
    decreases n
  {
    hide EntryOnChain, Lookup;
    EntryOnChainStep(load, id, d);
    var found := Lookup(load, id);
    if found.Some? && found.value.parent != "" {
      ChainEntriesMean(load, found.value.parent, n - 1, d);
    }
  }

  method WalkAccess(load: Loader, id: string, ghost n: nat, collected: seq<string>) returns (all: seq<string>)
    requires Ends(load, id, n)
    ensures all == collected + ChainEntries(load, id, n)
    decreases n
  {
    hide Lookup;
    all := collected;
    var found := Lookup(load, id);
    if found.None? {
      return;
    }
    all := all + found.value.dbAccess;
    if found.value.parent != "" {
      all := WalkAccess(load, found.value.parent, n - 1, all);
    }
  }

  // ---- overriding ----

  /** Handling the extra entry `d` takes the entry `key` out of the result. */
  predicate Removes(d: string, key: string) {
    d != "" && if d[0] == '-' then key == d[1..] else key == "-" + d
  }

  /** `key` is mentioned for the first time by the roles (`m` is 0) or by the m-th extra entry. */
  predicate FirstMention(roles: seq<string>, extra: seq<string>, key: string, m: nat) {
    if key in roles then m == 0
    else 0 < m <= |extra| && key != "" && extra[m - 1] == key && key !in extra[..m - 1]
  }

  /** An entry ends up in the result exactly if nothing after its first mention removes it: what has once been
      seen is never added again. */
  ghost predicate Stays(roles: seq<string>, extra: seq<string>, key: string) {
    exists m :: 0 <= m <= |extra| && FirstMention(roles, extra, key, m)
      && forall j | m <= j < |extra| :: !Removes(extra[j], key)
  }

  predicate Mentioned(roles: seq<string>, extra: seq<string>, key: string) {
    key in roles || (key != "" && key in extra)
  }

  lemma MentionedFirst(roles: seq<string>, extra: seq<string>, key: string) returns (m: nat)
    requires Mentioned(roles, extra, key)
    ensures m <= |extra| && FirstMention(roles, extra, key, m)
  {
    if key in roles {
      return 0;
    }
    m := 1;
    while extra[m - 1] != key
      invariant 1 <= m <= |extra| && key !in extra[..m - 1]
      decreases |extra| - m
    {
      m := m + 1;
    }
  }

  lemma StaysStep(roles: seq<string>, extra: seq<string>, d: string, key: string)
    ensures Stays(roles, extra + [d], key) <==>
      (Stays(roles, extra, key) && !Removes(d, key)) || (key == d && !Mentioned(roles, extra, key) && key != "")
  {
    var more := extra + [d];
    forall m | 0 <= m <= |extra|
      ensures FirstMention(roles, more, key, m) <==> FirstMention(roles, extra, key, m)
    {
      if m > 0 {
        assert more[..m - 1] == extra[..m - 1];
      }
    }
    assert more[..|more| - 1] == extra;
    if Stays(roles, more, key) {
      var m :| 0 <= m <= |more| && FirstMention(roles, more, key, m)
        && forall j | m <= j < |more| :: !Removes(more[j], key);
      if m <= |extra| {
        assert FirstMention(roles, extra, key, m) && !Removes(more[|extra|], key);
        assert forall j | m <= j < |extra| :: extra[j] == more[j];
      }
    }
    if Stays(roles, extra, key) && !Removes(d, key) {
      var m :| 0 <= m <= |extra| && FirstMention(roles, extra, key, m)
        && forall j | m <= j < |extra| :: !Removes(extra[j], key);
      assert FirstMention(roles, more, key, m);
    }
    if key == d && !Mentioned(roles, extra, key) && key != "" {
      assert FirstMention(roles, more, key, |more|);
    }
  }

  lemma NothingExtra(roles: seq<string>, key: string)
    ensures Stays(roles, [], key) <==> key in roles
  {
    if key in roles {
      assert FirstMention(roles, [], key, 0);
    }
  }

  /** Takes the first occurrence of a key out of a list. */
  method RemoveFirst(result: seq<string>, key: string) returns (shorter: seq<string>)
    requires Distinct(result)
    ensures Distinct(shorter) && forall k :: k in shorter <==> k in result && k != key
  {
    for i := 0 to |result|
      invariant key !in result[..i]
    {
      if result[i] == key {
        assert result == result[..i] + [key] + result[i + 1..];
        return result[..i] + result[i + 1..];
      }
    }
    return result;
  }

  /** The connection entries of a user. */
  method GetEffectiveDBAccess(load: Loader, roleName: string, extra: seq<string>, ghost n: nat)
    returns (result: seq<string>)
    requires Ends(load, roleName, n)
    ensures Distinct(result)
    ensures forall k :: k in result <==> Stays(ChainEntries(load, roleName, n), extra, k)
  {
    hide Stays, FirstMention;
    var roles := WalkAccess(load, roleName, n, []);
    assert roles == ChainEntries(load, roleName, n);
    var seen: set<string>;
    seen, result := AppendNew(roles, {}, []);
    forall k ensures Stays(roles, extra[..0], k) <==> k in roles {
      NothingExtra(roles, k);
    }
    for i := 0 to |extra|
      invariant Distinct(result)
      invariant forall k :: k in seen <==> Mentioned(roles, extra[..i], k)
      invariant forall k :: k in result <==> Stays(roles, extra[..i], k)
      invariant forall k | k in result :: k in seen
    {
      var d := extra[i];
      forall k ensures Stays(roles, extra[..i + 1], k) <==>
        (Stays(roles, extra[..i], k) && !Removes(d, k)) || (k == d && !Mentioned(roles, extra[..i], k) && k != "")
      {
        assert extra[..i + 1] == extra[..i] + [d];
        StaysStep(roles, extra[..i], d, k);
      }
      forall k ensures Mentioned(roles, extra[..i + 1], k) <==> Mentioned(roles, extra[..i], k) || (k == d && k != "") {
        assert extra[..i + 1] == extra[..i] + [d];
      }
      if d == "" {
        continue;
      }
      ghost var before := result;
      if d[0] == '-' {
        result := RemoveFirst(result, d[1..]);
      } else {
        result := RemoveFirst(result, "-" + d);
      }
      assert forall k :: k in result <==> k in before && !Removes(d, k);
      if d !in seen {
        seen := seen + {d};
        result := result + [d];
      }
    }
    assert extra[..|extra|] == extra;
  }

  // ---- what overriding amounts to ----

  /** A connection named without a leading minus sign. */
  predicate IsConnection(c: string) {
    c != "" && c[0] != '-'
  }

  function Deny(c: string): string {
    "-" + c
  }

  lemma RemovesMeans(d: string, c: string)
    requires IsConnection(c)
    ensures Removes(d, c) <==> d == Deny(c)
    ensures Removes(d, Deny(c)) <==> d == c || d == Deny(Deny(c))
  {
    if d != "" && d[0] == '-' {
      assert d == "-" + d[1..];
    }
    assert Deny(c)[1..] == c && Deny(Deny(c))[1..] == Deny(c);
    assert d != "" && d[0] != '-' && Deny(c) == "-" + d ==> Deny(c)[1..] == d;
  }

  /** A connection, however it is named, whose last extra entry is a deny has no allow entry left. */
  lemma {:induction false} LastDenyLeavesNoAllow(roles: seq<string>, extra: seq<string>, c: string, i: nat)
    requires i < |extra| && extra[i] == Deny(c) && forall j | i < j < |extra| :: extra[j] != c
    ensures !Stays(roles, extra, c)
  {
    assert extra[i][1..] == c;
    assert Removes(extra[i], c);
  }

  /** By position: the entry is mentioned, and no extra entry after a mention removes it. */
  predicate Kept(roles: seq<string>, extra: seq<string>, key: string) {
    && Mentioned(roles, extra, key)
    && forall j | 0 <= j < |extra| && Removes(extra[j], key) :: key !in roles && key !in extra[..j]
  }

  /** The result has exactly the entries that are kept: one that was removed is not put back. */
  lemma StaysExactly(roles: seq<string>, extra: seq<string>, key: string)
    ensures Stays(roles, extra, key) <==> Kept(roles, extra, key)
  {
    if Mentioned(roles, extra, key) {
      var m := MentionedFirst(roles, extra, key);
      RemovesOther(key);
      forall j | 0 <= j < |extra| && extra[j] != key
        ensures (key in roles || key in extra[..j]) <==> m <= j
      {
        MentionedBefore(roles, extra, key, m, j);
      }
    }
  }

  lemma MentionedBefore(roles: seq<string>, extra: seq<string>, key: string, m: nat, j: nat)
    requires m <= |extra| && FirstMention(roles, extra, key, m) && j < |extra|
    ensures (key in roles || key in extra[..j]) <==> m <= j
  {
    if key !in roles {
      if m <= j {
        assert extra[..j][m - 1] == key;
      } else {
        assert forall i | 0 <= i < j :: extra[..m - 1][i] == extra[i];
      }
    }
  }

  lemma RemovesOther(key: string)
    ensures !Removes(key, key)
  {
  }

  /** A connection named as allowed has its allow entry exactly if no deny follows its first mention. */
  lemma AllowStaysExactly(roles: seq<string>, extra: seq<string>, c: string)
    requires IsConnection(c) && c in extra
    ensures Stays(roles, extra, c) <==>
      !exists j :: 0 <= j < |extra| && extra[j] == Deny(c) && (c in roles || c in extra[..j])
  {
    forall j | 0 <= j < |extra| ensures Removes(extra[j], c) <==> extra[j] == Deny(c) {
      RemovesMeans(extra[j], c);
    }
    StaysExactly(roles, extra, c);
  }

  /** Allowed, denied and allowed again, a connection ends up without an entry. */
  lemma AllowedAgainIsForgotten()
    ensures !Stays([], ["c", "-c", "c"], "c")
  {
    var extra := ["c", "-c", "c"];
    assert Deny("c") == "-c" && extra[1] == Deny("c") && extra[..1][0] == "c" && extra[2] == "c";
    AllowStaysExactly([], extra, "c");
  }

  /** The extras name the connection at most once, as allowed or denied, and none called `-c`. */
  predicate NamedOnce(extra: seq<string>, c: string) {
    && (forall i, j | 0 <= i < j < |extra| && extra[i] in {c, Deny(c)} :: extra[j] !in {c, Deny(c)})
    && Deny(Deny(c)) !in extra
  }

  /** Extras without the connection may be put around one entry for it. */
  lemma OneEntryIsNamedOnce(before: seq<string>, entry: string, later: seq<string>, c: string)
    requires forall d | d in before + later :: d != c && d != Deny(c) && d != Deny(Deny(c))
    requires entry == c || entry == Deny(c)
    ensures NamedOnce(before + [entry] + later, c)
  {
    var extra := before + [entry] + later;
    assert forall i | 0 <= i < |extra| && i != |before| :: extra[i] in before + later;
    assert |Deny(Deny(c))| == |c| + 2 && |Deny(c)| == |c| + 1;
  }

  lemma StaysUnlessRemoved(roles: seq<string>, extra: seq<string>, key: string, c: string)
    requires NamedOnce(extra, c) && key in {c, Deny(c)} && IsConnection(c)
    ensures Stays(roles, extra, key) <==>
      key in extra || (key in roles && (if key == c then Deny(c) else c) !in extra)
  {
    var other := if key == c then Deny(c) else c;
    forall j | 0 <= j < |extra| ensures Removes(extra[j], key) <==> extra[j] == other {
      RemovesMeans(extra[j], c);
    }
    assert Deny(c) != c && other != key;
    if Mentioned(roles, extra, key) {
      var m := MentionedFirst(roles, extra, key);
      if key in extra {
        var i :| 0 <= i < |extra| && extra[i] == key;
        assert forall j | 0 <= j < |extra| :: extra[j] != other;
      }
    }
  }

  /** Where the extras name each connection at most once, their verdict counts, and the role chain's where they
      have none. */
  lemma ExtrasOverrideRoles(roles: seq<string>, extra: seq<string>, c: string)
    requires IsConnection(c) && NamedOnce(extra, c)
    ensures Stays(roles, extra, c) <==> c in extra || (c in roles && Deny(c) !in extra)
    ensures Stays(roles, extra, Deny(c)) <==> Deny(c) in extra || (Deny(c) in roles && c !in extra)
  {
    StaysUnlessRemoved(roles, extra, c, c);
    StaysUnlessRemoved(roles, extra, Deny(c), c);
  }

  // ---- the access check ----

  /** The flat permissions and the resource permissions they stand for. */
  const FLAT_TO_RESOURCE: map<string, string> := map[
    "connections:list" := "list:connection.*",
    "connections:create" := "create:connection.*",
    "connections:delete" := "delete:connection.*",
    "connections:query" := "query:connection.*",
    "connections:execute" := "execute:connection.*",
    "users:list" := "list:users.*",
    "users:create" := "create:users.*",
    "users:edit" := "edit:users.*",
    "users:delete" := "delete:users.*",
    "settings:read" := "read:settings.*",
    "settings:write" := "write:settings.*",
    "jobs:list" := "list:jobs.*",
    "jobs:create" := "create:jobs.*",
    "jobs:cancel" := "cancel:jobs.*",
    "backup:create" := "create:backup.*",
    "backup:restore" := "restore:backup.*",
    "traffic:view" := "read:traffic.*",
    "apikeys:manage" := "manage:apikeys.*",
    "roles:manage" := "manage:roles.*"
  ]

  predicate IsGlobal(p: string) {
    p == ADMIN || p == LIST || p == QUERY || p == EXECUTE
  }

  predicate Accepts(access: seq<string>, c: string) {
    Deny(c) !in access && (c in access || "*" in access)
  }

  method CheckDBAccess(perms: seq<string>, dbAccess: seq<string>, connID: string) returns (r: bool)
    ensures r <==> (exists i :: 0 <= i < |perms| && IsGlobal(perms[i])) || Accepts(dbAccess, connID)
  {
    for i := 0 to |perms|
      invariant ADMIN !in perms[..i]
    {
      if perms[i] == ADMIN {
        return true;
      }
    }
    for i := 0 to |perms|
      invariant forall k | 0 <= k < i :: !IsGlobal(perms[k])
    {
      var p := perms[i];
      if p == LIST || p == QUERY || p == EXECUTE {
        return true;
      }
      if p in FLAT_TO_RESOURCE {
        OnlyThreeAreGlobal(p);
        if OpensConnections(FLAT_TO_RESOURCE[p]) {
          return true;
        }
      }
    }
    for i := 0 to |dbAccess|
      invariant Deny(connID) !in dbAccess[..i]
    {
      if dbAccess[i] == "-" + connID {
        return false;
      }
    }
    for i := 0 to |dbAccess|
      invariant connID !in dbAccess[..i] && "*" !in dbAccess[..i]
    {
      if dbAccess[i] == connID || dbAccess[i] == "*" {
        return true;
      }
    }
    return false;
  }

  predicate OpensConnections(mapped: string) {
    || HasPrefix(mapped, "list:connection.")
    || HasPrefix(mapped, "query:connection.")
    || HasPrefix(mapped, "execute:connection.")
  }

  lemma PrefixLetters(s: string, prefix: string)
    requires HasPrefix(s, prefix) && |prefix| > 5
    ensures s[0] == prefix[0] && s[1] == prefix[1] && s[5] == prefix[5]
  {
    assert s[..|prefix|][0] == s[0] && s[..|prefix|][1] == s[1] && s[..|prefix|][5] == s[5];
  }

  /** Of the flat permissions only these three stand for access to connections in general. */
  lemma OnlyThreeAreGlobal(p: string)
    requires p in FLAT_TO_RESOURCE
    ensures OpensConnections(FLAT_TO_RESOURCE[p]) <==> (p == LIST || p == QUERY || p == EXECUTE)
  {
    var mapped := FLAT_TO_RESOURCE[p];
    if p == LIST {
      assert mapped[..16] == "list:connection.";
    } else if p == QUERY {
      assert mapped[..17] == "query:connection.";
    } else if p == EXECUTE {
      assert mapped[..19] == "execute:connection.";
    } else {
      if HasPrefix(mapped, "list:connection.") {
        PrefixLetters(mapped, "list:connection.");
      }
      if HasPrefix(mapped, "query:connection.") {
        PrefixLetters(mapped, "query:connection.");
      }
      if HasPrefix(mapped, "execute:connection.") {
        PrefixLetters(mapped, "execute:connection.");
      }
    }
  }

  /** A connection denied in extras that name it once is refused, even beside `*`. */
  lemma DeniedIsRefused(roles: seq<string>, extra: seq<string>, access: seq<string>, c: string)
    requires IsConnection(c) && NamedOnce(extra, c) && Deny(c) in extra
    requires forall k :: k in access <==> Stays(roles, extra, k)
    ensures !Accepts(access, c)
  {
    ExtrasOverrideRoles(roles, extra, c);
  }

  /** A connection denied in the extras is refused exactly if nothing that takes its denial out follows the
      first mention of it, or if neither the connection nor `*` is kept. */
  lemma DenialHoldsExactly(roles: seq<string>, extra: seq<string>, access: seq<string>, c: string)
    requires Deny(c) in extra
    requires forall k :: k in access <==> Stays(roles, extra, k)
    ensures !Accepts(access, c) <==>
      || (forall j | 0 <= j < |extra| && Removes(extra[j], Deny(c)) :: Deny(c) !in roles && Deny(c) !in extra[..j])
      || !(Kept(roles, extra, c) || Kept(roles, extra, "*"))
  {
    hide Stays;
    StaysExactly(roles, extra, Deny(c));
    StaysExactly(roles, extra, c);
    StaysExactly(roles, extra, "*");
  }

  /** Where a deny is the last extra entry for the connection, only `*` can let it in. */
  lemma LastDenyRefusesExactly(roles: seq<string>, extra: seq<string>, access: seq<string>, c: string, i: nat)
    requires i < |extra| && extra[i] == Deny(c) && forall j | i < j < |extra| :: extra[j] != c
    requires forall k :: k in access <==> Stays(roles, extra, k)
    ensures !Accepts(access, c) <==>
      || (forall j | 0 <= j < |extra| && Removes(extra[j], Deny(c)) :: Deny(c) !in roles && Deny(c) !in extra[..j])
      || !Kept(roles, extra, "*")
  {
    hide Stays, Kept, Removes;
    LastDenyLeavesNoAllow(roles, extra, c, i);
    StaysExactly(roles, extra, c);
    DenialHoldsExactly(roles, extra, access, c);
  }

  /** Denied and then allowed, a connection is accepted though its denial is among the extras. */
  lemma AllowedLaterIsAccepted(access: seq<string>)
    requires forall k :: k in access <==> Stays([], ["-c", "c"], k)
    ensures Accepts(access, "c")
  {
    hide Stays;
    var extra := ["-c", "c"];
    assert Deny("c") == "-c" && extra[0] == Deny("c") && extra[1] == "c" && extra[..1][0] == Deny("c");
    assert Removes(extra[1], Deny("c")) && !Removes(extra[1], "c") && extra[..0] == [];
    DenialHoldsExactly([], extra, access, "c");
  }

  /** Denied, allowed and denied again beside `*`, a connection is accepted. */
  lemma DeniedAgainIsAccepted(access: seq<string>)
    requires forall k :: k in access <==> Stays([], ["*", "-c", "c", "-c"], k)
    ensures Accepts(access, "c")
  {
    var extra := ["*", "-c", "c", "-c"];
    assert FirstMention([], extra, "*", 1);
    assert forall j | 1 <= j < |extra| :: !Removes(extra[j], "*");
    assert Stays([], extra, "*");
    assert extra[..3][1] == "-c";
    assert forall m | 0 <= m <= |extra| && FirstMention([], extra, "-c", m) :: m == 2;
    assert Removes(extra[2], "-c") && Deny("c") == "-c";
  }

  // ---- resource permissions ----

  /** `*` matches all, `prefix.*` what starts with the prefix, anything else itself. */
  predicate MatchPattern(pattern: string, resource: string) {
    if pattern == "*" then true
    else if HasSuffix(pattern, ".*") then HasPrefix(resource, pattern[..|pattern| - 2])
    else pattern == resource
  }

  predicate MatchesResource(perm: string, action: string, resource: string) {
    var mapped := if perm in FLAT_TO_RESOURCE then FLAT_TO_RESOURCE[perm] else perm;
    var i := IndexOf(mapped, ':');
    if i == -1 then mapped == ADMIN
    else if mapped[..i] != "*" && mapped[..i] != action then false
    else MatchPattern(mapped[i + 1..], resource)
  }

  predicate Grants(p: string, action: string, resource: string) {
    !HasPrefix(p, "-") && MatchesResource(p, action, resource)
  }

  predicate Denies(p: string, action: string, resource: string) {
    HasPrefix(p, "-") && MatchesResource(p[1..], action, resource)
  }

  /** An administrator's entry or a matching denial ends the check. */
  predicate Decides(p: string, action: string, resource: string) {
    p == ADMIN || Denies(p, action, resource)
  }

  /** With a deciding entry, an administrator's must come before every matching denial; without one, some
      entry must grant the access. */
  predicate Permitted(perms: seq<string>, action: string, resource: string) {
    if exists i :: 0 <= i < |perms| && Decides(perms[i], action, resource) then
        exists i :: 0 <= i < |perms| && perms[i] == ADMIN
          && forall k | 0 <= k < i :: !Denies(perms[k], action, resource)
      else exists i :: 0 <= i < |perms| && Grants(perms[i], action, resource)
  }

  lemma NoFlatStartsWithQ(p: string)
    requires p != "" && p[0] == 'q'
    ensures p !in FLAT_TO_RESOURCE
  {
  }

  // ---- what single permissions grant ----

  lemma PatternMeans(r: string, resource: string)
    ensures MatchPattern(r, resource) <==>
      r == "*" || r == resource || exists start: string :: r == start + ".*" && start <= resource
  {
    if HasSuffix(r, ".*") {
      var start := r[..|r| - 2];
      assert r == start + ".*";
    }
    if start: string :| r == start + ".*" {
      assert r[|start|..] == ".*" && r[..|start|] == start;
    }
  }

  lemma SingleMeans(p: string, action: string, resource: string)
    ensures Permitted([p], action, resource) <==>
      p == ADMIN || (!HasPrefix(p, "-") && MatchesResource(p, action, resource))
  {
    hide MatchesResource;
    assert [p][0] == p;
    assert !Decides(p, action, resource) ==> !Decides([p][0], action, resource);
    if Grants(p, action, resource) {
      assert Grants([p][0], action, resource);
    }
    if Decides(p, action, resource) {
      assert Decides([p][0], action, resource);
    }
  }

  /** A permission written out, and not one of the flat ones, grants exactly its action, or any, on the resources its
      pattern names: all, one, or those with a common start. */
  lemma WrittenOutGrantsExactly(a: string, r: string, action: string, resource: string)
    requires Free(a, ':') && a + ":" + r !in FLAT_TO_RESOURCE
    ensures Permitted([a + ":" + r], action, resource) <==>
      && !("-" <= a) && (a == "*" || a == action)
      && (r == "*" || r == resource || exists start: string :: r == start + ".*" && start <= resource)
  {
    hide Permitted, MatchPattern;
    var p := a + ":" + r;
    SingleMeans(p, action, resource);
    PatternMeans(r, resource);
    assert p[|a|] == ':' && p[..|a|] == a && p[|a| + 1..] == r;
    FirstAt(p, ':', |a|);
    assert "-" <= a <==> HasPrefix(p, "-") by {
      if a == "" {
        assert p[0] == ':';
      } else {
        assert p[0] == a[0] && p[..1] == [p[0]] && a[..1] == [a[0]];
      }
    }
  }

  /** All flat permissions have a colon, and all they stand for end in a star, so none stands for another. */
  lemma FlatAndMapped(p: string)
    requires p in FLAT_TO_RESOURCE
    ensures !Free(p, ':') && p != ADMIN && !HasPrefix(p, "-")
    ensures FLAT_TO_RESOURCE[p] !in FLAT_TO_RESOURCE
  {
    FlatForm(p);
    var colon := if p[4] == ':' then 4 else if p[5] == ':' then 5 else if p[6] == ':' then 6
                 else if p[7] == ':' then 7 else if p[8] == ':' then 8 else 11;
    assert p[colon] == ':';
    assert p[..1][0] != "-"[0];
    if FLAT_TO_RESOURCE[p] in FLAT_TO_RESOURCE {
      FlatForm(FLAT_TO_RESOURCE[p]);
      assert false;
    }
  }

  lemma FlatForm(p: string)
    requires p in FLAT_TO_RESOURCE
    ensures |p| > 8 && p[0] != '-' && p[0] != '*' && p[|p| - 1] != '*'
    ensures ':' in {p[4], p[5], p[6], p[7], p[8]} || (|p| > 11 && p[11] == ':')
    ensures var mapped := FLAT_TO_RESOURCE[p]; mapped != "" && mapped[|mapped| - 1] == '*'
  {
  }

  /** A permission without a colon grants nothing, unless it is the administrator's. */
  lemma WithoutColonGrantsNothing(p: string, action: string, resource: string)
    requires Free(p, ':')
    ensures Permitted([p], action, resource) <==> p == "*"
  {
    hide Permitted;
    SingleMeans(p, action, resource);
    if p in FLAT_TO_RESOURCE {
      FlatAndMapped(p);
    }
  }

  /** A flat permission grants what the text it stands for grants. */
  lemma FlatGrantsAsMapped(p: string, mapped: string, action: string, resource: string)
    requires p in FLAT_TO_RESOURCE && FLAT_TO_RESOURCE[p] == mapped
    requires mapped != ADMIN && !HasPrefix(mapped, "-")
    ensures Permitted([p], action, resource) <==> Permitted([mapped], action, resource)
    ensures mapped !in FLAT_TO_RESOURCE
  {
    hide Permitted, MatchPattern, HasPrefix, IndexOf;
    FlatAndMapped(p);
    SingleMeans(p, action, resource);
    SingleMeans(mapped, action, resource);
  }

  /** So it grants its action on the resources of its group. */
  lemma FlatGrantsExactly(p: string, verb: string, group: string, action: string, resource: string)
    requires p in FLAT_TO_RESOURCE && FLAT_TO_RESOURCE[p] == verb + ":" + (group + ".*")
    requires Free(verb, ':') && verb != "" && 'a' <= verb[0] <= 'z'
    ensures Permitted([p], action, resource) <==> action == verb && group <= resource
  {
    hide Permitted, MatchPattern, HasPrefix, MatchesResource, Free;
    NoMinus(verb);
    MappedIsPlain(verb, group + ".*");
    FlatGrantsAsMapped(p, verb + ":" + (group + ".*"), action, resource);
    WrittenOutGrantsExactly(verb, group + ".*", action, resource);
    GroupPattern(group, resource);
  }

  lemma NoMinus(verb: string)
    requires verb != "" && 'a' <= verb[0] <= 'z'
    ensures !("-" <= verb) && verb != "*"
  {
  }

  lemma MappedIsPlain(verb: string, r: string)
    requires !("-" <= verb)
    ensures verb + ":" + r != ADMIN && !HasPrefix(verb + ":" + r, "-")
  {
    var p := verb + ":" + r;
    assert p[|verb|] == ':';
    if verb != "" {
      assert p[0] == verb[0] && verb[..1] == [verb[0]];
    }
    assert p[..1] == [p[0]];
  }

  lemma GroupPattern(group: string, resource: string)
    ensures var r := group + ".*";
      r == "*" || r == resource || (exists start: string :: r == start + ".*" && start <= resource)
      <==> group <= resource
  {
    var r := group + ".*";
    assert r[|r| - 2] == '.';
    if start: string :| r == start + ".*" && start <= resource {
      assert r[..|r| - 2] == start == group;
    }
  }

  // What each of the flat permissions grants.

  lemma ConnectionPermissions(action: string, resource: string)
    ensures Permitted(["connections:list"], action, resource) <==> action == "list" && "connection" <= resource
    ensures Permitted(["connections:query"], action, resource) <==> action == "query" && "connection" <= resource
  {
    hide Permitted;
    assert "list" + ":" + ("connection" + ".*") == "list:connection.*";
    FlatGrantsExactly("connections:list", "list", "connection", action, resource);
    assert "query" + ":" + ("connection" + ".*") == "query:connection.*";
    FlatGrantsExactly("connections:query", "query", "connection", action, resource);
  }

  lemma ConnectionExecution(action: string, resource: string)
    ensures Permitted(["connections:execute"], action, resource) <==> action == "execute" && "connection" <= resource
  {
    hide Permitted;
    assert "execute" + ":" + ("connection" + ".*") == "execute:connection.*";
    FlatGrantsExactly("connections:execute", "execute", "connection", action, resource);
  }

  lemma ConnectionCreation(action: string, resource: string)
    ensures Permitted(["connections:create"], action, resource) <==> action == "create" && "connection" <= resource
  {
    hide Permitted;
    assert "create" + ":" + ("connection" + ".*") == "create:connection.*";
    FlatGrantsExactly("connections:create", "create", "connection", action, resource);
  }

  lemma ConnectionDeletion(action: string, resource: string)
    ensures Permitted(["connections:delete"], action, resource) <==> action == "delete" && "connection" <= resource
  {
    hide Permitted;
    assert "delete" + ":" + ("connection" + ".*") == "delete:connection.*";
    FlatGrantsExactly("connections:delete", "delete", "connection", action, resource);
  }

  lemma UserPermissions(action: string, resource: string)
    ensures Permitted(["users:list"], action, resource) <==> action == "list" && "users" <= resource
    ensures Permitted(["users:create"], action, resource) <==> action == "create" && "users" <= resource
  {
    hide Permitted;
    assert "list" + ":" + ("users" + ".*") == "list:users.*";
    FlatGrantsExactly("users:list", "list", "users", action, resource);
    assert "create" + ":" + ("users" + ".*") == "create:users.*";
    FlatGrantsExactly("users:create", "create", "users", action, resource);
  }

  lemma UserChanges(action: string, resource: string)
    ensures Permitted(["users:edit"], action, resource) <==> action == "edit" && "users" <= resource
    ensures Permitted(["users:delete"], action, resource) <==> action == "delete" && "users" <= resource
  {
    hide Permitted;
    assert "edit" + ":" + ("users" + ".*") == "edit:users.*";
    FlatGrantsExactly("users:edit", "edit", "users", action, resource);
    assert "delete" + ":" + ("users" + ".*") == "delete:users.*";
    FlatGrantsExactly("users:delete", "delete", "users", action, resource);
  }

  lemma SettingsPermissions(action: string, resource: string)
    ensures Permitted(["settings:read"], action, resource) <==> action == "read" && "settings" <= resource
    ensures Permitted(["settings:write"], action, resource) <==> action == "write" && "settings" <= resource
  {
    hide Permitted;
    assert "read" + ":" + ("settings" + ".*") == "read:settings.*";
    FlatGrantsExactly("settings:read", "read", "settings", action, resource);
    assert "write" + ":" + ("settings" + ".*") == "write:settings.*";
    FlatGrantsExactly("settings:write", "write", "settings", action, resource);
  }

  lemma JobPermissions(action: string, resource: string)
    ensures Permitted(["jobs:list"], action, resource) <==> action == "list" && "jobs" <= resource
    ensures Permitted(["jobs:create"], action, resource) <==> action == "create" && "jobs" <= resource
    ensures Permitted(["jobs:cancel"], action, resource) <==> action == "cancel" && "jobs" <= resource
  {
    hide Permitted;
    assert "list" + ":" + ("jobs" + ".*") == "list:jobs.*";
    FlatGrantsExactly("jobs:list", "list", "jobs", action, resource);
    assert "create" + ":" + ("jobs" + ".*") == "create:jobs.*";
    FlatGrantsExactly("jobs:create", "create", "jobs", action, resource);
    assert "cancel" + ":" + ("jobs" + ".*") == "cancel:jobs.*";
    FlatGrantsExactly("jobs:cancel", "cancel", "jobs", action, resource);
  }

  lemma BackupPermissions(action: string, resource: string)
    ensures Permitted(["backup:create"], action, resource) <==> action == "create" && "backup" <= resource
    ensures Permitted(["backup:restore"], action, resource) <==> action == "restore" && "backup" <= resource
  {
    hide Permitted;
    assert "create" + ":" + ("backup" + ".*") == "create:backup.*";
    FlatGrantsExactly("backup:create", "create", "backup", action, resource);
    assert "restore" + ":" + ("backup" + ".*") == "restore:backup.*";
    FlatGrantsExactly("backup:restore", "restore", "backup", action, resource);
  }

  lemma OtherPermissions(action: string, resource: string)
    ensures Permitted(["traffic:view"], action, resource) <==> action == "read" && "traffic" <= resource
    ensures Permitted(["apikeys:manage"], action, resource) <==> action == "manage" && "apikeys" <= resource
    ensures Permitted(["roles:manage"], action, resource) <==> action == "manage" && "roles" <= resource
  {
    hide Permitted;
    assert "read" + ":" + ("traffic" + ".*") == "read:traffic.*";
    FlatGrantsExactly("traffic:view", "read", "traffic", action, resource);
    assert "manage" + ":" + ("apikeys" + ".*") == "manage:apikeys.*";
    FlatGrantsExactly("apikeys:manage", "manage", "apikeys", action, resource);
    assert "manage" + ":" + ("roles" + ".*") == "manage:roles.*";
    FlatGrantsExactly("roles:manage", "manage", "roles", action, resource);
  }

  // ---- what lists of permissions grant ----

  /** An entry denies exactly what it grants without its minus sign. */
  lemma DenialMirrorsGrant(p: string, action: string, resource: string)
    requires !("-" <= p)
    ensures Denies("-" + p, action, resource) <==> Permitted([p], action, resource)
  {
    hide Permitted;
    SingleMeans(p, action, resource);
    assert ("-" + p)[..1] == "-" && ("-" + p)[1..] == p;
    if p == ADMIN {
      StarMatches(action, resource);
    }
  }

  lemma StarMatches(action: string, resource: string)
    ensures MatchesResource(ADMIN, action, resource) && ADMIN !in FLAT_TO_RESOURCE
  {
    if ADMIN in FLAT_TO_RESOURCE {
      FlatAndMapped(ADMIN);
      assert false;
    }
  }

  /** Some entry refuses the access: without its minus sign it would grant it. */
  predicate Refused(perms: seq<string>, action: string, resource: string) {
    exists i :: 0 <= i < |perms| && "-" <= perms[i] && Permitted([perms[i][1..]], action, resource)
  }

  /** Without an administrator's entry access is granted exactly if some entry alone grants it and none refuses it. */
  lemma ListGrantsExactly(perms: seq<string>, action: string, resource: string)
    requires ADMIN !in perms && forall i | 0 <= i < |perms| :: !("--" <= perms[i])
    ensures Permitted(perms, action, resource) <==>
      && (exists i :: 0 <= i < |perms| && Permitted([perms[i]], action, resource))
      && !Refused(perms, action, resource)
  {
    hide MatchesResource, Permitted;
    forall i | 0 <= i < |perms|
      ensures Grants(perms[i], action, resource) <==> Permitted([perms[i]], action, resource)
      ensures Denies(perms[i], action, resource) <==>
        "-" <= perms[i] && Permitted([perms[i][1..]], action, resource)
    {
      EntryMeans(perms[i], action, resource);
    }
    hide Grants, Denies;
    PermittedWithoutAdministrator(perms, action, resource);
  }

  lemma EntryMeans(p: string, action: string, resource: string)
    requires p != ADMIN && !("--" <= p)
    ensures Grants(p, action, resource) <==> Permitted([p], action, resource)
    ensures Denies(p, action, resource) <==> "-" <= p && Permitted([p[1..]], action, resource)
  {
    hide Permitted;
    SingleMeans(p, action, resource);
    if "-" <= p {
      assert p == "-" + p[1..];
      assert |p| > 1 ==> p[..2] == [p[0], p[1]];
      DenialMirrorsGrant(p[1..], action, resource);
    } else {
      assert !HasPrefix(p, "-");
    }
  }

  lemma PermittedWithoutAdministrator(perms: seq<string>, action: string, resource: string)
    requires ADMIN !in perms
    ensures Permitted(perms, action, resource) <==>
      && (forall i | 0 <= i < |perms| :: !Denies(perms[i], action, resource))
      && exists i :: 0 <= i < |perms| && Grants(perms[i], action, resource)
  {
    hide Grants, Denies;
    if i :| 0 <= i < |perms| && Denies(perms[i], action, resource) {
      assert Decides(perms[i], action, resource);
    }
  }

  /** With one, exactly if nothing in front of the first of these refuses it. */
  lemma AdministratorGrantsExactly(before: seq<string>, rest: seq<string>, action: string, resource: string)
    requires ADMIN !in before && forall i | 0 <= i < |before| :: !("--" <= before[i])
    ensures Permitted(before + ["*"] + rest, action, resource) <==> !Refused(before, action, resource)
  {
    hide MatchesResource, Permitted;
    forall i | 0 <= i < |before|
      ensures Denies(before[i], action, resource) <==>
        "-" <= before[i] && Permitted([before[i][1..]], action, resource)
    {
      EntryMeans(before[i], action, resource);
    }
    hide Grants, Denies;
    FirstAdministrator(before, rest, action, resource);
  }

  lemma FirstAdministrator(before: seq<string>, rest: seq<string>, action: string, resource: string)
    requires ADMIN !in before
    ensures Permitted(before + ["*"] + rest, action, resource) <==>
      forall i | 0 <= i < |before| :: !Denies(before[i], action, resource)
  {
    hide Grants, Denies;
    var perms := before + ["*"] + rest;
    var n := |before|;
    assert perms[n] == ADMIN && Decides(perms[n], action, resource);
    assert forall i | 0 <= i < n :: perms[i] == before[i];
    if i :| 0 <= i < n && Denies(before[i], action, resource) {
      assert Denies(perms[i], action, resource);
    }
  }

  /** An administrator's entry that comes first beats a matching denial. */
  lemma AdministratorFirst()
    ensures Denies("-query:conn", "query", "conn")
    ensures Permitted([ADMIN, "-query:conn"], "query", "conn")
  {
    hide MatchesResource, Permitted, Denies;
    NoFlatStartsWithQ("query:conn");
    assert "query" + ":" + "conn" == "query:conn" && "-" + "query:conn" == "-query:conn";
    NoMinus("query");
    NoMinus("query:conn");
    WrittenOutGrantsExactly("query", "conn", "query", "conn");
    DenialMirrorsGrant("query:conn", "query", "conn");
    AdministratorComesFirst([ADMIN, "-query:conn"], "query", "conn");
  }

  lemma PermittedByMembers(ps: seq<string>, qs: seq<string>, action: string, resource: string)
    requires multiset(ps) == multiset(qs)
    requires ADMIN !in ps || forall i | 0 <= i < |ps| :: !Denies(ps[i], action, resource)
    ensures Permitted(ps, action, resource) <==> Permitted(qs, action, resource)
  {
    hide MatchesResource;
    SameMembers(ps, qs);
    SameMembers(qs, ps);
    PermittedUnordered(ps, action, resource);
    forall i | 0 <= i < |qs| ensures ADMIN !in qs || !Denies(qs[i], action, resource) {
      assert qs[i] in ps;
    }
    PermittedUnordered(qs, action, resource);
  }

  lemma SameMembers(ps: seq<string>, qs: seq<string>)
    requires multiset(ps) == multiset(qs)
    ensures forall p | p in ps :: p in qs
  {
    forall p | p in ps ensures p in qs {
      assert p in multiset(ps);
    }
  }

  lemma PermittedUnordered(ps: seq<string>, action: string, resource: string)
    requires ADMIN !in ps || forall i | 0 <= i < |ps| :: !Denies(ps[i], action, resource)
    ensures Permitted(ps, action, resource) <==>
      || ADMIN in ps
      || ((forall p | p in ps :: !Denies(p, action, resource)) && exists p :: p in ps && Grants(p, action, resource))
  {
    hide MatchesResource;
    if ADMIN in ps {
      var i :| 0 <= i < |ps| && ps[i] == ADMIN;
      assert Decides(ps[i], action, resource);
    }
    if i :| 0 <= i < |ps| && Denies(ps[i], action, resource) {
      assert Decides(ps[i], action, resource);
    }
  }

  lemma MovedToFront(ps: seq<string>, i: nat) returns (qs: seq<string>)
    requires i < |ps|
    ensures qs == [ps[i]] + ps[..i] + ps[i + 1..] && multiset(qs) == multiset(ps)
  {
    qs := [ps[i]] + ps[..i] + ps[i + 1..];
    assert ps == ps[..i] + [ps[i]] + ps[i + 1..];
  }

  lemma DenialFirst(perms: seq<string>, action: string, resource: string)
    requires perms != [] && Denies(perms[0], action, resource)
    ensures !Permitted(perms, action, resource)
  {
    hide MatchesResource;
    assert ADMIN[..1][0] != "-"[0];
    assert Decides(perms[0], action, resource);
  }

  lemma AdministratorComesFirst(perms: seq<string>, action: string, resource: string)
    requires perms != [] && perms[0] == ADMIN
    ensures Permitted(perms, action, resource)
  {
    hide Denies;
    assert Decides(perms[0], action, resource);
  }

  ghost predicate OrderIsFree(perms: seq<string>, action: string, resource: string) {
    forall qs: seq<string> | multiset(qs) == multiset(perms) ::
      Permitted(qs, action, resource) == Permitted(perms, action, resource)
  }

  /** The order of the permissions matters exactly if an administrator's entry meets a matching denial. */
  lemma OrderMattersExactly(perms: seq<string>, action: string, resource: string)
    ensures OrderIsFree(perms, action, resource) <==>
      !(ADMIN in perms && exists i :: 0 <= i < |perms| && Denies(perms[i], action, resource))
  {
    hide Denies, Permitted;
    if ADMIN in perms && exists i :: 0 <= i < |perms| && Denies(perms[i], action, resource) {
      var a :| 0 <= a < |perms| && perms[a] == ADMIN;
      var d :| 0 <= d < |perms| && Denies(perms[d], action, resource);
      var freed := MovedToFront(perms, a);
      var denied := MovedToFront(perms, d);
      AdministratorComesFirst(freed, action, resource);
      DenialFirst(denied, action, resource);
    } else {
      forall qs: seq<string> | multiset(qs) == multiset(perms)
        ensures Permitted(qs, action, resource) == Permitted(perms, action, resource)
      {
        PermittedByMembers(perms, qs, action, resource);
      }
    }
  }

  method HasResourcePermission(perms: seq<string>, action: string, resource: string) returns (r: bool)
    ensures r <==> Permitted(perms, action, resource)
  {
    hide MatchesResource;
    var granted := false;
    for i := 0 to |perms|
      invariant forall k | 0 <= k < i :: !Decides(perms[k], action, resource)
      invariant granted <==> exists k :: 0 <= k < i && Grants(perms[k], action, resource)
    {
      var p := perms[i];
      if p == ADMIN {
        return true;
      }
      var deny := false;
      var perm := p;
      if HasPrefix(p, "-") {
        deny := true;
        perm := p[1..];
      }
      if MatchesResource(perm, action, resource) {
        if deny {
          assert Denies(perms[i], action, resource);
          return false;
        }
        assert Grants(perms[i], action, resource);
        granted := true;
      }
    }
    return granted;
  }
}

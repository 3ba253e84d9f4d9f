/** Roles with inheritance: the permissions and connections a role chain adds up to. */
module Roles {
  import opened Text
  import opened Chains
  import opened Collections

  datatype Role = Role(id: string, parent: string, permissions: seq<string>, dbAccess: seq<string>)

  /** Where stored roles come from; a missing role is `None`. */
  type Loader = string -> Option<Role>

  const ADMIN := "*"

  const LIST := "connections:list"
  const QUERY := "connections:query"
  const EXECUTE := "connections:execute"

  const DEFAULT_ROLES: seq<Role> := [
    Role("admin", "", [ADMIN], []),
    Role("developer", "", [LIST, QUERY, EXECUTE, "users:list", "jobs:list", "jobs:create", "traffic:view"], []),
    Role("readonly", "", [LIST, QUERY], [])
  ]

  /** A stored role, or else a built-in one. */
  function Lookup(load: Loader, id: string): Option<Role> {
    match load(id)
    case Some(r) => Some(r)
    case None =>
      if DEFAULT_ROLES[0].id == id then Some(DEFAULT_ROLES[0])
      else if DEFAULT_ROLES[1].id == id then Some(DEFAULT_ROLES[1])
      else if DEFAULT_ROLES[2].id == id then Some(DEFAULT_ROLES[2])
      else None
  }

  /** The role `k` parents up from `id`. */
  function RoleAt(load: Loader, id: string, k: nat): Option<Role>
    decreases k
  {
    match Lookup(load, id)
    case None => None
    case Some(r) =>
      if k == 0 then Some(r)
      else if r.parent == "" then None
      else RoleAt(load, r.parent, k - 1)
  }

  /** The walk for permissions ends within `n` steps: it stops at a missing role, an administrator, or a
      role without parent. */
  predicate Stops(load: Loader, id: string, n: nat)
    decreases n
  {
    match Lookup(load, id)
    case None => true
    case Some(r) => ADMIN in r.permissions || r.parent == "" || (n > 0 && Stops(load, r.parent, n - 1))
  }

  /** The role the walk for permissions goes on with. */
  function Onward(load: Loader): Link {
    id =>
      match Lookup(load, id)
      case None => None
      case Some(r) => if ADMIN in r.permissions || r.parent == "" then None else Some(r.parent)
  }

  lemma {:induction false} StopsMeans(load: Loader, id: string, n: nat)
    ensures Stops(load, id, n) <==> EndsWithin(Onward(load), id, n)
    decreases n
  {
    var next := Onward(load)(id);
    if next.Some? && n > 0 {
      StopsMeans(load, next.value, n - 1);
    }
  }

  /** A walk that meets some role again goes on for ever, however many roles the cycle has. */
  lemma CycleNeverStops(load: Loader, id: string, i: nat, k: nat, n: nat)
    requires i < k && At(Onward(load), id, k).Some? && At(Onward(load), id, i) == At(Onward(load), id, k)
    ensures !Stops(load, id, n)
  {
    StopsMeans(load, id, n);
    EndsMeans(Onward(load), id, n);
    CycleGoesOn(Onward(load), id, i, k, n + 1);
  }

  /** Two stored roles that name each other as parents. */
  function TwoRoles(): Loader {
    id =>
      if id == "a" then Some(Role("a", "b", [], []))
      else if id == "b" then Some(Role("b", "a", [], []))
      else None
  }

  lemma TwoRolesNeverStop(n: nat)
    ensures !Stops(TwoRoles(), "a", n)
  {
    var next := Onward(TwoRoles());
    assert next("a") == Some("b") && next("b") == Some("a");
    assert At(next, "a", 1) == Some("b") && At(next, "a", 2) == Some("a");
    CycleNeverStops(TwoRoles(), "a", 0, 2, n);
  }

  /** With finitely many roles, stored or built in, the walk ends exactly if it meets no role twice before an
      administrator, and then within their number. */
  lemma WalkEndsExactly(load: Loader, id: string, ids: set<string>)
    requires forall x :: Lookup(load, x).Some? ==> x in ids
    ensures (exists n: nat :: Stops(load, id, n)) <==> Stops(load, id, |ids|)
    ensures (exists n: nat :: Stops(load, id, n)) <==> !Repeats(Onward(load), id)
  {
    hide Repeats;
    EndsExactly(Onward(load), id, ids);
    StopsMeans(load, id, |ids|);
    if n: nat :| Stops(load, id, n) {
      StopsMeans(load, id, n);
    }
  }

  // ---- permissions ----

  /** Some role on the chain has the permission. */
  ghost predicate OnChain(load: Loader, id: string, p: string) {
    exists k: nat :: RoleAt(load, id, k).Some? && p in RoleAt(load, id, k).value.permissions
  }

  lemma OnChainStep(load: Loader, id: string, p: string)
    ensures OnChain(load, id, p) <==>
      && Lookup(load, id).Some?
      && (p in Lookup(load, id).value.permissions
          || (Lookup(load, id).value.parent != "" && OnChain(load, Lookup(load, id).value.parent, p)))
  {
    if Lookup(load, id).Some? {
      var r := Lookup(load, id).value;
      assert RoleAt(load, id, 0) == Some(r);
      if r.parent != "" && OnChain(load, r.parent, p) {
        var k: nat :| RoleAt(load, r.parent, k).Some? && p in RoleAt(load, r.parent, k).value.permissions;
        assert RoleAt(load, id, k + 1) == RoleAt(load, r.parent, k);
      }
      if OnChain(load, id, p) {
        var k: nat :| RoleAt(load, id, k).Some? && p in RoleAt(load, id, k).value.permissions;
        if k > 0 {
          assert RoleAt(load, id, k) == RoleAt(load, r.parent, k - 1);
        }
      }
    }
  }

  /** What the walk has collected: without an administrator all permissions met, each once, and `seen` is
      their set; with one, `*` alone. */
  ghost predicate Collected(seen: set<string>, result: seq<string>, met: iset<string>) {
    if ADMIN in met then result == [ADMIN] && ADMIN !in seen
    else Distinct(result) && forall p :: (p in result <==> p in met) && (p in seen <==> p in met)
  }

  /** Appends what has not been seen, in order. */
  method AppendNew(items: seq<string>, seen: set<string>, result: seq<string>)
    returns (seen': set<string>, result': seq<string>)
    ensures result <= result' && forall p :: p in result' <==> p in result || (p in items && p !in seen)
    ensures seen' == seen + set p | p in items
    ensures Distinct(result) && (forall p | p in result :: p in seen) ==> Distinct(result')
  {
    seen', result' := seen, result;
    for i := 0 to |items|
      invariant result <= result' && forall p :: p in result' <==> p in result || (p in items[..i] && p !in seen)
      invariant seen' == seen + set p | p in items[..i]
      invariant Distinct(result) && (forall p | p in result :: p in seen) ==> Distinct(result')
      invariant (forall p | p in result :: p in seen) ==> forall p | p in result' :: p in seen'
    {
      if items[i] !in seen' {
        seen' := seen' + {items[i]};
        result' := result' + [items[i]];
      }
    }
  }

  /** Walks up the chain from `id`. */
  method Walk(load: Loader, id: string, ghost n: nat, seen: set<string>, result: seq<string>, ghost met: iset<string>)
    returns (seen': set<string>, result': seq<string>)
    requires Stops(load, id, n) && ADMIN !in met && Collected(seen, result, met)
    ensures Collected(seen', result', met + iset p | OnChain(load, id, p))
    decreases n
  {
    seen', result' := seen, result;
    var found := Lookup(load, id);
    if found.None? {
      return;
    }
    var r := found.value;
    for i := 0 to |r.permissions|
      invariant ADMIN !in r.permissions[..i]
    {
      if r.permissions[i] == ADMIN {
        result' := [ADMIN];
        OnChainStep(load, id, ADMIN);
        return;
      }
    }
    seen', result' := AppendNew(r.permissions, seen, result);
    ghost var own := met + iset p | p in r.permissions;
    if r.parent != "" {
      seen', result' := Walk(load, r.parent, n - 1, seen', result', own);
    }
    forall p ensures OnChain(load, id, p) <==>
      p in r.permissions || (r.parent != "" && OnChain(load, r.parent, p))
    {
      OnChainStep(load, id, p);
    }
    assert met + (iset p | OnChain(load, id, p))
        == own + if r.parent != "" then iset p | OnChain(load, r.parent, p) else iset{};
  }

  /** The permissions of a user: those of the role's chain, then the extra ones. */
  method GetEffectivePerms(load: Loader, roleName: string, extra: seq<string>, ghost n: nat)
    returns (result: seq<string>)
    requires Stops(load, roleName, n)
    ensures forall p :: HoldsIn(result, p) <==>
      OnChain(load, roleName, p) || OnChain(load, roleName, ADMIN) || p in extra || ADMIN in extra
    ensures !OnChain(load, roleName, ADMIN) ==>
      Distinct(result) && forall p :: p in result <==> OnChain(load, roleName, p) || p in extra
    ensures OnChain(load, roleName, ADMIN) ==> result != [] && result[0] == ADMIN
  {
    var seen: set<string>, walked := Walk(load, roleName, n, {}, [], iset{});
    seen, result := AppendNew(extra, seen, walked);
  }

  /** Without stored roles the three built-in ones hold these permissions, and others none. */
  lemma BuiltInRoles(load: Loader, id: string, p: string)
    requires load(id).None?
    ensures OnChain(load, id, p) <==>
      || (id == "admin" && p == "*")
      || (id == "developer"
          && p in {"connections:list", "connections:query", "connections:execute", "users:list", "jobs:list",
                   "jobs:create", "traffic:view"})
      || (id == "readonly" && p in {"connections:list", "connections:query"})
  {
    OnChainStep(load, id, p);
    hide OnChain;
  }

  /** A stored role is taken as it is stored, also under the id of a built-in one. */
  lemma StoredRolesComeFirst(load: Loader, id: string, p: string)
    requires load(id).Some?
    ensures OnChain(load, id, p) <==>
      p in load(id).value.permissions || (load(id).value.parent != "" && OnChain(load, load(id).value.parent, p))
  {
    OnChainStep(load, id, p);
  }

  predicate HoldsIn(perms: seq<string>, required: string) {
    ADMIN in perms || required in perms
  }

  method HasPermission(perms: seq<string>, required: string) returns (r: bool)
    ensures r <==> HoldsIn(perms, required)
  {
    for i := 0 to |perms|
      invariant !HoldsIn(perms[..i], required)
    {
      if perms[i] == ADMIN || perms[i] == required {
        return true;
      }
    }
    return false;
  }
}

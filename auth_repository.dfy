/** The read side of the authenticator: user and role listings, and the
    aggregation of permission keys over roles and users. */
module AuthRepository {
  import opened Options
  import opened Strings
  import opened Permissions
  import opened Sorting
  import opened Storage
  import EloquentUser

  // ---------------------------------------------------------------------
  // Listing users and roles
  // ---------------------------------------------------------------------

  /** Ascending by e-mail address (`orderBy('email')`). */
  ghost predicate ByEmail(us: seq<User>)
  {
    forall i, j :: 0 <= i < j < |us| ==> !Below(us[j].email, us[i].email)
  }

  /** If `a` is below `b` and `c` is not below `b`, then `c` is not below `a`. */
  lemma NotBelowThrough(a: string, b: string, c: string)
    requires Below(a, b) && !Below(c, b)
    ensures !Below(c, a)
  {
    BelowTotal(c, b);
    if c == b {
      BelowAsymmetric(a, c);
    } else {
      BelowTransitive(a, b, c);
      BelowAsymmetric(a, c);
    }
  }

  lemma ByEmailTail(us: seq<User>)
    requires ByEmail(us) && us != []
    ensures ByEmail(us[1..])
    ensures forall y :: y in us[1..] ==> !Below(y.email, us[0].email)
  {
    forall i, j | 0 <= i < j < |us[1..]| ensures !Below(us[1..][j].email, us[1..][i].email) {
      assert us[1..][i] == us[i + 1] && us[1..][j] == us[j + 1];
    }
    forall y | y in us[1..] ensures !Below(y.email, us[0].email) {
      var j :| 0 <= j < |us[1..]| && us[1..][j] == y;
      assert us[j + 1] == y;
    }
  }

  /** A row no listed row is below goes in front. */
  lemma ByEmailCons(x: User, t: seq<User>)
    requires ByEmail(t)
    requires forall y :: y in t ==> !Below(y.email, x.email)
    ensures ByEmail([x] + t)
  {
    var r := [x] + t;
    forall i, j | 0 <= i < j < |r| ensures !Below(r[j].email, r[i].email) {
      assert r[j] == t[j - 1];
      if i == 0 {
        assert t[j - 1] in t;
      } else {
        assert r[i] == t[i - 1];
      }
    }
  }

  function InsertByEmail(us: seq<User>, u: User): (r: seq<User>)
    requires ByEmail(us)
    ensures ByEmail(r)
    ensures multiset(r) == multiset(us) + multiset{u}
  {
    if us == [] then [u]
    else
      ByEmailTail(us);
      assert us == [us[0]] + us[1..];
      if Below(u.email, us[0].email) then
        forall y | y in us ensures !Below(y.email, u.email) {
          if y == us[0] {
            BelowAsymmetric(u.email, y.email);
          } else {
            assert y in us[1..];
            NotBelowThrough(u.email, us[0].email, y.email);
          }
        }
        ByEmailCons(u, us);
        [u] + us
      else
        var t := InsertByEmail(us[1..], u);
        forall y | y in t ensures !Below(y.email, us[0].email) {
          assert y in multiset(t);
          if y != u { assert y in multiset(us[1..]); }
        }
        ByEmailCons(us[0], t);
        [us[0]] + t
  }

  function SortByEmail(us: seq<User>): (r: seq<User>)
    ensures ByEmail(r)
    ensures multiset(r) == multiset(us)
  {
    if us == [] then []
    else
      assert us == [us[0]] + us[1..];
      InsertByEmail(SortByEmail(us[1..]), us[0])
  }

  /** The `where` clauses of a user query: the rows `keep` accepts, order kept. */
  function Where(us: seq<User>, keep: User -> bool): (r: seq<User>)
    ensures forall u :: multiset(r)[u] == if keep(u) then multiset(us)[u] else 0
  {
    if us == [] then []
    else
      assert us == [us[0]] + us[1..];
      (if keep(us[0]) then [us[0]] else []) + Where(us[1..], keep)
  }

  /** `getAllUsers`: sorted by e-mail; superadmins only when `withAdmin`. */
  function GetAllUsers(s: Store, withAdmin: bool): (r: seq<User>)
    ensures ByEmail(r)
    ensures forall u :: multiset(r)[u] == if withAdmin || !u.isSuperadmin then multiset(s.users)[u] else 0
  {
    SortByEmail(Where(s.users, (u: User) => withAdmin || !u.isSuperadmin))
  }

  /** `getUsersForRole`: the users holding `role`, sorted by e-mail;
      superadmins only when `withAdmin`. */
  function GetUsersForRole(s: Store, role: string, withAdmin: bool): (r: seq<User>)
    ensures ByEmail(r)
    ensures forall u :: multiset(r)[u] == (if EloquentUser.HasRole(u, role) && (withAdmin || !u.isSuperadmin) then multiset(s.users)[u] else 0)
  {
    SortByEmail(Where(s.users, (u: User) => EloquentUser.HasRole(u, role) && (withAdmin || !u.isSuperadmin)))
  }

  /** The slugs of a list of roles, in table order. */
  function SlugList(roles: seq<Role>): (r: seq<string>)
    ensures |r| == |roles|
    ensures forall i :: 0 <= i < |roles| ==> r[i] == roles[i].slug
  {
    seq(|roles|, i requires 0 <= i < |roles| => roles[i].slug)
  }

  /** `getAllRoles`: every slug, ascending. */
  function GetAllRoles(s: Store): (r: seq<string>)
    ensures StrictlySorted(r)
    ensures forall slug :: slug in r <==> slug in Slugs(s.roles)
  {
    var l := SlugList(s.roles);
    assert forall slug :: slug in l <==> slug in Slugs(s.roles) by {
      forall slug ensures slug in l <==> slug in Slugs(s.roles) {
        if slug in Slugs(s.roles) {
          var i :| 0 <= i < |s.roles| && s.roles[i].slug == slug;
          assert l[i] == slug;
        }
      }
    }
    SortUnique(l)
  }

  /** With unique slugs, there is one entry per role. */
  lemma {:induction false} AllRolesCount(s: Store)
    requires Valid(s)
    ensures |GetAllRoles(s)| == |s.roles|
  {
    var l := SlugList(s.roles);
    assert Distinct(l) by {
      forall i, j | 0 <= i < j < |l| ensures l[i] != l[j] {
        assert l[i] == s.roles[i].slug && l[j] == s.roles[j].slug;
      }
    }
    SortUniqueOfDistinctKeepsLength(l);
  }

  // ---------------------------------------------------------------------
  // Looking up users and roles
  // ---------------------------------------------------------------------

  /** What `resolveUser` accepts: a user object, an integer id, or a login name. */
  datatype UserRef = Instance(user: User) | ById(id: int) | ByName(name: string)

  /** `resolveUser`: an instance passes through; an integer is looked up by id,
      anything else by e-mail; `None` when nothing is found. */
  function ResolveUser(s: Store, ref: UserRef): (r: Option<User>)
    ensures ref.Instance? ==> r == Some(ref.user)
    ensures ref.ById? ==> (r.Some? <==> exists u :: u in s.users && u.id == ref.id)
    ensures ref.ById? && r.Some? ==> r.value in s.users && r.value.id == ref.id
    ensures ref.ByName? ==> (r.Some? <==> exists u :: u in s.users && u.email == ref.name)
    ensures ref.ByName? && r.Some? ==> r.value in s.users && r.value.email == ref.name
  {
    match ref
    case Instance(u) => Some(u)
    case ById(id) => FindById(s.users, id)
    case ByName(name) => FindByEmail(s.users, name)
  }

  /** In a valid store a stored user is found by its id and by its name. */
  lemma ResolveStoredUser(s: Store, u: User)
    requires Valid(s) && u in s.users
    ensures ResolveUser(s, ById(u.id)) == Some(u)
    ensures ResolveUser(s, ByName(u.email)) == Some(u)
  {
    FindByIdOfMember(s, u);
    FindByEmailOfMember(s, u);
  }

  /** `getRole`. */
  function GetRole(s: Store, slug: string): (r: Option<Role>)
    ensures r.Some? ==> r.value in s.roles && r.value.slug == slug
    ensures r.None? <==> slug !in Slugs(s.roles)
  {
    FindRoleBySlug(s.roles, slug)
  }

  /** `roleExists`. */
  function RoleExists(s: Store, slug: string): (r: bool)
    ensures r <==> exists i :: 0 <= i < |s.roles| && s.roles[i].slug == slug
  {
    GetRole(s, slug).Some?
  }

  /** The holders listed by `getUsersForRole` are there exactly when some
      stored user holds the role. */
  lemma HoldersNonEmpty(s: Store, slug: string)
    ensures |GetUsersForRole(s, slug, true)| > 0 <==> exists u :: u in s.users && EloquentUser.HasRole(u, slug)
  {
    var holders := GetUsersForRole(s, slug, true);
    if exists u :: u in s.users && EloquentUser.HasRole(u, slug) {
      var u :| u in s.users && EloquentUser.HasRole(u, slug);
      assert multiset(s.users)[u] > 0;
      assert multiset(holders)[u] > 0;
    }
    if |holders| > 0 {
      var h := holders[0];
      assert multiset(holders)[h] > 0;
      assert EloquentUser.HasRole(h, slug) && multiset(s.users)[h] > 0;
      assert h in s.users;
    }
  }

  /** `roleInUse`: some user holds the role; superadmins count too. */
  function RoleInUse(s: Store, slug: string): (r: bool)
    ensures r <==> exists u :: u in s.users && EloquentUser.HasRole(u, slug)
  {
    HoldersNonEmpty(s, slug);
    |GetUsersForRole(s, slug, true)| > 0
  }

  // ---------------------------------------------------------------------
  // Permission aggregation
  // ---------------------------------------------------------------------

  /** The truthy keys of each role's map, concatenated in table order (the
      first `foreach` of `getAllPermissions`). */
  function RoleKeys(roles: seq<Role>): seq<string>
  {
    if roles == [] then [] else RoleKeys(roles[..|roles| - 1]) + TruthyKeys(roles[|roles| - 1].permissions)
  }

  /** The same for users' own maps (the second `foreach`). */
  function UserKeys(users: seq<User>): seq<string>
  {
    if users == [] then [] else UserKeys(users[..|users| - 1]) + TruthyKeys(users[|users| - 1].permissions)
  }

  lemma {:induction false} RoleKeysMembers(roles: seq<Role>, p: string)
    ensures p in RoleKeys(roles) <==> exists i :: 0 <= i < |roles| && Granted(roles[i].permissions, p)
    decreases |roles|
  {
    if roles != [] {
      var init := roles[..|roles| - 1];
      RoleKeysMembers(init, p);
      assert forall i :: 0 <= i < |init| ==> init[i] == roles[i];
    }
  }

  lemma {:induction false} UserKeysMembers(users: seq<User>, p: string)
    ensures p in UserKeys(users) <==> exists i :: 0 <= i < |users| && Granted(users[i].permissions, p)
    decreases |users|
  {
    if users != [] {
      var init := users[..|users| - 1];
      UserKeysMembers(init, p);
      assert forall i :: 0 <= i < |init| ==> init[i] == users[i];
    }
  }

  /** A key is in use when some role's or some user's own map grants it. */
  ghost predicate InUse(s: Store, p: string)
  {
    || (exists i :: 0 <= i < |s.roles| && Granted(s.roles[i].permissions, p))
    || (exists i :: 0 <= i < |s.users| && Granted(s.users[i].permissions, p))
  }

  /** `getAllPermissions`: every key granted by any role or any user, sorted,
      each once. */
  method GetAllPermissions(s: Store) returns (r: seq<string>)
    ensures r == SortUnique(RoleKeys(s.roles) + UserKeys(s.users))
    ensures StrictlySorted(r)
    ensures forall p :: p in r <==> InUse(s, p)
  {
    var permissions: seq<string> := [];
    var i := 0;
    while i < |s.roles|
      invariant 0 <= i <= |s.roles|
      invariant permissions == RoleKeys(s.roles[..i])
    {
      assert s.roles[..i + 1][..i] == s.roles[..i];
      permissions := permissions + TruthyKeys(s.roles[i].permissions);
      i := i + 1;
    }
    assert s.roles[..i] == s.roles;
    var fromRoles := permissions;
    i := 0;
    while i < |s.users|
      invariant 0 <= i <= |s.users|
      invariant permissions == fromRoles + UserKeys(s.users[..i])
    {
      assert s.users[..i + 1][..i] == s.users[..i];
      permissions := permissions + TruthyKeys(s.users[i].permissions);
      i := i + 1;
    }
    assert s.users[..i] == s.users;
    r := SortUnique(permissions);
    AllKeysMembers(s);
  }

  lemma AllKeysMembers(s: Store)
    ensures forall p :: p in RoleKeys(s.roles) + UserKeys(s.users) <==> InUse(s, p)
  {
    forall p ensures p in RoleKeys(s.roles) + UserKeys(s.users) <==> InUse(s, p) {
      RoleKeysMembers(s.roles, p);
      UserKeysMembers(s.users, p);
    }
  }

  /** `permissionInUse`: membership in `getAllPermissions`, keys compared
      exactly (PHP's loose `in_array` is left out); a key that is
      only ever mapped to false is not in use, and no wildcard is expanded. */
  method PermissionInUse(s: Store, p: string) returns (b: bool)
    ensures b <==> InUse(s, p)
  {
    var all := GetAllPermissions(s);
    b := p in all;
  }

  /** `getAllPermissionsForRole`: `[]` for an unknown slug, otherwise the
      role's truthy keys sorted. */
  function GetAllPermissionsForRole(s: Store, slug: string): (r: seq<string>)
    ensures slug !in Slugs(s.roles) ==> r == []
    ensures slug in Slugs(s.roles) ==>
      var role := GetRole(s, slug).value;
      && StrictlySorted(r)
      && (forall p :: p in r <==> Granted(role.permissions, p))
      && |r| == |TruthyKeys(role.permissions)|
  {
    match GetRole(s, slug)
    case None => []
    case Some(role) =>
      var keys := TruthyKeys(role.permissions);
      TruthyKeysDistinct(role.permissions);
      SortUniqueOfDistinctKeepsLength(keys);
      SortUnique(keys)
  }

  /** The truthy keys of the roles a user's slugs name, in membership order
      (`foreach ($user->getRoles() ...)`). A slug naming no role contributes
      nothing. */
  function HeldKeys(s: Store, slugs: seq<string>): seq<string>
  {
    if slugs == [] then [] else HeldKeys(s, slugs[..|slugs| - 1]) + RoleKeysOf(s, slugs[|slugs| - 1])
  }

  lemma HeldKeysSnoc(s: Store, slugs: seq<string>, i: nat)
    requires i < |slugs|
    ensures HeldKeys(s, slugs[..i + 1]) == HeldKeys(s, slugs[..i]) + RoleKeysOf(s, slugs[i])
  {
    var p := slugs[..i + 1];
    assert p[..|p| - 1] == slugs[..i] && p[|p| - 1] == slugs[i];
  }

  /** The role named `slug` exists and grants `p`. */
  ghost predicate RoleGrants(s: Store, slug: string, p: string)
  {
    GetRole(s, slug).Some? && Granted(GetRole(s, slug).value.permissions, p)
  }

  /** The truthy keys of the role named `slug`, none when there is no such role. */
  function RoleKeysOf(s: Store, slug: string): (r: seq<string>)
    ensures forall p :: p in r <==> RoleGrants(s, slug, p)
  {
    match GetRole(s, slug)
    case None => []
    case Some(role) => TruthyKeys(role.permissions)
  }

  /** Some role named in `slugs` grants `p`. */
  ghost predicate HeldGrants(s: Store, slugs: seq<string>, p: string)
  {
    exists i :: 0 <= i < |slugs| && RoleGrants(s, slugs[i], p)
  }

  lemma HeldGrantsSnoc(s: Store, slugs: seq<string>, p: string)
    requires slugs != []
    ensures HeldGrants(s, slugs, p) <==> HeldGrants(s, slugs[..|slugs| - 1], p) || RoleGrants(s, slugs[|slugs| - 1], p)
  {
    var init := slugs[..|slugs| - 1];
    if HeldGrants(s, slugs, p) {
      var i :| 0 <= i < |slugs| && RoleGrants(s, slugs[i], p);
      if i < |init| { assert init[i] == slugs[i]; }
    }
    if HeldGrants(s, init, p) {
      var i :| 0 <= i < |init| && RoleGrants(s, init[i], p);
      assert init[i] == slugs[i];
    }
  }

  lemma {:induction false} HeldKeysMembers(s: Store, slugs: seq<string>, p: string)
    ensures p in HeldKeys(s, slugs) <==> HeldGrants(s, slugs, p)
    decreases |slugs|
  {
    if slugs != [] {
      HeldKeysMembers(s, slugs[..|slugs| - 1], p);
      HeldGrantsSnoc(s, slugs, p);
    }
  }

  /** What `getAllPermissionsForUser` returns for a resolved user. */
  function UserPermissions(s: Store, u: User): seq<string>
  {
    SortUnique(HeldKeys(s, u.roles) + TruthyKeys(u.permissions))
  }

  /** The keys of `UserPermissions`: granted by the user's own map or by a
      role the user holds. */
  lemma UserPermissionsMembers(s: Store, u: User)
    ensures forall p :: p in UserPermissions(s, u) <==> Granted(u.permissions, p) || HeldGrants(s, u.roles, p)
  {
    forall p ensures p in UserPermissions(s, u) <==> Granted(u.permissions, p) || HeldGrants(s, u.roles, p) {
      HeldKeysMembers(s, u.roles, p);
    }
  }

  /** `getAllPermissionsForUser`: `[]` when the user cannot be resolved;
      otherwise every key granted by the user's own map or by a role the user
      holds, sorted, each once. A key mapped to false in one map stays in when
      another map grants it. */
  method GetAllPermissionsForUser(s: Store, ref: UserRef) returns (r: seq<string>)
    ensures ResolveUser(s, ref).None? ==> r == []
    ensures ResolveUser(s, ref).Some? ==> r == UserPermissions(s, ResolveUser(s, ref).value)
    ensures StrictlySorted(r)
    ensures ResolveUser(s, ref).Some? ==> forall p :: p in r <==>
      Granted(ResolveUser(s, ref).value.permissions, p) || HeldGrants(s, ResolveUser(s, ref).value.roles, p)
  {
    var resolved := ResolveUser(s, ref);
    if resolved.None? {
      return [];
    }
    r := CollectUserPermissions(s, resolved.value);
    UserPermissionsMembers(s, resolved.value);
  }

  /** The loops of `getAllPermissionsForUser` once the user is resolved. */
  method CollectUserPermissions(s: Store, u: User) returns (r: seq<string>)
    ensures r == UserPermissions(s, u)
    ensures StrictlySorted(r)
  {
    var permissions: seq<string> := [];
    var i := 0;
    while i < |u.roles|
      invariant 0 <= i <= |u.roles|
      invariant permissions == HeldKeys(s, u.roles[..i])
    {
      HeldKeysSnoc(s, u.roles, i);
      var role := GetRole(s, u.roles[i]);
      if role.Some? {
        permissions := permissions + TruthyKeys(role.value.permissions);
      }
      i := i + 1;
    }
    assert u.roles[..i] == u.roles;
    permissions := permissions + TruthyKeys(u.permissions);
    r := SortUnique(permissions);
  }

  /** The four keys of the example below, in ascending order. */
  lemma ExampleKeysSorted()
    ensures StrictlySorted(["test.a", "test.c", "test.e", "test.f"])
  {
    var e := ["test.a", "test.c", "test.e", "test.f"];
    assert Below(e[0], e[1]) && Below(e[1], e[2]) && Below(e[2], e[3]);
    BelowTransitive(e[0], e[1], e[2]);
    BelowTransitive(e[1], e[2], e[3]);
    BelowTransitive(e[0], e[2], e[3]);
  }

  /** A role granting `test.f` and `test.c` and denying `test.b`, held by a
      user whose own map grants `test.e` and `test.a`: the user's permissions
      are the four granted keys in ascending order; a second role the user
      does not hold adds nothing. */
  lemma UserPermissionsExample(s: Store, u: User)
    requires s.roles == [
      Role("test_role", "Test Role", [Grant("test.f", true), Grant("test.b", false), Grant("test.c", true)]),
      Role("test_role_2", "Test Role 2", [Grant("test.d", true)])]
    requires u.roles == ["test_role"]
    requires u.permissions == [Grant("test.e", true), Grant("test.a", true)]
    ensures UserPermissions(s, u) == ["test.a", "test.c", "test.e", "test.f"]
  {
    var role := s.roles[0];
    assert GetRole(s, "test_role") == Some(role);
    var rm := role.permissions;
    assert TruthyKeys(rm[1..][1..]) == ["test.c"] by { assert rm[1..][1..][1..] == []; }
    assert TruthyKeys(rm) == ["test.f", "test.c"];
    var um := u.permissions;
    assert TruthyKeys(um[1..]) == ["test.a"] by { assert um[1..][1..] == []; }
    assert TruthyKeys(um) == ["test.e", "test.a"];
    assert u.roles[..0] == [];
    assert HeldKeys(s, u.roles) == ["test.f", "test.c"];
    var gathered := HeldKeys(s, u.roles) + TruthyKeys(u.permissions);
    assert gathered == ["test.f", "test.c", "test.e", "test.a"];
    ExampleKeysSorted();
    SortedDeterminedByElements(SortUnique(gathered), ["test.a", "test.c", "test.e", "test.f"]);
  }
}

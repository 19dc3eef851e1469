/** The CMS user model's own logic: login name, admin flag, role membership by
    slug, the any-of / all-of dispatch of `can`, and the user's own truthy
    permission keys. */
module EloquentUser {
  import opened Options
  import opened Permissions
  import opened Storage
  import Sorting

  /** Sentinel's resolution of one permission key for one user (role and user
      maps merged, wildcards expanded); its code is not part of this model. */
  type Resolver = (User, string) -> bool

  /** An argument that is either one name or a list of names (`string|string[]`). */
  datatype OneOrMany = One(item: string) | Many(items: seq<string>)

  /** `is_array($x) ? $x : [ $x ]`. */
  function Items(arg: OneOrMany): seq<string>
  {
    match arg
    case One(item) => [item]
    case Many(items) => items
  }

  /** `hasAccess`: every listed key resolves. */
  predicate HasAccess(u: User, ps: seq<string>, access: Resolver)
  {
    forall i :: 0 <= i < |ps| ==> access(u, ps[i])
  }

  /** `hasAnyAccess`: some listed key resolves. */
  predicate HasAnyAccess(u: User, ps: seq<string>, access: Resolver)
  {
    exists i :: 0 <= i < |ps| && access(u, ps[i])
  }

  /** An attribute array handed to `fill` or `update`: its string-valued
      columns, and its `permissions` entry when it has one. */
  datatype Attributes = Attributes(columns: map<string, string>, permissions: Option<PermissionMap>)

  /** The model's `$fillable` columns. */
  const Fillable: set<string> := {"email", "password", "last_name", "first_name", "permissions"}

  /** The fillable columns kept among the profile columns; `email` is the
      login name, `permissions` the permission map, and passwords are not
      part of the store. */
  const ProfileColumns: set<string> := {"first_name", "last_name"}

  /** `fill`: only fillable attributes are taken over. `email` replaces the
      login name, `permissions` the permission map, `first_name` and
      `last_name` their profile columns; every other key is dropped. */
  function Fill(u: User, data: Attributes): (v: User)
    ensures v.id == u.id && v.isSuperadmin == u.isSuperadmin && v.roles == u.roles
    ensures "email" in data.columns ==> v.email == data.columns["email"]
    ensures "email" !in data.columns ==> v.email == u.email
    ensures data.permissions.Some? ==> v.permissions == data.permissions.value
    ensures data.permissions.None? ==> v.permissions == u.permissions
    ensures forall c :: c in v.profile <==> c in u.profile || (c in data.columns && c in ProfileColumns)
    ensures forall c :: c in v.profile && c !in ProfileColumns ==> v.profile[c] == u.profile[c]
    ensures forall c :: c in data.columns && c in ProfileColumns ==> v.profile[c] == data.columns[c]
  {
    var added := map c | c in data.columns.Keys * ProfileColumns :: data.columns[c];
    u.(email := if "email" in data.columns then data.columns["email"] else u.email,
       permissions := if data.permissions.Some? then data.permissions.value else u.permissions,
       profile := u.profile + added)
  }

  /** A key outside `$fillable` has no effect: filling with or without it
      gives the same row. */
  lemma {:induction false} FillIgnoresUnfillable(u: User, data: Attributes, c: string)
    requires c !in Fillable
    ensures Fill(u, data.(columns := data.columns - {c})) == Fill(u, data)
  {
    var d := data.(columns := data.columns - {c});
    assert data.columns.Keys * ProfileColumns == d.columns.Keys * ProfileColumns;
  }

  /** Filling twice with the same attributes is filling once. */
  lemma {:induction false} FillIdempotent(u: User, data: Attributes)
    ensures Fill(Fill(u, data), data) == Fill(u, data)
  {
    var v := Fill(u, data);
    assert Fill(v, data).profile == v.profile;
  }

  /** An empty attribute array changes nothing. */
  lemma {:induction false} FillEmpty(u: User)
    ensures Fill(u, Attributes(map[], None)) == u
  {
    assert Fill(u, Attributes(map[], None)).profile == u.profile;
  }

  /** `getUsername`: the login name is the e-mail address. */
  function GetUsername(u: User): (r: string)
    ensures r == u.email
  {
    u.email
  }

  /** The login name identifies the user: looking it up gives the same user. */
  lemma {:induction false} UsernameFindsUser(s: Store, u: User)
    requires Valid(s) && u in s.users
    ensures FindByEmail(s.users, GetUsername(u)) == Some(u)
  {
    FindByEmailOfMember(s, u);
  }

  /** `isAdmin`: the user's superadmin flag. */
  function IsAdmin(u: User): (r: bool)
    ensures r <==> u.isSuperadmin
  {
    u.isSuperadmin
  }

  /** `hasRole`: some attached role carries that slug. */
  function HasRole(u: User, slug: string): (r: bool)
    ensures r <==> slug in u.roles
  {
    exists i :: 0 <= i < |u.roles| && u.roles[i] == slug
  }

  /** In a valid store a role the user holds is a role that exists. */
  lemma HeldRoleExists(s: Store, u: User, slug: string)
    requires Valid(s) && u in s.users && HasRole(u, slug)
    ensures FindRoleBySlug(s.roles, slug).Some?
    ensures FindRoleBySlug(s.roles, slug).value.slug == slug
  {
    var i :| 0 <= i < |s.users| && s.users[i] == u;
    assert slug in s.users[i].roles;
  }

  /** `getAllRoles`: the slugs of the attached roles, in attachment order. */
  function GetAllRoles(u: User): (r: seq<string>)
    ensures forall slug :: slug in r <==> HasRole(u, slug)
  {
    u.roles
  }

  /** In a valid store no slug is listed twice. */
  lemma AllRolesDistinct(s: Store, u: User)
    requires Valid(s) && u in s.users
    ensures Sorting.Distinct(GetAllRoles(u))
  {
    var i :| 0 <= i < |s.users| && s.users[i] == u;
  }

  /** `can`: `allowAny` selects any-of, otherwise all-of, over the keys. */
  function Can(u: User, arg: OneOrMany, allowAny: bool, access: Resolver): (r: bool)
    ensures allowAny ==> (r <==> exists i :: 0 <= i < |Items(arg)| && access(u, Items(arg)[i]))
    ensures !allowAny ==> (r <==> forall i :: 0 <= i < |Items(arg)| ==> access(u, Items(arg)[i]))
  {
    if allowAny then HasAnyAccess(u, Items(arg), access) else HasAccess(u, Items(arg), access)
  }

  /** `canAnyOf`. */
  function CanAnyOf(u: User, ps: seq<string>, access: Resolver): (r: bool)
    ensures r <==> exists p :: p in ps && access(u, p)
  {
    var r := Can(u, Many(ps), true, access);
    assert r ==> exists p :: p in ps && access(u, p) by {
      if r { var i :| 0 <= i < |ps| && access(u, ps[i]); assert ps[i] in ps; }
    }
    r
  }

  /** A single key is treated as the one-element list holding it, and then
      any-of and all-of agree. */
  lemma {:induction false} CanSingleAsList(u: User, p: string, allowAny: bool, access: Resolver)
    ensures Can(u, One(p), allowAny, access) == Can(u, Many([p]), allowAny, access)
    ensures Can(u, One(p), true, access) == Can(u, One(p), false, access) == access(u, p)
  {
    assert Items(One(p))[0] == p;
  }

  /** All-of a non-empty list implies any-of it; on the empty list all-of
      holds and any-of fails. */
  lemma {:induction false} AllOfImpliesAnyOf(u: User, ps: seq<string>, access: Resolver)
    ensures |ps| > 0 && Can(u, Many(ps), false, access) ==> CanAnyOf(u, ps, access)
    ensures Can(u, Many([]), false, access) && !CanAnyOf(u, [], access)
  {
    if |ps| > 0 && Can(u, Many(ps), false, access) {
      assert access(u, Items(Many(ps))[0]);
      assert ps[0] in ps;
    }
  }

  /** `getAllPermissions`: the user's own keys mapped to a truthy value, in map
      order. Role permissions are not included. */
  function GetAllPermissions(u: User): (r: seq<string>)
    ensures forall k :: k in r <==> Granted(u.permissions, k)
    ensures |r| <= |u.permissions|
    ensures forall i, j :: 0 <= i < j < |r| ==> 0 <= KeyIndex(u.permissions, r[i]) < KeyIndex(u.permissions, r[j])
  {
    TruthyKeysInMapOrder(u.permissions);
    TruthyKeys(u.permissions)
  }

  /** The result depends on the user's own map alone, and lists no key twice. */
  lemma {:induction false} AllPermissionsOwnOnly(u: User, roles: seq<string>)
    ensures GetAllPermissions(u.(roles := roles)) == GetAllPermissions(u)
    ensures Sorting.Distinct(GetAllPermissions(u))
  {
    TruthyKeysDistinct(u.permissions);
  }

  /** Two truthy keys and one explicit denial give the two truthy keys, in the
      order they were stored. */
  lemma AllPermissionsExample(u: User)
    requires u.permissions == [Grant("test", true), Grant("another", true), Grant("not", false)]
    ensures GetAllPermissions(u) == ["test", "another"]
  {
    var m := u.permissions;
    assert TruthyKeys(m[1..][1..]) == [] by { assert m[1..][1..][1..] == []; }
    assert TruthyKeys(m[1..]) == ["another"];
  }
}

/** The CMS authenticator: session queries, logins and logouts, role
    membership, user and role permissions, role and user administration. The
    Sentinel store is a `Store` value; each Sentinel call whose outcome this
    package does not decide (a credential check, a `save`, a `delete`) is a
    boolean parameter; the `event()` calls append to a ghost log. */
module Auth {
  import opened Options
  import opened Strings
  import opened Permissions
  import opened Storage
  import Sorting
  import EloquentUser

  /** The events the authenticator fires. */
  datatype Event =
    | LoggedIn(userId: nat, stateless: bool, forced: bool)
    | LoggedOut(userId: nat)
    | PermissionsChanged(userId: nat)
    | RolesChanged

  // ---------------------------------------------------------------------
  // Store updates the authenticator performs
  // ---------------------------------------------------------------------

  function UserOf(s: Store, id: nat): User
    requires FindById(s.users, id).Some?
  {
    FindById(s.users, id).value
  }

  /** A stored user, with the table invariants that concern it. */
  lemma StoredUser(s: Store, id: nat)
    requires Valid(s) && FindById(s.users, id).Some?
    ensures Sorting.Distinct(UserOf(s, id).roles)
    ensures forall slug :: slug in UserOf(s, id).roles ==> slug in Slugs(s.roles)
    ensures forall i :: 0 <= i < |s.users| && s.users[i].id == id ==> s.users[i] == UserOf(s, id)
    ensures AddressFreeFor(s.users, id, UserOf(s, id).email)
  {
    var u := UserOf(s, id);
    OwnAddressFree(s, u);
    var k :| 0 <= k < |s.users| && s.users[k] == u;
    forall i | 0 <= i < |s.users| && s.users[i].id == id ensures s.users[i] == u {
      FindByIdOfMember(s, s.users[i]);
    }
  }

  /** `save()` of a user row under its id, with an address the unique index
      accepts. */
  function SaveUser(s: Store, u: User): (r: Store)
    requires Valid(s) && FindById(s.users, u.id).Some? && AddressFreeFor(s.users, u.id, u.email)
    requires Sorting.Distinct(u.roles) && forall slug :: slug in u.roles ==> slug in Slugs(s.roles)
    ensures Valid(r) && r.roles == s.roles && r.nextId == s.nextId && FindById(r.users, u.id) == Some(u)
    ensures |r.users| == |s.users|
    ensures forall i :: 0 <= i < |s.users| ==> r.users[i] == if s.users[i].id == u.id then u else s.users[i]
  {
    ReplaceUserValid(s, u);
    ReplaceUserFinds(s, u);
    s.(users := ReplaceUser(s.users, u))
  }

  /** `assignSingleRole` on the user row: the role is appended unless the user
      holds it already or no role has that slug (`known` is the set of slugs
      in the roles table). */
  function AddRole(u: User, known: set<string>, slug: string): (v: User)
    ensures v == u.(roles := v.roles)
    ensures forall x :: x in v.roles <==> x in u.roles || (x == slug && slug in known)
  {
    if slug in u.roles || slug !in known then u else u.(roles := u.roles + [slug])
  }

  /** `AddRole` for each slug in turn. */
  function AddRoles(u: User, known: set<string>, slugs: seq<string>): User
    decreases |slugs|
  {
    if slugs == [] then u else AddRole(AddRoles(u, known, slugs[..|slugs| - 1]), known, slugs[|slugs| - 1])
  }

  /** The user ends up holding what it held plus every listed known slug, and
      nothing else about the row changes. */
  lemma {:induction false} AddRolesEffect(u: User, known: set<string>, slugs: seq<string>)
    ensures AddRoles(u, known, slugs) == u.(roles := AddRoles(u, known, slugs).roles)
    ensures forall x :: x in AddRoles(u, known, slugs).roles <==> x in u.roles || (x in slugs && x in known)
    decreases |slugs|
  {
    if slugs != [] {
      var init := slugs[..|slugs| - 1];
      AddRolesEffect(u, known, init);
      assert slugs == init + [slugs[|slugs| - 1]];
    }
  }

  /** `unassignSingleRole` on the user row: the role is dropped when the user
      holds it and some role has that slug. */
  function DropRole(u: User, known: set<string>, slug: string): (v: User)
    ensures v == u.(roles := v.roles)
    ensures forall x :: x in v.roles <==> x in u.roles && (x != slug || slug !in known)
  {
    if slug !in u.roles || slug !in known then u else u.(roles := Without(u.roles, slug))
  }

  /** `DropRole` for each slug in turn. */
  function DropRoles(u: User, known: set<string>, slugs: seq<string>): User
    decreases |slugs|
  {
    if slugs == [] then u else DropRole(DropRoles(u, known, slugs[..|slugs| - 1]), known, slugs[|slugs| - 1])
  }

  /** The user ends up holding what it held except the listed known slugs, and
      nothing else about the row changes. */
  lemma {:induction false} DropRolesEffect(u: User, known: set<string>, slugs: seq<string>)
    ensures DropRoles(u, known, slugs) == u.(roles := DropRoles(u, known, slugs).roles)
    ensures forall x :: x in DropRoles(u, known, slugs).roles <==> x in u.roles && (x !in slugs || x !in known)
    decreases |slugs|
  {
    if slugs != [] {
      var init := slugs[..|slugs| - 1];
      DropRolesEffect(u, known, init);
      assert slugs == init + [slugs[|slugs| - 1]];
    }
  }

  /** `assignSingleRole`'s effect on the store. */
  function AttachOne(s: Store, id: nat, slug: string): (r: Store)
    requires Valid(s) && FindById(s.users, id).Some?
    ensures Valid(r) && r.roles == s.roles && r.nextId == s.nextId && FindById(r.users, id).Some?
    ensures UserOf(r, id) == AddRole(UserOf(s, id), Slugs(s.roles), slug)
  {
    var u := UserOf(s, id);
    StoredUser(s, id);
    if slug in u.roles || slug !in Slugs(s.roles) then s
    else
      var v := u.(roles := u.roles + [slug]);
      assert Sorting.Distinct(v.roles) by {
        forall i, j | 0 <= i < j < |v.roles| ensures v.roles[i] != v.roles[j] {
          if j < |u.roles| { assert v.roles[i] == u.roles[i] && v.roles[j] == u.roles[j]; }
          else { assert v.roles[i] == u.roles[i]; }
        }
      }
      SaveUser(s, v)
  }

  /** The store after `assignSingleRole` for each slug in turn. */
  function AttachAll(s: Store, id: nat, slugs: seq<string>): (r: Store)
    requires Valid(s) && FindById(s.users, id).Some?
    ensures Valid(r) && r.roles == s.roles && r.nextId == s.nextId && FindById(r.users, id).Some?
    decreases |slugs|
  {
    if slugs == [] then s else AttachOne(AttachAll(s, id, slugs[..|slugs| - 1]), id, slugs[|slugs| - 1])
  }

  /** One more slug of the loop: attaching the prefix up to and including it. */
  lemma AttachAllStep(s: Store, id: nat, slugs: seq<string>, i: nat)
    requires Valid(s) && FindById(s.users, id).Some? && i < |slugs|
    ensures AttachAll(s, id, slugs[..i + 1]) == AttachOne(AttachAll(s, id, slugs[..i]), id, slugs[i])
  {
    var p := slugs[..i + 1];
    assert p[..|p| - 1] == slugs[..i] && p[|p| - 1] == slugs[i];
    assert AttachAll(s, id, p) == AttachOne(AttachAll(s, id, p[..|p| - 1]), id, p[|p| - 1]);
  }

  /** Attaching in the store is attaching on the user's row. */
  lemma {:induction false} AttachAllUser(s: Store, id: nat, slugs: seq<string>)
    requires Valid(s) && FindById(s.users, id).Some?
    ensures UserOf(AttachAll(s, id, slugs), id) == AddRoles(UserOf(s, id), Slugs(s.roles), slugs)
    decreases |slugs|
  {
    if slugs != [] {
      AttachAllUser(s, id, slugs[..|slugs| - 1]);
    }
  }

  /** After attaching: the user holds exactly what it held before plus every
      listed slug that names a role, in particular the ones attached before a
      failing slug; nothing else about that user changes. */
  lemma AttachAllEffect(s: Store, id: nat, slugs: seq<string>)
    requires Valid(s) && FindById(s.users, id).Some?
    ensures var u0 := UserOf(s, id); var u1 := UserOf(AttachAll(s, id, slugs), id);
      && u1 == u0.(roles := u1.roles)
      && (forall slug :: slug in u1.roles <==> slug in u0.roles || (slug in slugs && slug in Slugs(s.roles)))
  {
    AttachAllUser(s, id, slugs);
    AddRolesEffect(UserOf(s, id), Slugs(s.roles), slugs);
  }

  /** Attaching one role changes no other user. */
  lemma AttachOneOthers(s: Store, id: nat, slug: string)
    requires Valid(s) && FindById(s.users, id).Some?
    ensures var r := AttachOne(s, id, slug);
      && |r.users| == |s.users|
      && (forall i :: 0 <= i < |s.users| ==> r.users[i] == if s.users[i].id == id then UserOf(r, id) else s.users[i])
  {
    StoredUser(s, id);
  }

  /** Attaching changes no other user. */
  lemma {:induction false} AttachAllOthers(s: Store, id: nat, slugs: seq<string>)
    requires Valid(s) && FindById(s.users, id).Some?
    ensures var r := AttachAll(s, id, slugs);
      && |r.users| == |s.users|
      && (forall i :: 0 <= i < |s.users| ==> r.users[i] == if s.users[i].id == id then UserOf(r, id) else s.users[i])
    decreases |slugs|
  {
    StoredUser(s, id);
    if slugs != [] {
      AttachAllOthers(s, id, slugs[..|slugs| - 1]);
      AttachOneOthers(AttachAll(s, id, slugs[..|slugs| - 1]), id, slugs[|slugs| - 1]);
    }
  }

  /** What `assignSingleRole` answers for `slug` in the store as it was before
      the whole call: the user holds it or some role has that slug. */
  predicate Assignable(s: Store, id: nat, slug: string)
    requires FindById(s.users, id).Some?
  {
    slug in UserOf(s, id).roles || slug in Slugs(s.roles)
  }

  /** Every listed slug is assignable in `s`. */
  predicate AllAssignable(s: Store, id: nat, slugs: seq<string>)
    requires FindById(s.users, id).Some?
  {
    forall slug :: slug in slugs ==> Assignable(s, id, slug)
  }

  lemma AllAssignableStep(s: Store, id: nat, slugs: seq<string>, i: nat)
    requires FindById(s.users, id).Some? && i < |slugs|
    ensures AllAssignable(s, id, slugs[..i + 1]) <==> AllAssignable(s, id, slugs[..i]) && Assignable(s, id, slugs[i])
  {
    assert slugs[..i + 1] == slugs[..i] + [slugs[i]];
  }

  /** Part way through the loop, the answer for the next slug is the one it
      would have had at the start. */
  lemma AssignStepAnswer(s: Store, id: nat, slugs: seq<string>, i: nat)
    requires Valid(s) && FindById(s.users, id).Some? && i < |slugs|
    ensures Assignable(AttachAll(s, id, slugs[..i]), id, slugs[i]) == Assignable(s, id, slugs[i])
  {
    AttachAllEffect(s, id, slugs[..i]);
  }

  /** The invariant of `assign`'s loop after `i` slugs: the store is the
      initial one with those slugs attached, and `count`, the number of single
      assignments that succeeded, is `i` exactly when all of them were
      assignable. */
  ghost predicate AssignInv(s0: Store, id: nat, slugs: seq<string>, i: nat, t: Store, count: nat)
    requires Valid(s0) && FindById(s0.users, id).Some? && i <= |slugs|
  {
    && t == AttachAll(s0, id, slugs[..i])
    && count <= i
    && (count == i <==> AllAssignable(s0, id, slugs[..i]))
  }

  /** One turn of the loop keeps the invariant. */
  lemma AssignInvStep(s0: Store, id: nat, slugs: seq<string>, i: nat, t: Store, count: nat)
    requires Valid(s0) && FindById(s0.users, id).Some? && i < |slugs|
    requires AssignInv(s0, id, slugs, i, t, count)
    ensures Valid(t) && FindById(t.users, id).Some?
    ensures var single := Assignable(t, id, slugs[i]);
      AssignInv(s0, id, slugs, i + 1, AttachOne(t, id, slugs[i]), if single then count + 1 else count)
  {
    AssignStepAnswer(s0, id, slugs, i);
    AttachAllStep(s0, id, slugs, i);
    AllAssignableStep(s0, id, slugs, i);
  }

  /** When every slug is held already or names no role, attaching changes
      nothing. */
  lemma {:induction false} AttachAllNoop(s: Store, id: nat, slugs: seq<string>)
    requires Valid(s) && FindById(s.users, id).Some?
    requires forall slug :: slug in slugs ==> slug in UserOf(s, id).roles || slug !in Slugs(s.roles)
    ensures AttachAll(s, id, slugs) == s
    decreases |slugs|
  {
    if slugs != [] {
      var init := slugs[..|slugs| - 1];
      assert forall slug :: slug in init ==> slug in slugs;
      AttachAllNoop(s, id, init);
    }
  }

  /** Assigning the same roles a second time changes nothing. */
  lemma AttachAllIdempotent(s: Store, id: nat, slugs: seq<string>)
    requires Valid(s) && FindById(s.users, id).Some?
    ensures AttachAll(AttachAll(s, id, slugs), id, slugs) == AttachAll(s, id, slugs)
  {
    AttachAllEffect(s, id, slugs);
    AttachAllNoop(AttachAll(s, id, slugs), id, slugs);
  }

  /** `unassignSingleRole`'s effect on the store. */
  function DetachOne(s: Store, id: nat, slug: string): (r: Store)
    requires Valid(s) && FindById(s.users, id).Some?
    ensures Valid(r) && r.roles == s.roles && r.nextId == s.nextId && FindById(r.users, id).Some?
    ensures UserOf(r, id) == DropRole(UserOf(s, id), Slugs(s.roles), slug)
  {
    var u := UserOf(s, id);
    StoredUser(s, id);
    if slug !in u.roles || slug !in Slugs(s.roles) then s
    else
      WithoutDistinct(u.roles, slug);
      SaveUser(s, u.(roles := Without(u.roles, slug)))
  }

  /** The store after `unassignSingleRole` for each slug in turn. */
  function DetachAll(s: Store, id: nat, slugs: seq<string>): (r: Store)
    requires Valid(s) && FindById(s.users, id).Some?
    ensures Valid(r) && r.roles == s.roles && r.nextId == s.nextId && FindById(r.users, id).Some?
    decreases |slugs|
  {
    if slugs == [] then s else DetachOne(DetachAll(s, id, slugs[..|slugs| - 1]), id, slugs[|slugs| - 1])
  }

  /** One more slug of the loop: detaching the prefix up to and including it. */
  lemma DetachAllStep(s: Store, id: nat, slugs: seq<string>, i: nat)
    requires Valid(s) && FindById(s.users, id).Some? && i < |slugs|
    ensures DetachAll(s, id, slugs[..i + 1]) == DetachOne(DetachAll(s, id, slugs[..i]), id, slugs[i])
  {
    var p := slugs[..i + 1];
    assert p[..|p| - 1] == slugs[..i] && p[|p| - 1] == slugs[i];
    assert DetachAll(s, id, p) == DetachOne(DetachAll(s, id, p[..|p| - 1]), id, p[|p| - 1]);
  }

  /** Detaching in the store is detaching on the user's row. */
  lemma {:induction false} DetachAllUser(s: Store, id: nat, slugs: seq<string>)
    requires Valid(s) && FindById(s.users, id).Some?
    ensures UserOf(DetachAll(s, id, slugs), id) == DropRoles(UserOf(s, id), Slugs(s.roles), slugs)
    decreases |slugs|
  {
    if slugs != [] {
      DetachAllUser(s, id, slugs[..|slugs| - 1]);
    }
  }

  /** After detaching the user holds exactly the roles it held before that are
      not listed (every held role exists); nothing else about it changes. */
  lemma DetachAllEffect(s: Store, id: nat, slugs: seq<string>)
    requires Valid(s) && FindById(s.users, id).Some?
    ensures var u0 := UserOf(s, id); var u1 := UserOf(DetachAll(s, id, slugs), id);
      && u1 == u0.(roles := u1.roles)
      && (forall slug :: slug in u1.roles <==> slug in u0.roles && slug !in slugs)
  {
    StoredUser(s, id);
    DetachAllUser(s, id, slugs);
    DropRolesEffect(UserOf(s, id), Slugs(s.roles), slugs);
  }

  /** Detaching one role changes no other user. */
  lemma DetachOneOthers(s: Store, id: nat, slug: string)
    requires Valid(s) && FindById(s.users, id).Some?
    ensures var r := DetachOne(s, id, slug);
      && |r.users| == |s.users|
      && (forall i :: 0 <= i < |s.users| ==> r.users[i] == if s.users[i].id == id then UserOf(r, id) else s.users[i])
  {
    StoredUser(s, id);
  }

  /** Detaching changes no other user. */
  lemma {:induction false} DetachAllOthers(s: Store, id: nat, slugs: seq<string>)
    requires Valid(s) && FindById(s.users, id).Some?
    ensures var r := DetachAll(s, id, slugs);
      && |r.users| == |s.users|
      && (forall i :: 0 <= i < |s.users| ==> r.users[i] == if s.users[i].id == id then UserOf(r, id) else s.users[i])
    decreases |slugs|
  {
    StoredUser(s, id);
    if slugs != [] {
      DetachAllOthers(s, id, slugs[..|slugs| - 1]);
      DetachOneOthers(DetachAll(s, id, slugs[..|slugs| - 1]), id, slugs[|slugs| - 1]);
    }
  }

  /** `unassign`'s answer as written: false on every path, the success path
      included. The count of detached roles is taken and then ignored, since
      both branches of the final comparison answer false. */
  function UnassignAnswer(count: nat, total: nat): (r: bool)
    ensures !r
  {
    false
  }

  /** `unassign`'s answer as intended: true exactly when every single
      unassignment succeeded. */
  function UnassignAnswerCorrected(count: nat, total: nat): (ok: bool)
    ensures ok <==> count == total
  {
    if count != total then false else true
  }

  /** The written answer reports failure although every role was detached. */
  lemma UnassignAnswerIgnoresSuccess(n: nat)
    ensures UnassignAnswerCorrected(n, n) && !UnassignAnswer(n, n)
  {
  }

  /** A user's own permission map replaced, then saved. */
  function WithPermissions(s: Store, id: nat, m: PermissionMap): (r: Store)
    requires Valid(s) && FindById(s.users, id).Some?
    ensures Valid(r) && r.roles == s.roles && r.nextId == s.nextId
    ensures FindById(r.users, id) == Some(UserOf(s, id).(permissions := m))
    ensures |r.users| == |s.users|
    ensures forall i :: 0 <= i < |s.users| ==> r.users[i] == if s.users[i].id == id then UserOf(r, id) else s.users[i]
  {
    StoredUser(s, id);
    SaveUser(s, UserOf(s, id).(permissions := m))
  }

  /** A role's permission map replaced, then saved. */
  function WithRolePermissions(s: Store, slug: string, m: PermissionMap): (r: Store)
    requires Valid(s) && slug in Slugs(s.roles)
    ensures Valid(r) && r.users == s.users && Slugs(r.roles) == Slugs(s.roles)
    ensures FindRoleBySlug(r.roles, slug) == Some(FindRoleBySlug(s.roles, slug).value.(permissions := m))
  {
    var role := FindRoleBySlug(s.roles, slug).value.(permissions := m);
    ReplaceRoleValid(s, role);
    ReplaceRoleFinds(s, role);
    s.(roles := ReplaceRole(s.roles, role))
  }

  /** `convertRoleSlugToName`: dots become spaces, then the first character is
      upper-cased. */
  function ConvertRoleSlugToName(slug: string): (r: string)
    ensures |r| == |slug|
    ensures '.' !in r
    ensures forall i :: 0 < i < |slug| ==> r[i] == if slug[i] == '.' then ' ' else slug[i]
    ensures slug != [] ==> r[0] == Upper(if slug[0] == '.' then ' ' else slug[0])
  {
    var spaced := ReplaceChar(slug, '.', ' ');
    var r := UpperFirst(spaced);
    assert forall i :: 0 < i < |r| ==> r[i] == spaced[i];
    assert slug != [] ==> r[0] != '.' by {
      if slug != [] { UpperKeepsNonLetters(spaced[0]); }
    }
    r
  }

  /** A dotted slug becomes a readable title. */
  lemma ConvertRoleSlugToNameExample()
    ensures ConvertRoleSlugToName("a.b") == "A b"
  {
    var spaced := ReplaceChar("a.b", '.', ' ');
    assert spaced == "a b";
    assert UpperFirst(spaced) == "A b";
  }

  /** PHP truthiness of a string argument: `null`, `""` and `"0"` are falsy. */
  predicate Truthy(name: Option<string>)
  {
    name.Some? && name.value != "" && name.value != "0"
  }

  /** `$name ?: $this->convertRoleSlugToName($role)`. */
  function RoleName(slug: string, name: Option<string>): (r: string)
    ensures Truthy(name) ==> r == name.value
    ensures !Truthy(name) ==> r == ConvertRoleSlugToName(slug)
  {
    if Truthy(name) then name.value else ConvertRoleSlugToName(slug)
  }

  /** The row `registerAndActivate` inserts: the next auto-increment id, the
      address, not a superadmin, no roles, no permissions, no profile. */
  function NewUser(s: Store, username: string): (u: User)
    ensures u.id == s.nextId && u.email == username && !u.isSuperadmin
    ensures u.roles == [] && u.permissions == [] && u.profile == map[]
  {
    Storage.User(s.nextId, username, false, [], [], map[])
  }

  /** The insert of `registerAndActivate`: the new row goes last under a
      fresh id, the counter moves on, and every earlier id finds what it
      found before. */
  function Register(s: Store, username: string): (r: Store)
    requires Valid(s) && FindByEmail(s.users, username).None?
    ensures Valid(r) && r.roles == s.roles && r.nextId == s.nextId + 1
    ensures r.users == s.users + [NewUser(s, username)]
    ensures FindById(s.users, s.nextId).None?
    ensures FindById(r.users, s.nextId) == Some(NewUser(s, username))
    ensures forall id :: 0 <= id < s.nextId ==> FindById(r.users, id) == FindById(s.users, id)
  {
    var u := NewUser(s, username);
    NextIdFresh(s);
    AddUserValid(s, u);
    var r := Store(s.users + [u], s.roles, s.nextId + 1);
    FindByIdOfMember(r, u);
    forall id | 0 <= id < s.nextId ensures FindById(r.users, id) == FindById(s.users, id) {
      FindByIdAppend(s.users, u, id);
    }
    r
  }

  /** Saving the just-registered row under an address the index accepts
      replaces that last row and nothing else. */
  lemma SaveRegistered(s: Store, username: string, v: User)
    requires Valid(s) && FindByEmail(s.users, username).None?
    requires v.id == s.nextId && v.roles == []
    requires AddressFreeFor(Register(s, username).users, v.id, v.email)
    ensures SaveUser(Register(s, username), v).users == s.users + [v]
    ensures FindByEmail(SaveUser(Register(s, username), v).users, v.email) == Some(v)
  {
    var t := SaveUser(Register(s, username), v);
    assert forall i :: 0 <= i < |s.users| ==> s.users[i].id != v.id;
    assert t.users == s.users + [v];
    FindByEmailOfMember(t, v);
  }

  /** The message of the exception the users table's unique index raises
      when a saved e-mail address belongs to another user; its exact text
      comes from the database and is not modelled. */
  const DuplicateAddress: string := "Duplicate e-mail address"

  // ---------------------------------------------------------------------
  // The authenticator
  // ---------------------------------------------------------------------

  class Authenticator {
    /** Sentinel's users and roles tables. */
    var store: Store
    /** The id of the user bound to the session, if any. */
    var current: Option<nat>
    /** The user ids whose login was recorded (`recordLogin`), in order. */
    var logins: seq<nat>
    /** The events fired, in order. */
    ghost var events: seq<Event>

    /** The tables are consistent, and the session is bound to no id or to
        one the auto-increment counter has already issued. */
    ghost predicate Valid()
      reads this
    {
      Storage.Valid(store) && (current.Some? ==> current.value < store.nextId)
    }

    constructor (s: Store)
      requires Storage.Valid(s)
      ensures Valid() && store == s && current == None && logins == [] && events == []
    {
      store := s;
      current := None;
      logins := [];
      events := [];
    }

    /** The session's user, as long as its row still exists. */
    function SessionUser(): (r: Option<User>)
      reads this
      ensures r.Some? <==> current.Some? && exists u :: u in store.users && u.id == current.value
      ensures r.Some? ==> r.value in store.users && r.value.id == current.value
    {
      if current.None? then None else FindById(store.users, current.value)
    }

    /** `check`. */
    function Check(): (r: bool)
      reads this
      ensures r <==> current.Some? && exists u :: u in store.users && u.id == current.value
    {
      SessionUser().Some?
    }

    /** `user`: the logged-in user, `None` for PHP's `false`. */
    function User(): (r: Option<User>)
      reads this
      ensures r.Some? <==> Check()
      ensures r.Some? ==> r.value in store.users && r.value.id == current.value
    {
      if !Check() then None else SessionUser()
    }

    /** `admin`. */
    function Admin(): (r: bool)
      reads this
      ensures r <==> Check() && User().value.isSuperadmin
    {
      match User()
      case None => false
      case Some(u) => EloquentUser.IsAdmin(u)
    }

    /** `hasRole`. */
    function HasRole(slug: string): (r: bool)
      reads this
      ensures r <==> Check() && slug in User().value.roles
    {
      match User()
      case None => false
      case Some(u) => EloquentUser.HasRole(u, slug)
    }

    /** `can`: false when nobody is logged in, true for a superadmin whatever
      is asked, otherwise the user's own answer. */
    function Can(arg: EloquentUser.OneOrMany, allowAny: bool, access: EloquentUser.Resolver): (r: bool)
      reads this
      ensures !Check() ==> !r
      ensures Admin() ==> r
      ensures Check() && !Admin() ==> r == EloquentUser.Can(User().value, arg, allowAny, access)
    {
      match User()
      case None => false
      case Some(u) => if EloquentUser.IsAdmin(u) then true else EloquentUser.Can(u, arg, allowAny, access)
    }

    /** `canAnyOf`. */
    function CanAnyOf(ps: seq<string>, access: EloquentUser.Resolver): (r: bool)
      reads this
      ensures r <==> Check() && (Admin() || exists p :: p in ps && access(User().value, p))
    {
      var r := Can(EloquentUser.Many(ps), true, access);
      assert Check() && !Admin() ==> r == EloquentUser.CanAnyOf(User().value, ps, access);
      r
    }

    /** A superadmin's answer does not depend on the permission resolver. */
    lemma AdminIgnoresResolver(arg: EloquentUser.OneOrMany, allowAny: bool, a: EloquentUser.Resolver, b: EloquentUser.Resolver)
      requires Admin()
      ensures Can(arg, allowAny, a) && Can(arg, allowAny, b)
    {
    }

    // ----- logins and logouts -----

    /** `login`: Sentinel's `authenticate` finds the user by e-mail and checks
        the password (`credentialsValid`); its `login` records the login. */
    method Login(username: string, credentialsValid: bool) returns (ok: bool)
      requires Valid()
      modifies this
      ensures Valid() && store == old(store)
      ensures ok <==> FindByEmail(store.users, username).Some? && credentialsValid
      ensures ok ==> (var id := FindByEmail(store.users, username).value.id;
        current == Some(id) && logins == old(logins) + [id] && events == old(events) + [LoggedIn(id, false, false)])
      ensures !ok ==> current == old(current) && logins == old(logins) && events == old(events)
    {
      var found := FindByEmail(store.users, username);
      if found.None? || !credentialsValid {
        return false;
      }
      var id := found.value.id;
      current := Some(id);
      logins := logins + [id];
      events := events + [LoggedIn(id, false, false)];
      return true;
    }

    /** `stateless`: the same check without persistence; the login is still
        recorded, and the event says stateless. */
    method Stateless(username: string, credentialsValid: bool) returns (ok: bool)
      requires Valid()
      modifies this
      ensures Valid() && store == old(store)
      ensures ok <==> FindByEmail(store.users, username).Some? && credentialsValid
      ensures ok ==> (var id := FindByEmail(store.users, username).value.id;
        current == Some(id) && logins == old(logins) + [id] && events == old(events) + [LoggedIn(id, true, false)])
      ensures !ok ==> current == old(current) && logins == old(logins) && events == old(events)
    {
      var found := FindByEmail(store.users, username);
      if found.None? || !credentialsValid {
        return false;
      }
      var id := found.value.id;
      current := Some(id);
      logins := logins + [id];
      events := events + [LoggedIn(id, true, false)];
      return true;
    }

    /** `forceUser`: logs the given user in without a credential check;
        `accepted` is the verdict of Sentinel's checkpoints. */
    method ForceUser(id: nat, accepted: bool) returns (ok: bool)
      requires Valid() && FindById(store.users, id).Some?
      modifies this
      ensures Valid() && store == old(store)
      ensures ok == accepted
      ensures ok ==> current == Some(id) && logins == old(logins) + [id] && events == old(events) + [LoggedIn(id, false, true)]
      ensures !ok ==> current == old(current) && logins == old(logins) && events == old(events)
    {
      if !accepted {
        return false;
      }
      current := Some(id);
      logins := logins + [id];
      events := events + [LoggedIn(id, false, true)];
      return true;
    }

    /** `forceUserStateless`: as `forceUser`, but not recorded as a login. */
    method ForceUserStateless(id: nat, accepted: bool) returns (ok: bool)
      requires Valid() && FindById(store.users, id).Some?
      modifies this
      ensures Valid() && store == old(store) && logins == old(logins)
      ensures ok == accepted
      ensures ok ==> current == Some(id) && events == old(events) + [LoggedIn(id, true, true)]
      ensures !ok ==> current == old(current) && events == old(events)
    {
      if !accepted {
        return false;
      }
      current := Some(id);
      events := events + [LoggedIn(id, true, true)];
      return true;
    }

    /** `logout`: fails when nobody is logged in or Sentinel's logout fails. */
    method Logout(loggedOut: bool) returns (ok: bool)
      requires Valid()
      modifies this
      ensures Valid() && store == old(store) && logins == old(logins)
      ensures ok <==> old(Check()) && loggedOut
      ensures ok ==> current == None && events == old(events) + [LoggedOut(old(current).value)]
      ensures !ok ==> current == old(current) && events == old(events)
    {
      var u := User();
      if u.None? || !loggedOut {
        return false;
      }
      current := None;
      events := events + [LoggedOut(u.value.id)];
      return true;
    }

    // ----- role membership -----

    /** `assignSingleRole`. */
    method AssignSingleRole(slug: string, id: nat) returns (ok: bool)
      requires Valid() && FindById(store.users, id).Some?
      modifies this`store
      ensures Valid() && store == AttachOne(old(store), id, slug)
      ensures ok <==> Assignable(old(store), id, slug)
    {
      var u := FindById(store.users, id).value;
      if EloquentUser.HasRole(u, slug) {
        return true;
      }
      if FindRoleBySlug(store.roles, slug).None? {
        return false;
      }
      store := AttachOne(store, id, slug);
      return true;
    }

    /** `assign`: true when every slug is held already or names a role. Roles
        attached before a failing slug stay attached; the event is fired only
        on success. */
    method Assign(roles: EloquentUser.OneOrMany, id: nat) returns (ok: bool)
      requires Valid() && FindById(store.users, id).Some?
      modifies this`store, this`events
      ensures Valid() && store == AttachAll(old(store), id, EloquentUser.Items(roles))
      ensures ok <==> forall slug :: slug in EloquentUser.Items(roles) ==> Assignable(old(store), id, slug)
      ensures events == old(events) + if ok then [PermissionsChanged(id)] else []
    {
      var count := AssignLoop(roles, id);
      if count != |EloquentUser.Items(roles)| {
        return false;
      }
      events := events + [PermissionsChanged(id)];
      return true;
    }

    /** The loop of `assign`, answering the number of single assignments that
        succeeded. */
    method AssignLoop(roles: EloquentUser.OneOrMany, id: nat) returns (count: nat)
      requires Valid() && FindById(store.users, id).Some?
      modifies this`store
      ensures Valid() && store == AttachAll(old(store), id, EloquentUser.Items(roles))
      ensures count <= |EloquentUser.Items(roles)|
      ensures count == |EloquentUser.Items(roles)| <==> AllAssignable(old(store), id, EloquentUser.Items(roles))
    {
      var list := EloquentUser.Items(roles);
      ghost var s0 := store;
      count := 0;
      var i := 0;
      while i < |list|
        invariant 0 <= i <= |list|
        invariant AssignInv(s0, id, list, i, store, count)
      {
        AssignInvStep(s0, id, list, i, store, count);
        var single := AssignSingleRole(list[i], id);
        if single {
          count := count + 1;
        }
        i := i + 1;
      }
      assert list[..i] == list;
    }

    /** `unassignSingleRole`. */
    method UnassignSingleRole(slug: string, id: nat) returns (ok: bool)
      requires Valid() && FindById(store.users, id).Some?
      modifies this`store
      ensures Valid() && store == DetachOne(old(store), id, slug)
      ensures ok <==> slug !in UserOf(old(store), id).roles || slug in Slugs(old(store).roles)
    {
      var u := FindById(store.users, id).value;
      if !EloquentUser.HasRole(u, slug) {
        return true;
      }
      if FindRoleBySlug(store.roles, slug).None? {
        return false;
      }
      store := DetachOne(store, id, slug);
      return true;
    }

    /** `unassign` as written: every listed role is detached and the event is
        fired, but the answer is false. */
    method Unassign(roles: EloquentUser.OneOrMany, id: nat) returns (ok: bool)
      requires Valid() && FindById(store.users, id).Some?
      modifies this`store, this`events
      ensures Valid() && store == DetachAll(old(store), id, EloquentUser.Items(roles))
      ensures forall slug :: slug in EloquentUser.Items(roles) ==> slug !in UserOf(store, id).roles
      ensures events == old(events) + [PermissionsChanged(id)]
      ensures !ok
    {
      var count := UnassignLoop(roles, id);
      var n := |EloquentUser.Items(roles)|;
      if count == n {
        events := events + [PermissionsChanged(id)];
      }
      ok := UnassignAnswer(count, n);
    }

    /** `unassign` as intended: the same effect, answering true when every
        single unassignment succeeded, which in a valid store is always. */
    method UnassignCorrected(roles: EloquentUser.OneOrMany, id: nat) returns (ok: bool)
      requires Valid() && FindById(store.users, id).Some?
      modifies this`store, this`events
      ensures Valid() && store == DetachAll(old(store), id, EloquentUser.Items(roles))
      ensures forall slug :: slug in EloquentUser.Items(roles) ==> slug !in UserOf(store, id).roles
      ensures events == old(events) + [PermissionsChanged(id)]
      ensures ok
    {
      var count := UnassignLoop(roles, id);
      var n := |EloquentUser.Items(roles)|;
      if count == n {
        events := events + [PermissionsChanged(id)];
      }
      ok := UnassignAnswerCorrected(count, n);
    }

    /** The loop both versions of `unassign` share, answering the number of
        single unassignments that succeeded. */
    method UnassignLoop(roles: EloquentUser.OneOrMany, id: nat) returns (count: nat)
      requires Valid() && FindById(store.users, id).Some?
      modifies this`store
      ensures Valid() && store == DetachAll(old(store), id, EloquentUser.Items(roles))
      ensures forall slug :: slug in EloquentUser.Items(roles) ==> slug !in UserOf(store, id).roles
      ensures count == |EloquentUser.Items(roles)|
    {
      var list := EloquentUser.Items(roles);
      ghost var s0 := store;
      count := 0;
      var i := 0;
      while i < |list|
        invariant 0 <= i <= |list|
        invariant Storage.Valid(store) && FindById(store.users, id).Some?
        invariant store == DetachAll(s0, id, list[..i])
        invariant count == i
      {
        StoredUser(store, id);
        DetachAllStep(s0, id, list, i);
        var single := UnassignSingleRole(list[i], id);
        assert single;
        count := count + 1;
        i := i + 1;
      }
      assert list[..i] == list;
      DetachAllEffect(s0, id, list);
    }

    // ----- user permissions -----

    /** `grant`: the answer is `save()`'s; the event only when saved. A key
        the user does not hold is added as granted; a stored value, a denial
        included, stays. */
    method Grant(permission: string, id: nat, saved: bool) returns (ok: bool)
      requires Valid() && FindById(store.users, id).Some?
      modifies this`store, this`events
      ensures Valid() && ok == saved
      ensures ok ==> store == WithPermissions(old(store), id, AddPermission(UserOf(old(store), id).permissions, permission))
      ensures ok ==> HasKey(UserOf(store, id).permissions, permission)
      ensures ok ==> (Granted(UserOf(store, id).permissions, permission) <==>
        Granted(UserOf(old(store), id).permissions, permission) || !HasKey(UserOf(old(store), id).permissions, permission))
      ensures !ok ==> store == old(store)
      ensures events == old(events) + if ok then [PermissionsChanged(id)] else []
    {
      var u := FindById(store.users, id).value;
      var m := AddPermission(u.permissions, permission);
      if !saved {
        return false;
      }
      store := WithPermissions(store, id, m);
      events := events + [PermissionsChanged(id)];
      return true;
    }

    /** `revoke`: the key's entry is gone, so it is no longer granted;
        otherwise as `grant`. */
    method Revoke(permission: string, id: nat, saved: bool) returns (ok: bool)
      requires Valid() && FindById(store.users, id).Some?
      modifies this`store, this`events
      ensures Valid() && ok == saved
      ensures ok ==> store == WithPermissions(old(store), id, RemovePermission(UserOf(old(store), id).permissions, permission))
      ensures ok ==> !HasKey(UserOf(store, id).permissions, permission) && !Granted(UserOf(store, id).permissions, permission)
      ensures !ok ==> store == old(store)
      ensures events == old(events) + if ok then [PermissionsChanged(id)] else []
    {
      var u := FindById(store.users, id).value;
      var m := RemovePermission(u.permissions, permission);
      if !saved {
        return false;
      }
      store := WithPermissions(store, id, m);
      events := events + [PermissionsChanged(id)];
      return true;
    }

    /** The `foreach ... addPermission` / `removePermission` loop on one map. */
    static method SetEach(m: PermissionMap, ps: seq<string>, v: bool) returns (r: PermissionMap)
      ensures r == SetAll(m, ps, v)
      ensures v ==> forall k :: k in ps ==> HasKey(r, k) && (Granted(r, k) <==> Granted(m, k) || !HasKey(m, k))
      ensures !v ==> forall k :: k in ps ==> !HasKey(r, k) && !Granted(r, k)
      ensures forall k :: k !in ps ==> (Granted(r, k) <==> Granted(m, k)) && (HasKey(r, k) <==> HasKey(m, k))
    {
      r := m;
      var i := 0;
      while i < |ps|
        invariant 0 <= i <= |ps|
        invariant r == SetAll(m, ps[..i], v)
      {
        assert ps[..i + 1][..i] == ps[..i];
        r := Change(r, ps[i], v);
        i := i + 1;
      }
      assert ps[..i] == ps;
      SetAllEffect(m, ps, v);
    }

    /** `grantMany`. */
    method GrantMany(permissions: seq<string>, id: nat, saved: bool) returns (ok: bool)
      requires Valid() && FindById(store.users, id).Some?
      modifies this`store, this`events
      ensures Valid() && ok == saved
      ensures ok ==> store == WithPermissions(old(store), id, SetAll(UserOf(old(store), id).permissions, permissions, true))
      ensures ok ==> forall k :: k in permissions ==>
        HasKey(UserOf(store, id).permissions, k) &&
        (Granted(UserOf(store, id).permissions, k) <==>
          Granted(UserOf(old(store), id).permissions, k) || !HasKey(UserOf(old(store), id).permissions, k))
      ensures ok ==> forall k :: k !in permissions ==>
        (Granted(UserOf(store, id).permissions, k) <==> Granted(UserOf(old(store), id).permissions, k))
      ensures !ok ==> store == old(store)
      ensures events == old(events) + if ok then [PermissionsChanged(id)] else []
    {
      var u := FindById(store.users, id).value;
      var m := SetEach(u.permissions, permissions, true);
      if !saved {
        return false;
      }
      store := WithPermissions(store, id, m);
      events := events + [PermissionsChanged(id)];
      return true;
    }

    /** `revokeMany`. */
    method RevokeMany(permissions: seq<string>, id: nat, saved: bool) returns (ok: bool)
      requires Valid() && FindById(store.users, id).Some?
      modifies this`store, this`events
      ensures Valid() && ok == saved
      ensures ok ==> store == WithPermissions(old(store), id, SetAll(UserOf(old(store), id).permissions, permissions, false))
      ensures ok ==> forall k :: k in permissions ==> !HasKey(UserOf(store, id).permissions, k) && !Granted(UserOf(store, id).permissions, k)
      ensures ok ==> forall k :: k !in permissions ==>
        (Granted(UserOf(store, id).permissions, k) <==> Granted(UserOf(old(store), id).permissions, k))
      ensures !ok ==> store == old(store)
      ensures events == old(events) + if ok then [PermissionsChanged(id)] else []
    {
      var u := FindById(store.users, id).value;
      var m := SetEach(u.permissions, permissions, false);
      if !saved {
        return false;
      }
      store := WithPermissions(store, id, m);
      events := events + [PermissionsChanged(id)];
      return true;
    }

    // ----- roles -----

    /** `createRole`: false when the slug is taken; otherwise one new role
        with no permissions, named `name` or, when that is falsy, after the
        slug. */
    method CreateRole(slug: string, name: Option<string>) returns (ok: bool)
      requires Valid()
      modifies this`store, this`events
      ensures Valid() && store.users == old(store).users
      ensures ok <==> slug !in Slugs(old(store).roles)
      ensures ok ==> store.roles == old(store).roles + [Storage.Role(slug, RoleName(slug, name), [])]
      ensures ok ==> FindRoleBySlug(store.roles, slug) == Some(Storage.Role(slug, RoleName(slug, name), []))
      ensures !ok ==> store == old(store)
      ensures events == old(events) + if ok then [RolesChanged] else []
    {
      if FindRoleBySlug(store.roles, slug).Some? {
        return false;
      }
      var role := Storage.Role(slug, RoleName(slug, name), []);
      AddRoleValid(store, role);
      store := store.(roles := store.roles + [role]);
      FindRoleOfMember(store, role);
      events := events + [RolesChanged];
      return true;
    }

    /** `removeRole`: false for an unknown slug; otherwise the role and every
        membership of it are gone. */
    method RemoveRole(slug: string) returns (ok: bool)
      requires Valid()
      modifies this`store, this`events
      ensures Valid()
      ensures ok <==> slug in Slugs(old(store).roles)
      ensures ok ==> store == Storage.Store(DetachEverywhere(old(store).users, slug), Storage.RemoveRole(old(store).roles, slug), old(store).nextId)
      ensures ok ==> FindRoleBySlug(store.roles, slug).None? && Slugs(store.roles) == Slugs(old(store).roles) - {slug}
      ensures ok ==> forall u :: u in store.users ==> slug !in u.roles
      ensures !ok ==> store == old(store)
      ensures events == old(events) + if ok then [RolesChanged] else []
    {
      if FindRoleBySlug(store.roles, slug).None? {
        return false;
      }
      RemoveRoleValid(store, slug);
      RemoveRoleSlugs(store.roles, slug);
      store := Storage.Store(DetachEverywhere(store.users, slug), Storage.RemoveRole(store.roles, slug), store.nextId);
      events := events + [RolesChanged];
      return true;
    }

    /** `grantToRole`: false for an unknown slug or a failed `save()`;
        otherwise every listed key is held by the role, granted unless the
        role already denied it. */
    method GrantToRole(permissions: EloquentUser.OneOrMany, slug: string, saved: bool) returns (ok: bool)
      requires Valid()
      modifies this`store, this`events
      ensures Valid()
      ensures ok <==> slug in Slugs(old(store).roles) && saved
      ensures ok ==> (var role := FindRoleBySlug(old(store).roles, slug).value;
        store == WithRolePermissions(old(store), slug, SetAll(role.permissions, EloquentUser.Items(permissions), true)))
      ensures ok ==> forall k :: k in EloquentUser.Items(permissions) ==>
        HasKey(FindRoleBySlug(store.roles, slug).value.permissions, k) &&
        (Granted(FindRoleBySlug(store.roles, slug).value.permissions, k) <==>
          Granted(FindRoleBySlug(old(store).roles, slug).value.permissions, k) || !HasKey(FindRoleBySlug(old(store).roles, slug).value.permissions, k))
      ensures !ok ==> store == old(store)
      ensures events == old(events) + if ok then [RolesChanged] else []
    {
      var role := FindRoleBySlug(store.roles, slug);
      if role.None? {
        return false;
      }
      var m := SetEach(role.value.permissions, EloquentUser.Items(permissions), true);
      if !saved {
        return false;
      }
      store := WithRolePermissions(store, slug, m);
      events := events + [RolesChanged];
      return true;
    }

    /** `revokeFromRole`: as `grantToRole`, with every listed key removed
        from the role. */
    method RevokeFromRole(permissions: EloquentUser.OneOrMany, slug: string, saved: bool) returns (ok: bool)
      requires Valid()
      modifies this`store, this`events
      ensures Valid()
      ensures ok <==> slug in Slugs(old(store).roles) && saved
      ensures ok ==> (var role := FindRoleBySlug(old(store).roles, slug).value;
        store == WithRolePermissions(old(store), slug, SetAll(role.permissions, EloquentUser.Items(permissions), false)))
      ensures ok ==> forall k :: k in EloquentUser.Items(permissions) ==>
        !HasKey(FindRoleBySlug(store.roles, slug).value.permissions, k) && !Granted(FindRoleBySlug(store.roles, slug).value.permissions, k)
      ensures !ok ==> store == old(store)
      ensures events == old(events) + if ok then [RolesChanged] else []
    {
      var role := FindRoleBySlug(store.roles, slug);
      if role.None? {
        return false;
      }
      var m := SetEach(role.value.permissions, EloquentUser.Items(permissions), false);
      if !saved {
        return false;
      }
      store := WithRolePermissions(store, slug, m);
      events := events + [RolesChanged];
      return true;
    }

    // ----- users -----

    /** `createUser`: Sentinel's `registerAndActivate` (`registered` is its
        verdict; a taken e-mail address is refused by the table) inserts an
        active user under the next auto-increment id, with no roles and no
        permissions; `update($data)` then fills the fillable columns and
        saves (`updated` is the answer of `save()`, which is ignored). The
        returned object carries the filled attributes either way. A failure
        is the exception's message: the package's own, or the unique index's
        when the filled address belongs to another user. */
    method CreateUser(username: string, registered: bool, data: EloquentUser.Attributes, updated: bool) returns (r: Result<User, string>)
      requires Valid()
      modifies this`store
      ensures Valid() && store.roles == old(store).roles
      ensures SessionUser() == old(SessionUser())
      ensures !registered || FindByEmail(old(store).users, username).Some? ==>
        store == old(store) && r == Failure("Failed to create user '" + username + "'")
      ensures registered && FindByEmail(old(store).users, username).None? ==>
        (var u := NewUser(old(store), username);
         var v := EloquentUser.Fill(u, data);
         var free := AddressFreeFor(old(store).users + [u], u.id, v.email);
         && FindById(old(store).users, u.id).None?
         && store.nextId == old(store).nextId + 1
         && store.users == old(store).users + [if updated && free then v else u]
         && r == if updated && !free then Failure(DuplicateAddress) else Success(v))
      ensures r.Success? ==> r.value.id == old(store).nextId && !r.value.isSuperadmin && r.value.roles == []
      ensures r.Success? && updated ==> FindByEmail(store.users, r.value.email) == Some(r.value)
    {
      if !registered || FindByEmail(store.users, username).Some? {
        return Failure("Failed to create user '" + username + "'");
      }
      var u := NewUser(store, username);
      ghost var s0 := store;
      store := Register(store, username);
      var v := EloquentUser.Fill(u, data);
      if !updated {
        return Success(v);
      }
      if !AddressFreeFor(store.users, u.id, v.email) {
        return Failure(DuplicateAddress);
      }
      SaveRegistered(s0, username, v);
      store := SaveUser(store, v);
      return Success(v);
    }

    /** `deleteUser`: false for an unknown name and for a superadmin;
        otherwise the answer of `delete()`, which removes the row. */
    method DeleteUser(username: string, deleted: bool) returns (ok: bool)
      requires Valid()
      modifies this`store
      ensures Valid() && store.roles == old(store).roles
      ensures ok <==> FindByEmail(old(store).users, username).Some? && !FindByEmail(old(store).users, username).value.isSuperadmin && deleted
      ensures ok ==> FindByEmail(store.users, username).None?
      ensures ok ==> forall u :: u in store.users <==> u in old(store).users && u.email != username
      ensures ok && old(SessionUser()).Some? && old(SessionUser()).value.email == username ==> !Check()
      ensures store.nextId == old(store).nextId
      ensures !ok ==> store == old(store)
    {
      var found := FindByEmail(store.users, username);
      if found.None? {
        return false;
      }
      var u := found.value;
      if EloquentUser.IsAdmin(u) {
        return false;
      }
      if !deleted {
        return false;
      }
      ghost var prev := store;
      RemoveUserValid(store, u.id);
      RemoveUserMembers(store, u.id);
      store := store.(users := Storage.RemoveUser(store.users, u.id));
      forall v | v in prev.users ensures v.id == u.id <==> v.email == username {
        FindByIdOfMember(prev, v);
        FindByEmailOfMember(prev, v);
      }
      return true;
    }

    /** `updatePassword`: false for an unknown name, otherwise the answer of
        Sentinel's `update`. Passwords are not part of the store. */
    method UpdatePassword(username: string, updated: bool) returns (ok: bool)
      requires Valid()
      ensures ok <==> FindByEmail(store.users, username).Some? && updated
    {
      var found := FindByEmail(store.users, username);
      if found.None? {
        return false;
      }
      return updated;
    }

    /** `updateUser`: false for an unknown name; otherwise the fillable
        columns of `data` are filled in and the answer is that of `save()`.
        A saved address that belongs to another user is refused by the
        unique index, whose exception is the failure. */
    method UpdateUser(username: string, data: EloquentUser.Attributes, saved: bool) returns (r: Result<bool, string>)
      requires Valid()
      modifies this`store
      ensures Valid() && store.roles == old(store).roles && store.nextId == old(store).nextId
      ensures FindByEmail(old(store).users, username).None? ==> r == Success(false) && store == old(store)
      ensures FindByEmail(old(store).users, username).Some? ==>
        (var v := EloquentUser.Fill(FindByEmail(old(store).users, username).value, data);
         var free := AddressFreeFor(old(store).users, v.id, v.email);
         && (!saved ==> r == Success(false) && store == old(store))
         && (saved && !free ==> r == Failure(DuplicateAddress) && store == old(store))
         && (saved && free ==> r == Success(true) && store == SaveUser(old(store), v)))
      ensures r == Success(true) ==>
        (var v := EloquentUser.Fill(FindByEmail(old(store).users, username).value, data);
         && FindByEmail(store.users, v.email) == Some(v)
         && (v.email != username ==> FindByEmail(store.users, username).None?))
    {
      var found := FindByEmail(store.users, username);
      if found.None? {
        return Success(false);
      }
      var u := found.value;
      var v := EloquentUser.Fill(u, data);
      if !saved {
        return Success(false);
      }
      if !AddressFreeFor(store.users, v.id, v.email) {
        return Failure(DuplicateAddress);
      }
      FindByIdOfMember(store, u);
      StoredUser(store, u.id);
      ghost var prev := store;
      store := SaveUser(store, v);
      FindByEmailOfMember(store, v);
      if v.email != username {
        forall w | w in store.users ensures w.email != username {
          var i :| 0 <= i < |store.users| && store.users[i] == w;
          if prev.users[i].id != u.id {
            assert w == prev.users[i];
            FindByEmailOfMember(prev, w);
          }
        }
      }
      return Success(true);
    }
  }
}

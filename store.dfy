/** The persisted state behind Sentinel: the users table with each user's own
    permission map and role memberships, and the roles table. Rows keep their
    insertion order. */
module Storage {
  import opened Options
  import opened Permissions
  import Sorting

  datatype Role = Role(slug: string, name: string, permissions: PermissionMap)

  /** A CMS user. `roles` holds the slugs of the attached roles in the order
      they were attached; `profile` the extra columns (`first_name`, ...). */
  datatype User = User(
    id: nat,
    email: string,
    isSuperadmin: bool,
    permissions: PermissionMap,
    roles: seq<string>,
    profile: map<string, string>)

  /** The users and roles tables; `nextId` is the users table's
      auto-increment counter, the id the next inserted row receives. */
  datatype Store = Store(users: seq<User>, roles: seq<Role>, nextId: nat)

  function Slugs(roles: seq<Role>): (r: set<string>)
    ensures forall slug :: slug in r <==> exists i :: 0 <= i < |roles| && roles[i].slug == slug
  {
    set i | 0 <= i < |roles| :: roles[i].slug
  }

  /** No two role rows share a slug. */
  ghost predicate UniqueSlugs(roles: seq<Role>)
  {
    forall i, j :: 0 <= i < |roles| && 0 <= j < |roles| && roles[i].slug == roles[j].slug ==> i == j
  }

  /** No two user rows share an id. */
  ghost predicate UniqueIds(users: seq<User>)
  {
    forall i, j :: 0 <= i < |users| && 0 <= j < |users| && users[i].id == users[j].id ==> i == j
  }

  /** No two user rows share an e-mail address. */
  ghost predicate UniqueEmails(users: seq<User>)
  {
    forall i, j :: 0 <= i < |users| && 0 <= j < |users| && users[i].email == users[j].email ==> i == j
  }

  /** Every stored id was handed out before `next`. */
  ghost predicate IdsBelow(users: seq<User>, next: nat)
  {
    forall u :: u in users ==> u.id < next
  }

  /** Every user holds each role at most once. */
  ghost predicate MembershipsDistinct(users: seq<User>)
  {
    forall i :: 0 <= i < |users| ==> Sorting.Distinct(users[i].roles)
  }

  /** Every role a user holds is one of `known`. */
  ghost predicate MembershipsKnown(users: seq<User>, known: set<string>)
  {
    forall i :: 0 <= i < |users| ==> forall r :: r in users[i].roles ==> r in known
  }

  /** The table invariants: ids, e-mail addresses and slugs are unique; every
      id lies below the auto-increment counter; a user holds each role at most
      once, and only roles that exist. */
  ghost predicate Valid(s: Store)
  {
    && UniqueIds(s.users)
    && IdsBelow(s.users, s.nextId)
    && UniqueEmails(s.users)
    && UniqueSlugs(s.roles)
    && MembershipsDistinct(s.users)
    && MembershipsKnown(s.users, Slugs(s.roles))
  }

  /** `findRoleBySlug`. */
  function FindRoleBySlug(roles: seq<Role>, slug: string): (r: Option<Role>)
    ensures r.Some? ==> r.value in roles && r.value.slug == slug
    ensures r.None? <==> slug !in Slugs(roles)
  {
    if roles == [] then None
    else if roles[0].slug == slug then Some(roles[0])
    else
      var r := FindRoleBySlug(roles[1..], slug);
      assert slug in Slugs(roles[1..]) ==> slug in Slugs(roles) by {
        if slug in Slugs(roles[1..]) {
          var i :| 0 <= i < |roles[1..]| && roles[1..][i].slug == slug;
          assert roles[i + 1] == roles[1..][i];
        }
      }
      assert slug in Slugs(roles) ==> slug in Slugs(roles[1..]) by {
        if slug in Slugs(roles) {
          var i :| 0 <= i < |roles| && roles[i].slug == slug;
          assert i != 0;
          assert roles[1..][i - 1] == roles[i];
        }
      }
      r
  }

  /** `findById`. */
  function FindById(users: seq<User>, id: int): (r: Option<User>)
    ensures r.Some? ==> r.value in users && r.value.id == id
    ensures r.None? ==> forall u :: u in users ==> u.id != id
  {
    if users == [] then None
    else if users[0].id == id then Some(users[0])
    else FindById(users[1..], id)
  }

  /** `findByCredentials(['email' => email])`: the lookup by login name. */
  function FindByEmail(users: seq<User>, email: string): (r: Option<User>)
    ensures r.Some? ==> r.value in users && r.value.email == email
    ensures r.None? ==> forall u :: u in users ==> u.email != email
  {
    if users == [] then None
    else if users[0].email == email then Some(users[0])
    else FindByEmail(users[1..], email)
  }

  /** With unique ids, looking a stored user up by id gives that user back. */
  lemma {:induction false} FindByIdOfMember(s: Store, u: User)
    requires UniqueIds(s.users) && u in s.users
    ensures FindById(s.users, u.id) == Some(u)
  {
    var r := FindById(s.users, u.id);
    var i :| 0 <= i < |s.users| && s.users[i] == u;
    var j :| 0 <= j < |s.users| && s.users[j] == r.value;
    assert i == j;
  }

  /** With unique e-mail addresses, looking a stored user up by e-mail gives
      that user back. */
  lemma {:induction false} FindByEmailOfMember(s: Store, u: User)
    requires UniqueEmails(s.users) && u in s.users
    ensures FindByEmail(s.users, u.email) == Some(u)
  {
    var r := FindByEmail(s.users, u.email);
    var i :| 0 <= i < |s.users| && s.users[i] == u;
    var j :| 0 <= j < |s.users| && s.users[j] == r.value;
    assert i == j;
  }

  /** With unique slugs, looking a stored role up by slug gives that role back. */
  lemma {:induction false} FindRoleOfMember(s: Store, role: Role)
    requires UniqueSlugs(s.roles) && role in s.roles
    ensures FindRoleBySlug(s.roles, role.slug) == Some(role)
  {
    var r := FindRoleBySlug(s.roles, role.slug);
    var i :| 0 <= i < |s.roles| && s.roles[i] == role;
    var j :| 0 <= j < |s.roles| && s.roles[j] == r.value;
    assert i == j;
  }

  /** Saves `u` over the stored row with the same id. */
  function ReplaceUser(users: seq<User>, u: User): (r: seq<User>)
    ensures |r| == |users|
    ensures forall i :: 0 <= i < |users| ==> r[i] == if users[i].id == u.id then u else users[i]
  {
    seq(|users|, i requires 0 <= i < |users| => if users[i].id == u.id then u else users[i])
  }

  /** No row other than the one with id `id` has the address `email` (the
      unique index on `email` accepts it for that row). */
  predicate AddressFreeFor(users: seq<User>, id: nat, email: string)
  {
    FindByEmail(users, email).None? || FindByEmail(users, email).value.id == id
  }

  /** A stored row's own address is free for it. */
  lemma OwnAddressFree(s: Store, u: User)
    requires Valid(s) && u in s.users
    ensures AddressFreeFor(s.users, u.id, u.email)
  {
    FindByEmailOfMember(s, u);
  }

  /** Under unique addresses, an address is free for a row exactly when no
      other row carries it. */
  lemma {:induction false} AddressFreeForMeans(s: Store, id: nat, email: string)
    requires Valid(s)
    ensures AddressFreeFor(s.users, id, email) <==> forall v :: v in s.users && v.email == email ==> v.id == id
  {
    if AddressFreeFor(s.users, id, email) {
      forall v | v in s.users && v.email == email ensures v.id == id {
        FindByEmailOfMember(s, v);
      }
    }
  }

  /** Saving a user row that keeps its id, carries an address no other row
      has, and holds distinct existing roles, keeps the store valid. */
  lemma ReplaceUserValid(s: Store, u: User)
    requires Valid(s)
    requires FindById(s.users, u.id).Some? && AddressFreeFor(s.users, u.id, u.email)
    requires Sorting.Distinct(u.roles) && forall r :: r in u.roles ==> r in Slugs(s.roles)
    ensures Valid(s.(users := ReplaceUser(s.users, u)))
  {
    var users := ReplaceUser(s.users, u);
    forall i, j | 0 <= i < j < |users| ensures users[i].email != users[j].email {
      if s.users[i].id == u.id && s.users[j].id != u.id {
        FindByEmailOfMember(s, s.users[j]);
      } else if s.users[j].id == u.id && s.users[i].id != u.id {
        FindByEmailOfMember(s, s.users[i]);
      }
    }
    forall v | v in users ensures v.id < s.nextId {
      var i :| 0 <= i < |users| && users[i] == v;
      assert s.users[i] in s.users;
    }
  }

  /** After saving `u` over its row, the lookup by its id gives `u`. */
  lemma {:induction false} ReplaceUserFinds(s: Store, u: User)
    requires FindById(s.users, u.id).Some?
    ensures FindById(ReplaceUser(s.users, u), u.id) == Some(u)
  {
    var users := ReplaceUser(s.users, u);
    var prev := FindById(s.users, u.id).value;
    var k :| 0 <= k < |s.users| && s.users[k] == prev;
    assert users[k] == u;
    var r := FindById(users, u.id);
    var j :| 0 <= j < |users| && users[j] == r.value;
  }

  /** Saves `role` over the stored row with the same slug. */
  function ReplaceRole(roles: seq<Role>, role: Role): (r: seq<Role>)
    ensures |r| == |roles|
    ensures forall i :: 0 <= i < |roles| ==> r[i] == if roles[i].slug == role.slug then role else roles[i]
    ensures Slugs(r) == Slugs(roles)
  {
    seq(|roles|, i requires 0 <= i < |roles| => if roles[i].slug == role.slug then role else roles[i])
  }

  /** After saving `role` over its row, the lookup by its slug gives `role`. */
  lemma {:induction false} ReplaceRoleFinds(s: Store, role: Role)
    requires Valid(s) && role.slug in Slugs(s.roles)
    ensures FindRoleBySlug(ReplaceRole(s.roles, role), role.slug) == Some(role)
  {
    var roles := ReplaceRole(s.roles, role);
    var k :| 0 <= k < |s.roles| && s.roles[k].slug == role.slug;
    assert roles[k] == role;
    var r := FindRoleBySlug(roles, role.slug);
    var j :| 0 <= j < |roles| && roles[j] == r.value;
  }

  /** Position of the first user row with that id, or -1. */
  function UserIndex(users: seq<User>, id: int): (k: int)
    ensures -1 <= k < |users|
    ensures k >= 0 ==> users[k].id == id
    ensures k < 0 ==> forall i :: 0 <= i < |users| ==> users[i].id != id
  {
    if users == [] then -1
    else if users[0].id == id then 0
    else
      var k := UserIndex(users[1..], id);
      assert forall i :: 0 < i < |users| ==> users[i] == users[1..][i - 1];
      if k < 0 then -1 else k + 1
  }

  /** Position of the role row with that slug, or -1. */
  function RoleIndex(roles: seq<Role>, slug: string): (k: int)
    ensures -1 <= k < |roles|
    ensures k >= 0 ==> roles[k].slug == slug
    ensures k < 0 ==> slug !in Slugs(roles)
  {
    if roles == [] then -1
    else if roles[0].slug == slug then 0
    else
      var k := RoleIndex(roles[1..], slug);
      assert forall i :: 0 < i < |roles| ==> roles[i] == roles[1..][i - 1];
      if k < 0 then -1 else k + 1
  }

  /** Deletes the user row with that id. */
  function RemoveUser(users: seq<User>, id: nat): (r: seq<User>)
    ensures var k := UserIndex(users, id);
      && (k < 0 ==> r == users)
      && (k >= 0 ==> |r| == |users| - 1 && forall i :: 0 <= i < |r| ==> r[i] == users[if i < k then i else i + 1])
  {
    var k := UserIndex(users, id);
    if k < 0 then users else users[..k] + users[k + 1..]
  }

  /** Deleting a user keeps the store valid. */
  lemma RemoveUserValid(s: Store, id: nat)
    requires Valid(s)
    ensures Valid(s.(users := RemoveUser(s.users, id)))
  {
    var k := UserIndex(s.users, id);
    var users := RemoveUser(s.users, id);
    if k >= 0 {
      forall i | 0 <= i < |users| ensures users[i] == s.users[if i < k then i else i + 1] {}
      forall v | v in users ensures v.id < s.nextId {
        var i :| 0 <= i < |users| && users[i] == v;
        assert s.users[if i < k then i else i + 1] in s.users;
      }
      forall i, j | 0 <= i < |users| && 0 <= j < |users| && (users[i].id == users[j].id || users[i].email == users[j].email)
        ensures i == j
      {
        var a := if i < k then i else i + 1;
        var b := if j < k then j else j + 1;
        assert users[i] == s.users[a] && users[j] == s.users[b];
      }
      forall i | 0 <= i < |users|
        ensures Sorting.Distinct(users[i].roles) && forall r :: r in users[i].roles ==> r in Slugs(s.roles)
      {
        var a := if i < k then i else i + 1;
        assert users[i] == s.users[a];
      }
    }
  }

  /** After deleting the user with that id, exactly the other users remain. */
  lemma RemoveUserMembers(s: Store, id: nat)
    requires UniqueIds(s.users)
    ensures forall u :: u in RemoveUser(s.users, id) <==> u in s.users && u.id != id
  {
    var k := UserIndex(s.users, id);
    var users := RemoveUser(s.users, id);
    if k >= 0 {
      forall u | u in users ensures u in s.users && u.id != id {
        var i :| 0 <= i < |users| && users[i] == u;
        var a := if i < k then i else i + 1;
        assert users[i] == s.users[a];
        assert a != k;
      }
      forall u | u in s.users && u.id != id ensures u in users {
        var j :| 0 <= j < |s.users| && s.users[j] == u;
        assert j != k;
        assert users[if j < k then j else j - 1] == u;
      }
    }
  }

  /** Deletes the role row with that slug. */
  function RemoveRole(roles: seq<Role>, slug: string): (r: seq<Role>)
    ensures var k := RoleIndex(roles, slug);
      && (k < 0 ==> r == roles)
      && (k >= 0 ==> |r| == |roles| - 1 && forall i :: 0 <= i < |r| ==> r[i] == roles[if i < k then i else i + 1])
  {
    var k := RoleIndex(roles, slug);
    if k < 0 then roles else roles[..k] + roles[k + 1..]
  }

  /** `s` without any occurrence of `x`, order kept. */
  function Without(s: seq<string>, x: string): (r: seq<string>)
    ensures forall y :: y in r <==> y in s && y != x
    ensures x !in s ==> r == s
  {
    if s == [] then [] else (if s[0] == x then [] else [s[0]]) + Without(s[1..], x)
  }

  lemma {:induction false} WithoutDistinct(s: seq<string>, x: string)
    requires Sorting.Distinct(s)
    ensures Sorting.Distinct(Without(s, x))
    decreases |s|
  {
    if s != [] {
      assert Sorting.Distinct(s[1..]) by {
        forall i, j | 0 <= i < j < |s[1..]| ensures s[1..][i] != s[1..][j] {
          assert s[1..][i] == s[i + 1] && s[1..][j] == s[j + 1];
        }
      }
      assert s[0] !in s[1..] by {
        forall j | 0 <= j < |s[1..]| ensures s[1..][j] != s[0] { assert s[1..][j] == s[j + 1]; }
      }
      WithoutDistinct(s[1..], x);
    }
  }

  /** Deleting a role also detaches it from every user (Sentinel's role
      deletion clears the membership rows). */
  function DetachEverywhere(users: seq<User>, slug: string): (r: seq<User>)
    ensures |r| == |users|
    ensures forall i :: 0 <= i < |users| ==> r[i] == users[i].(roles := Without(users[i].roles, slug))
  {
    seq(|users|, i requires 0 <= i < |users| => users[i].(roles := Without(users[i].roles, slug)))
  }

  /** After deleting the role with that slug, exactly the other slugs remain. */
  lemma RemoveRoleSlugs(roles: seq<Role>, slug: string)
    requires UniqueSlugs(roles)
    ensures Slugs(RemoveRole(roles, slug)) == Slugs(roles) - {slug}
    ensures UniqueSlugs(RemoveRole(roles, slug))
  {
    RemoveRoleSlugSet(roles, slug);
    RemoveRoleUnique(roles, slug);
  }

  lemma RemoveRoleSlugSet(roles: seq<Role>, slug: string)
    requires UniqueSlugs(roles)
    ensures Slugs(RemoveRole(roles, slug)) == Slugs(roles) - {slug}
  {
    RemoveRoleSlugsBelow(roles, slug);
    RemoveRoleSlugsAbove(roles, slug);
  }

  lemma RemoveRoleSlugsBelow(roles: seq<Role>, slug: string)
    requires UniqueSlugs(roles)
    ensures forall x :: x in Slugs(RemoveRole(roles, slug)) ==> x in Slugs(roles) && x != slug
  {
    var k := RoleIndex(roles, slug);
    var r := RemoveRole(roles, slug);
    forall x | x in Slugs(r) ensures x in Slugs(roles) && x != slug {
      var i :| 0 <= i < |r| && r[i].slug == x;
      if k >= 0 {
        var a := if i < k then i else i + 1;
        assert r[i] == roles[a];
        assert a != k;
      } else {
        assert r[i] == roles[i];
      }
    }
  }

  lemma RemoveRoleSlugsAbove(roles: seq<Role>, slug: string)
    ensures forall x :: x in Slugs(roles) && x != slug ==> x in Slugs(RemoveRole(roles, slug))
  {
    var k := RoleIndex(roles, slug);
    var r := RemoveRole(roles, slug);
    forall x | x in Slugs(roles) && x != slug ensures x in Slugs(r) {
      var j :| 0 <= j < |roles| && roles[j].slug == x;
      if k >= 0 {
        assert j != k;
        assert r[if j < k then j else j - 1].slug == x;
      } else {
        assert r[j].slug == x;
      }
    }
  }

  lemma RemoveRoleUnique(roles: seq<Role>, slug: string)
    requires UniqueSlugs(roles)
    ensures UniqueSlugs(RemoveRole(roles, slug))
  {
    var k := RoleIndex(roles, slug);
    var r := RemoveRole(roles, slug);
    if k >= 0 {
      forall i, j | 0 <= i < |r| && 0 <= j < |r| && r[i].slug == r[j].slug ensures i == j {
        var a := if i < k then i else i + 1;
        var b := if j < k then j else j + 1;
        assert r[i] == roles[a] && r[j] == roles[b];
      }
    }
  }

  /** Clearing a membership changes no id and no e-mail address. */
  lemma DetachEverywhereUnique(users: seq<User>, slug: string)
    requires UniqueIds(users) && UniqueEmails(users)
    ensures UniqueIds(DetachEverywhere(users, slug)) && UniqueEmails(DetachEverywhere(users, slug))
  {
    var r := DetachEverywhere(users, slug);
    forall i | 0 <= i < |r| ensures r[i].id == users[i].id && r[i].email == users[i].email {}
  }

  /** Clearing a membership changes no id. */
  lemma DetachEverywhereIdsBelow(users: seq<User>, slug: string, next: nat)
    requires IdsBelow(users, next)
    ensures IdsBelow(DetachEverywhere(users, slug), next)
  {
    var r := DetachEverywhere(users, slug);
    forall v | v in r ensures v.id < next {
      var i :| 0 <= i < |r| && r[i] == v;
      assert users[i] in users;
    }
  }

  /** Clearing a membership keeps memberships distinct, and no one holds the
      cleared slug any more. */
  lemma DetachEverywhereMemberships(users: seq<User>, known: set<string>, slug: string)
    requires MembershipsDistinct(users) && MembershipsKnown(users, known)
    ensures MembershipsDistinct(DetachEverywhere(users, slug))
    ensures MembershipsKnown(DetachEverywhere(users, slug), known - {slug})
  {
    var r := DetachEverywhere(users, slug);
    forall i | 0 <= i < |r|
      ensures Sorting.Distinct(r[i].roles)
      ensures forall x :: x in r[i].roles ==> x in known - {slug}
    {
      WithoutDistinct(users[i].roles, slug);
    }
  }

  /** Removing a role together with all its memberships keeps the store valid. */
  lemma RemoveRoleValid(s: Store, slug: string)
    requires Valid(s)
    ensures Valid(Store(DetachEverywhere(s.users, slug), RemoveRole(s.roles, slug), s.nextId))
  {
    RemoveRoleSlugs(s.roles, slug);
    DetachEverywhereUnique(s.users, slug);
    DetachEverywhereIdsBelow(s.users, slug, s.nextId);
    DetachEverywhereMemberships(s.users, Slugs(s.roles), slug);
  }

  /** Adding a role under a new slug keeps the store valid. */
  lemma AddRoleValid(s: Store, role: Role)
    requires Valid(s) && role.slug !in Slugs(s.roles)
    ensures Valid(s.(roles := s.roles + [role]))
  {
    var roles := s.roles + [role];
    forall i | 0 <= i < |s.users| ensures forall r :: r in s.users[i].roles ==> r in Slugs(roles) {
      forall r | r in s.users[i].roles ensures r in Slugs(roles) {
        var k :| 0 <= k < |s.roles| && s.roles[k].slug == r;
        assert roles[k] == s.roles[k];
      }
    }
  }

  /** Saving a role over a row with the same slug keeps the store valid. */
  lemma ReplaceRoleValid(s: Store, role: Role)
    requires Valid(s) && role.slug in Slugs(s.roles)
    ensures Valid(s.(roles := ReplaceRole(s.roles, role)))
  {
  }

  /** No stored row has the counter's id yet. */
  lemma {:induction false} NextIdFresh(s: Store)
    requires Valid(s)
    ensures FindById(s.users, s.nextId).None?
    ensures forall u :: u in s.users ==> u.id != s.nextId
  {
  }

  /** Inserting a user at the counter's id, under a new e-mail address, and
      advancing the counter keeps the store valid. */
  lemma AddUserValid(s: Store, u: User)
    requires Valid(s) && u.id == s.nextId && FindByEmail(s.users, u.email).None?
    requires u.roles == []
    ensures Valid(Store(s.users + [u], s.roles, s.nextId + 1))
  {
    var users := s.users + [u];
    assert users[|s.users|] == u;
    forall i | 0 <= i < |s.users| ensures users[i] == s.users[i] && users[i] in s.users {}
  }

  /** Appending a row with another id does not change a lookup by id. */
  lemma {:induction false} FindByIdAppend(users: seq<User>, u: User, id: int)
    requires u.id != id
    ensures FindById(users + [u], id) == FindById(users, id)
    decreases |users|
  {
    if users != [] {
      assert (users + [u])[1..] == users[1..] + [u];
      FindByIdAppend(users[1..], u, id);
    } else {
      assert ([] + [u])[1..] == [];
    }
  }
}

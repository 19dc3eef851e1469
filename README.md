# laravel-cms-auth: the authorization core in Dafny

This project models the authorization core of the `czim/laravel-cms-auth`
package. The package handles authentication and authorization for the Laravel
CMS, on top of Cartalyst Sentinel and an OAuth 2.0 server. The model covers
these parts:

- **The authenticator** (`Authenticator`). It holds the session queries (`check`, `user`,
  `admin`, `hasRole`, `can`, `canAnyOf`) and the logins and logouts. It also holds
  the guarded mutations, each of which answers a boolean: role membership
  (`assign`, `unassign`), user and role permissions (`grant`, `grantMany`,
  `revoke`, `revokeMany`, `grantToRole`, `revokeFromRole`), and role and user
  administration (`createRole`, `removeRole`, `createUser`, `deleteUser`,
  `updatePassword`, `updateUser`).
- **The auth repository** (`AuthRepository`). It lists users and roles and collects
  granted permission keys over roles and users. Its queries are
  `roleExists`, `roleInUse`, `getRole` and `permissionInUse`.
- **The CMS user model** (`EloquentUser`). It covers:
  - the login name;
  - the superadmin flag;
  - role membership by slug;
  - the any-of / all-of dispatch of `can`;
  - the user's own granted keys;
  - `fill` over the `$fillable` columns.
- **Token revocation in the API auth controller.** This follows OAuth 2.0 Token
  Revocation (RFC 7009, section 2.1). It dispatches on `token_type_hint`. A token
  is revoked only when it belongs to the caller's current access token, and the
  answer is always `OK`.
- **The CMS table-prefix rule** (`CmsTablePrefixed`).

### Sentinel's state and calls

Sentinel's users and roles tables are a `Storage.Store` value. A user row
carries:

- an id;
- an e-mail address, which is the login name;
- the superadmin flag;
- its own permission map;
- the slugs of the roles it holds, in attachment order;
- its other profile columns.

A permission map is an ordered list of key/value pairs with unique keys, so the
map order that PHP keeps is kept here too. `Storage.Valid` states the table
invariants:

- ids, e-mail addresses and slugs are unique;
- every id lies below the users table's auto-increment counter, so an id is
  never issued twice, even after a delete;
- a user holds each role at most once;
- a user holds only roles that exist.

A Sentinel call whose outcome this package does not decide becomes a boolean
parameter of the modelled operation: a credential check, a checkpoint, a
`save()`, a `delete()`, `update()`, `logout()` or `registerAndActivate()`. The
events the authenticator fires are appended to a ghost log.

Sentinel's `hasAccess`/`hasAnyAccess` resolution of a single permission key is a
resolver parameter.

### Form of the model

`Auth.Authenticator` is a class. Its methods change the store, the session user,
the login record and the event log. Each method is proved against store
functions such as `AttachAll`, `DetachAll`, `WithPermissions`, `SaveUser` and
`SetAll`. The lemmas about those functions then state what the source promises:

- what a user holds after `assign`, including the roles attached before a failing slug;
- that nothing else changes;
- that assigning twice is assigning once.

Three parts keep the loops of the source as `while` loops with invariants:

- the loops of `assign` and `unassign`;
- the `foreach addPermission` loops;
- the `foreach array_merge` loops of `getAllPermissions` and `getAllPermissionsForUser`.

The API controller is a class over its token maps. Each of its methods is proved
equal to a transition function on a `Tokens` value, and the ownership rule is
proved about those functions. Everything else is pure functions and lemmas.

### Where the model follows the code

- **unassign's answer.** The model follows the code: `unassign` answers false
  even after detaching every role. The corrected version sits beside it (see
  Findings).
- **Held roles' permissions.** `getAllPermissionsForUser` iterates the role
  objects the user holds. The model looks up each held slug in the roles table.
  In a valid store every held slug names a role, so the two agree.
- **Sorting in getAllPermissionsForRole.** `getAllPermissionsForRole` sorts
  without `array_unique`, and the model uses the same sort-and-deduplicate
  function as elsewhere. Its contract proves the result has one entry per
  granted key, because the keys of a map are unique, so no duplicate can be
  dropped.
- **hasRole and the database.** `hasRole` queries the roles relation on each
  call. `assign` therefore sees the roles attached earlier in the same call, and
  the model reads the current store at each step.

## Model

| member | source | states |
|---|---|---|
| Strings.ReplaceChar | src/Auth/Authenticator.php:638 | `str_replace` of one character: same length, each occurrence of the searched character replaced, every other character kept |
| Strings.UpperFirst | src/Auth/Authenticator.php:638 | `ucfirst`: same length, first character upper-cased, the rest unchanged |
| Strings.ToLower | src/Http/Controllers/Api/AuthController.php:56 | `strtolower`: same length, every character lower-cased |
| Sorting.SortUnique | src/Repositories/AuthRepository.php:144-146 | `sort` then `array_unique`: strictly ascending (hence duplicate-free), with exactly the input's elements |
| Sorting.SortedDeterminedByElements | src/Repositories/AuthRepository.php:144-146 | two strictly ascending lists with the same elements are equal, so the order in which keys are gathered does not matter to the sorted result |
| Sorting.SortUniqueOfDistinctKeepsLength | src/Repositories/AuthRepository.php:164-165 | sorting a duplicate-free list drops nothing; its length is kept |
| Permissions.TruthyKeys | src/Repositories/AuthRepository.php:132 | `array_keys(array_filter(m))`: exactly the keys mapped to true, no more entries than the map has |
| Permissions.TruthyKeysDistinct | src/Repositories/AuthRepository.php:132 | the granted keys of a map with unique keys are themselves unique |
| Permissions.KeyIndex | src/Sentinel/Users/EloquentUser.php:176 | the position of a key's entry in the map: -1 exactly when the key is absent, otherwise the index of an entry holding that key |
| Permissions.TruthyKeysInMapOrder | src/Sentinel/Users/EloquentUser.php:176 | `array_filter` keeps the map's order: each listed key has an entry, and earlier listed keys have earlier entries |
| Permissions.AddPermission | src/Auth/Authenticator.php:330 | `addPermission`: afterwards the key is present; a map already holding it, even as a denial, is unchanged; otherwise the key is appended as granted; every other key keeps its presence and value |
| Permissions.RemovePermission | src/Auth/Authenticator.php:366 | `removePermission`: afterwards the key is absent, whatever its value was; a map without it is unchanged; every other key keeps its presence and value |
| Permissions.Change | src/Auth/Authenticator.php:348 | `addPermission` when granting, `removePermission` when revoking, with the effects of each |
| Permissions.SetAllEffect | src/Auth/Authenticator.php:347-349 | after the loop unlisted keys keep presence and value; after granting every listed key is present and granted unless it was stored as a denial; after revoking no listed key is present |
| Storage.FindRoleBySlug | src/Auth/Authenticator.php:268 | `findRoleBySlug`: a found role is stored and carries that slug; nothing is found exactly when no role has that slug |
| Storage.FindById | src/Repositories/AuthRepository.php:219 | `findById`: a found user is stored and carries that id; nothing found means no stored user has it |
| Storage.FindByEmail | src/Repositories/AuthRepository.php:221-223 | `findByCredentials(['email' => ...])`: a found user is stored and carries that address; nothing found means no stored user has it |
| Storage.FindByIdOfMember | src/Repositories/AuthRepository.php:219 | with unique ids, a stored user is found by its own id |
| Storage.FindByEmailOfMember | src/Repositories/AuthRepository.php:221-223 | with unique e-mail addresses, a stored user is found by its own address |
| Storage.FindRoleOfMember | src/Auth/Authenticator.php:268 | with unique slugs, a stored role is found by its own slug |
| Storage.ReplaceUser | src/Auth/Authenticator.php:332 | `save()` of a user row: same number of rows, the row with that id replaced and every other row kept |
| Storage.ReplaceUserFinds | src/Auth/Authenticator.php:332 | after a user row is saved, looking it up by its id gives the saved row |
| Storage.ReplaceUserValid | src/Auth/Authenticator.php:332 | saving a row under a stored id, with an address no other row carries and distinct existing roles, keeps the tables valid |
| Storage.OwnAddressFree | src/Auth/Authenticator.php:332 | in valid tables a stored row's own address is accepted for it by the unique index |
| Storage.AddressFreeForMeans | src/Auth/Authenticator.php:626 | the unique index accepts an address for a row exactly when no other row carries that address |
| Storage.ReplaceRole | src/Auth/Authenticator.php:457 | `save()` of a role row: the row with that slug replaced, every other row and the slug set kept |
| Storage.ReplaceRoleValid | src/Auth/Authenticator.php:457 | saving a role over its own row keeps the tables valid |
| Storage.ReplaceRoleFinds | src/Auth/Authenticator.php:457 | after saving a role, looking its slug up gives the saved row |
| Storage.RemoveUser | src/Auth/Authenticator.php:587 | `delete()` of a user row: the row with that id is taken out and the others keep their order; an unknown id changes nothing |
| Storage.RemoveUserValid | src/Auth/Authenticator.php:587 | deleting a user keeps the tables valid |
| Storage.RemoveUserMembers | src/Auth/Authenticator.php:587 | after deleting, exactly the users with another id remain |
| Storage.RemoveRole | src/Auth/Authenticator.php:431 | `delete()` of a role row: the row with that slug is taken out and the others keep their order |
| Storage.Without | src/Auth/Authenticator.php:318 | detaching a slug from a membership list: exactly the other slugs remain, and an absent slug changes nothing |
| Storage.WithoutDistinct | src/Auth/Authenticator.php:318 | detaching keeps a membership list duplicate-free |
| Storage.DetachEverywhere | src/Auth/Authenticator.php:431 | deleting a role clears that slug from every user row and changes nothing else about the rows |
| Storage.RemoveRoleSlugs | src/Auth/Authenticator.php:431 | after deleting a role exactly the other slugs remain, still unique |
| Storage.DetachEverywhereMemberships | src/Auth/Authenticator.php:431 | after clearing a slug everywhere, memberships stay distinct and nobody holds the cleared slug |
| Storage.RemoveRoleValid | src/Auth/Authenticator.php:431 | deleting a role together with its memberships, the id counter untouched, keeps the tables valid |
| Storage.AddRoleValid | src/Auth/Authenticator.php:408-412 | adding a role under a new slug keeps the tables valid |
| Storage.AddUserValid | src/Auth/Authenticator.php:553-556 | adding a user with no roles under the counter's id and a new address, and moving the counter on, keeps the tables valid |
| Storage.NextIdFresh | src/Auth/Authenticator.php:553-556 | in valid tables no row carries the counter's id, so a registered user's id is one no row has |
| Storage.FindByIdAppend | src/Auth/Authenticator.php:553-556 | appending a row under another id leaves what an id finds unchanged |
| EloquentUser.Fill | src/Sentinel/Users/EloquentUser.php:33-39 | `fill`: a given `email` replaces the login name, a given `permissions` the permission map, given `first_name`/`last_name` the profile columns; id, superadmin flag, roles and every other column stay |
| EloquentUser.FillIgnoresUnfillable | src/Sentinel/Users/EloquentUser.php:33-39 | a key outside `$fillable` has no effect on `fill` |
| EloquentUser.FillIdempotent | src/Sentinel/Users/EloquentUser.php:33-39 | filling twice with the same data is filling once |
| EloquentUser.FillEmpty | src/Sentinel/Users/EloquentUser.php:33-39 | filling with no data changes nothing |
| EloquentUser.GetUsername | src/Sentinel/Users/EloquentUser.php:101-104 | the login name is the user's e-mail address |
| EloquentUser.UsernameFindsUser | src/Sentinel/Users/EloquentUser.php:101-104 | the login name is the e-mail address, and in a valid store looking it up gives that very user |
| EloquentUser.IsAdmin | src/Sentinel/Users/EloquentUser.php:111-114 | true exactly when the user's superadmin flag is set |
| EloquentUser.HasRole | src/Sentinel/Users/EloquentUser.php:122-125 | true exactly when one of the user's attached roles carries the slug |
| EloquentUser.HeldRoleExists | src/Sentinel/Users/EloquentUser.php:122-125 | in a valid store a role the user holds is found by its slug |
| EloquentUser.GetAllRoles | src/Sentinel/Users/EloquentUser.php:164-167 | a slug is listed exactly when the user holds that role |
| EloquentUser.AllRolesDistinct | src/Sentinel/Users/EloquentUser.php:164-167 | in a valid store no slug is listed twice |
| EloquentUser.Can | src/Sentinel/Users/EloquentUser.php:135-146 | with `allowAny` some listed key resolves, otherwise every listed key resolves; a single key counts as the one-element list |
| EloquentUser.CanAnyOf | src/Sentinel/Users/EloquentUser.php:154-157 | true exactly when some listed key resolves |
| EloquentUser.CanSingleAsList | src/Sentinel/Users/EloquentUser.php:135-146 | a single key is the one-element list holding it, and for it any-of and all-of are the key's own answer |
| EloquentUser.AllOfImpliesAnyOf | src/Sentinel/Users/EloquentUser.php:135-157 | all-of a non-empty list implies any-of it; for the empty list all-of holds and any-of fails |
| EloquentUser.GetAllPermissions | src/Sentinel/Users/EloquentUser.php:170-177 | exactly the keys the user's own map grants, no more entries than the map has, listed in the order of their entries in the map |
| EloquentUser.AllPermissionsOwnOnly | src/Sentinel/Users/EloquentUser.php:170-177 | the result ignores the roles the user holds and lists no key twice |
| EloquentUser.AllPermissionsExample | tests/Sentinel/Users/EloquentUserTest.php:65-80 | two granted keys and one denial give the two granted keys in stored order |
| AuthRepository.InsertByEmail | src/Repositories/AuthRepository.php:74 | placing one row into a list ordered by e-mail keeps it ordered and adds exactly that row |
| AuthRepository.SortByEmail | src/Repositories/AuthRepository.php:74 | `orderBy('email')`: ordered by e-mail, a permutation of the input |
| AuthRepository.Where | src/Repositories/AuthRepository.php:77 | a `where` clause: each row occurs as often as in the input when accepted, otherwise not at all |
| AuthRepository.GetAllUsers | src/Repositories/AuthRepository.php:71-81 | ordered by e-mail; every stored user, each once per row, except superadmins unless `withAdmin` |
| AuthRepository.GetUsersForRole | src/Repositories/AuthRepository.php:90-103 | ordered by e-mail; exactly the stored users holding the role, superadmins only with `withAdmin` |
| AuthRepository.SlugList | src/Repositories/AuthRepository.php:112 | `pluck('slug')`: one slug per role, in table order |
| AuthRepository.GetAllRoles | src/Repositories/AuthRepository.php:110-115 | strictly ascending; exactly the stored slugs |
| AuthRepository.AllRolesCount | src/Repositories/AuthRepository.php:110-115 | in a valid store there is one entry per role |
| AuthRepository.ResolveUser | src/Repositories/AuthRepository.php:212-227 | an instance passes through; an integer finds a stored user with that id, a name one with that address; nothing found exactly when no such user is stored |
| AuthRepository.ResolveStoredUser | src/Repositories/AuthRepository.php:212-227 | in a valid store a stored user is resolved by its id and by its name |
| AuthRepository.GetRole | src/Repositories/AuthRepository.php:255-258 | a found role is stored under that slug; nothing found exactly when no role has it |
| AuthRepository.RoleExists | src/Repositories/AuthRepository.php:235-238 | true exactly when some stored role has that slug |
| AuthRepository.HoldersNonEmpty | src/Repositories/AuthRepository.php:246-248 | the holder list is non-empty exactly when some stored user holds the role |
| AuthRepository.RoleInUse | src/Repositories/AuthRepository.php:246-249 | true exactly when some stored user, superadmins included, holds the role |
| AuthRepository.RoleKeysMembers | src/Repositories/AuthRepository.php:129-134 | the keys gathered over the roles are exactly the keys some role grants |
| AuthRepository.UserKeysMembers | src/Repositories/AuthRepository.php:137-142 | the keys gathered over the users are exactly the keys some user's own map grants |
| AuthRepository.AllKeysMembers | src/Repositories/AuthRepository.php:124-147 | the keys gathered by both loops are exactly the keys in use |
| AuthRepository.GetAllPermissions | src/Repositories/AuthRepository.php:124-147 | the two loops then sort-and-deduplicate: strictly ascending, a key listed exactly when some role or some user grants it; a key mapped only to false is absent |
| AuthRepository.PermissionInUse | src/Repositories/AuthRepository.php:268-271 | membership: true exactly when some role or some user grants that key |
| AuthRepository.GetAllPermissionsForRole | src/Repositories/AuthRepository.php:155-168 | `[]` for an unknown slug; otherwise strictly ascending, exactly the keys that role grants, one entry per granted key |
| AuthRepository.RoleKeysOf | src/Repositories/AuthRepository.php:187-193 | one held role's contribution: exactly the keys it grants, nothing for a slug naming no role |
| AuthRepository.HeldKeysMembers | src/Repositories/AuthRepository.php:186-193 | the keys gathered over the held roles are exactly the keys one of them grants |
| AuthRepository.UserPermissionsMembers | src/Repositories/AuthRepository.php:184-203 | the user's permissions are exactly the keys granted by its own map or by a role it holds |
| AuthRepository.CollectUserPermissions | src/Repositories/AuthRepository.php:184-203 | the loops over held roles and the user's own map, then the sort: the user's permissions, strictly ascending |
| AuthRepository.GetAllPermissionsForUser | src/Repositories/AuthRepository.php:176-204 | `[]` when the user cannot be resolved; otherwise strictly ascending, a key listed exactly when the own map or a held role grants it, so a false in one map never hides a grant in another |
| AuthRepository.ExampleKeysSorted | tests/Repositories/AuthRepositoryTest.php:236 | the expected key list of the example below is strictly ascending |
| AuthRepository.UserPermissionsExample | tests/Repositories/AuthRepositoryTest.php:210-241 | a held role granting `test.f` and `test.c` and denying `test.b`, plus own grants `test.e` and `test.a`, give the four granted keys ascending; a role not held adds nothing |
| CmsTablePrefixed.IsPrefixed | src/Sentinel/CmsTablePrefixed.php:29-32 | true exactly when the name is the prefix followed by the rest of the name |
| CmsTablePrefixed.GetTable | src/Sentinel/CmsTablePrefixed.php:12-22 | the result starts with the prefix; a name already prefixed is kept, any other gets the prefix in front |
| CmsTablePrefixed.GetTableKeepsName | src/Sentinel/CmsTablePrefixed.php:17-21 | the table name is the result itself or what follows the prefix in it |
| CmsTablePrefixed.GetTableIdempotent | src/Sentinel/CmsTablePrefixed.php:17-21 | prefixing the result again changes nothing |
| CmsTablePrefixed.EmptyPrefixKeepsName | src/Sentinel/CmsTablePrefixed.php:29-32 | with an empty prefix every name is kept |
| TokenRevocation.ExpireAccess | src/Http/Controllers/Api/AuthController.php:77-92 | only the current access token is revoked, and only when it is the one named; no other token, flag or binding changes |
| TokenRevocation.ExpireRefresh | src/Http/Controllers/Api/AuthController.php:99-127 | a refresh token is revoked only when it is stored, is the one named and is linked to the current access token; nothing else changes |
| TokenRevocation.Revoke | src/Http/Controllers/Api/AuthController.php:56-67 | the dispatch on the lower-cased hint: `access_token` expires the access token, `refresh_token` the refresh token, any other hint and a missing one leave the state as it is; the request's token stays bound |
| TokenRevocation.RevokeOnlyRevokes | src/Http/Controllers/Api/AuthController.php:54-127 | revocation never clears a revoked flag, never adds or drops a token, never relinks a refresh token, never rebinds the request |
| TokenRevocation.RevokeTouchesOnlyTheNamedToken | src/Http/Controllers/Api/AuthController.php:77-127 | a changed access token is the named current one; a changed refresh token is the named one, linked to the current access token |
| TokenRevocation.RevokeNeedsCurrentToken | src/Http/Controllers/Api/AuthController.php:77-127 | without a current access token nothing changes, whatever the hint |
| TokenRevocation.RevokeIdempotent | src/Http/Controllers/Api/AuthController.php:54-127 | revoking twice is revoking once |
| TokenRevocation.ToLowerIdempotent | src/Http/Controllers/Api/AuthController.php:56 | lower-casing twice is lower-casing once |
| TokenRevocation.HintCaseInsensitive | src/Http/Controllers/Api/AuthController.php:56 | the hint is read case-insensitively: a hint and its lower-case form act alike |
| TokenRevocation.AuthController.constructor | migrations/api/2016_06_01_000003_create_cms_oauth_refresh_tokens_table.php:17-20 | the controller starts over the given access tokens, refresh tokens linked to an access token id, and request binding |
| TokenRevocation.AuthController.ExpireAccessToken | src/Http/Controllers/Api/AuthController.php:77-92 | the guarded early returns, then `expire()`: the new state is `ExpireAccess` of the old one |
| TokenRevocation.AuthController.ExpireRefreshToken | src/Http/Controllers/Api/AuthController.php:99-127 | the guarded early returns, then `expire()`: the new state is `ExpireRefresh` of the old one |
| TokenRevocation.AuthController.RevokeAccessToken | src/Http/Controllers/Api/AuthController.php:54-70 | the new state is `Revoke` of the old one, and the answer is always "OK" |
| Auth.SaveUser | src/Auth/Authenticator.php:332 | saving a user row under an address the unique index accepts keeps the tables and the id counter valid; the row with that id becomes the saved one; no other row changes |
| Auth.NewUser | src/Auth/Authenticator.php:553-556 | the registered row: the counter's id, the given address, no superadmin flag, no roles, no permissions, no profile |
| Auth.Register | src/Auth/Authenticator.php:553-556 | the insert: valid tables, the new row last under a fresh id, the counter one higher, every earlier id finding what it found before |
| Auth.SaveRegistered | src/Auth/Authenticator.php:562 | saving the just-registered row under an accepted address replaces that last row only, and its address then finds it |
| Auth.AddRole | src/Auth/Authenticator.php:261-275 | one user row after `assignSingleRole`: only the memberships change; afterwards it holds what it held, plus the slug when a role has it |
| Auth.AddRolesEffect | src/Auth/Authenticator.php:244-246 | after `AddRole` for each slug the row holds what it held plus every listed existing slug; nothing else about it changes |
| Auth.DropRole | src/Auth/Authenticator.php:307-321 | one user row after `unassignSingleRole`: only the memberships change; the slug is dropped when a role has it |
| Auth.DropRolesEffect | src/Auth/Authenticator.php:290-292 | after `DropRole` for each slug the row holds what it held minus the listed existing slugs |
| Auth.AttachOne | src/Auth/Authenticator.php:263-274 | `assignSingleRole` on the store: the tables stay valid, the roles table is unchanged, and the user's row is `AddRole` of its old row |
| Auth.AttachAll | src/Auth/Authenticator.php:244-246 | the store after the loop stays valid, with the roles table unchanged and the user still stored |
| Auth.AttachAllStep | src/Auth/Authenticator.php:244-246 | one more turn of the loop: attaching a prefix one slug longer is attaching that slug to the shorter prefix's result |
| Auth.AttachAllUser | src/Auth/Authenticator.php:244-246 | attaching in the store is attaching on the user's row |
| Auth.AttachAllEffect | src/Auth/Authenticator.php:238-275 | after `assign` the user holds exactly its old roles plus every listed slug that names a role, including those before a failing slug; nothing else about the user changes |
| Auth.AttachOneOthers | src/Auth/Authenticator.php:272 | attaching a role changes no other user row |
| Auth.AttachAllOthers | src/Auth/Authenticator.php:244-246 | the whole `assign` loop changes no other user row |
| Auth.AllAssignableStep | src/Auth/Authenticator.php:244-248 | every slug of one more prefix is assignable exactly when the shorter prefix is and the next slug is |
| Auth.AssignStepAnswer | src/Auth/Authenticator.php:263-270 | part way through the loop, the single answer for the next slug is the one it would have had at the start |
| Auth.AssignInvStep | src/Auth/Authenticator.php:244-246 | one turn of the `assign` loop keeps its invariant: the store is the start with the prefix attached, and the count equals the prefix length exactly when all of it was assignable |
| Auth.AttachAllNoop | src/Auth/Authenticator.php:263-270 | when every slug is held already or names no role, assigning changes nothing |
| Auth.AttachAllIdempotent | src/Auth/Authenticator.php:263-265 | assigning the same roles twice is assigning them once: no second membership |
| Auth.DetachOne | src/Auth/Authenticator.php:309-318 | `unassignSingleRole` on the store: the tables stay valid and the user's row is `DropRole` of its old row |
| Auth.DetachAll | src/Auth/Authenticator.php:290-292 | the store after the loop stays valid, with the roles table unchanged and the user still stored |
| Auth.DetachAllStep | src/Auth/Authenticator.php:290-292 | one more turn of the loop: detaching a prefix one slug longer is detaching that slug from the shorter prefix's result |
| Auth.DetachAllUser | src/Auth/Authenticator.php:290-292 | detaching in the store is detaching on the user's row |
| Auth.DetachAllEffect | src/Auth/Authenticator.php:284-321 | after `unassign` the user holds exactly its old roles that are not listed; nothing else about the user changes |
| Auth.DetachOneOthers | src/Auth/Authenticator.php:318 | detaching a role changes no other user row |
| Auth.DetachAllOthers | src/Auth/Authenticator.php:290-292 | the whole `unassign` loop changes no other user row |
| Auth.UnassignAnswer | src/Auth/Authenticator.php:294-299 | the answer as written: false whatever the count of successful unassignments |
| Auth.UnassignAnswerCorrected | src/Auth/Authenticator.php:294-299 | the intended answer: true exactly when every single unassignment succeeded |
| Auth.UnassignAnswerIgnoresSuccess | src/Auth/Authenticator.php:294-299 | the answer as written is false although every single unassignment succeeded |
| Auth.WithPermissions | src/Auth/Authenticator.php:330-332 | a user's own map replaced and saved: the tables stay valid, that row carries the new map, no other row changes |
| Auth.WithRolePermissions | src/Auth/Authenticator.php:457 | a role's map replaced and saved: the tables stay valid, the users and the slug set are unchanged, that role carries the new map |
| Auth.ConvertRoleSlugToName | src/Auth/Authenticator.php:636-639 | the default role name: same length as the slug, no dot, every character after the first is the slug's with dots turned into spaces, and the first is upper-cased |
| Auth.ConvertRoleSlugToNameExample | src/Auth/Authenticator.php:636-639 | `a.b` becomes `A b` |
| Auth.RoleName | src/Auth/Authenticator.php:410 | `$name ?: ...`: a truthy name is kept, otherwise the name is made from the slug |
| Auth.Authenticator.constructor | src/Auth/Authenticator.php:37-41 | an authenticator over valid tables starts with nobody logged in, no logins recorded and no events |
| Auth.Authenticator.SessionUser | src/Auth/Authenticator.php:58-65 | the session's user is present exactly when the session is bound to a stored user, and it is that user |
| Auth.Authenticator.Check | src/Auth/Authenticator.php:48-51 | true exactly when the session is bound to a stored user |
| Auth.Authenticator.User | src/Auth/Authenticator.php:58-65 | nothing when nobody is logged in, otherwise the stored session user |
| Auth.Authenticator.Admin | src/Auth/Authenticator.php:72-79 | true exactly when someone is logged in and that user's superadmin flag is set |
| Auth.Authenticator.HasRole | src/Auth/Authenticator.php:191-198 | true exactly when someone is logged in who holds that role |
| Auth.Authenticator.Can | src/Auth/Authenticator.php:207-218 | false when nobody is logged in, true for a superadmin, otherwise exactly the user's own `can` |
| Auth.Authenticator.CanAnyOf | src/Auth/Authenticator.php:226-229 | true exactly when someone is logged in who is a superadmin or for whom some listed key resolves |
| Auth.Authenticator.AdminIgnoresResolver | src/Auth/Authenticator.php:213-215 | a superadmin is allowed whatever the permission resolver says |
| Auth.Authenticator.Login | src/Auth/Authenticator.php:87-103 | succeeds exactly when the address is stored and the credentials check; then that user is logged in, the login recorded and the event fired; otherwise nothing changes |
| Auth.Authenticator.Stateless | src/Auth/Authenticator.php:112-130 | as `login`, with the login still recorded and a stateless event |
| Auth.Authenticator.ForceUser | src/Auth/Authenticator.php:139-149 | the checkpoints' verdict is the answer; on success the user is logged in, the login recorded and a forced event fired; otherwise nothing changes |
| Auth.Authenticator.ForceUserStateless | src/Auth/Authenticator.php:158-168 | as `forceUser`, with no login recorded and a stateless forced event |
| Auth.Authenticator.Logout | src/Auth/Authenticator.php:173-183 | succeeds exactly when someone was logged in and Sentinel's logout succeeds; then nobody is logged in and the event names the old user; otherwise nothing changes |
| Auth.Authenticator.AssignSingleRole | src/Auth/Authenticator.php:261-275 | the store becomes `AttachOne` of the old one; true exactly when the user held the role or some role has that slug |
| Auth.Authenticator.AssignLoop | src/Auth/Authenticator.php:240-246 | the counting loop: the store becomes `AttachAll` of the old one over the listed slugs, and the count equals the number of slugs exactly when all of them were assignable |
| Auth.Authenticator.Assign | src/Auth/Authenticator.php:238-254 | the store becomes `AttachAll` of the old one, so earlier roles stay attached when a later slug fails; true exactly when every listed slug was held or names a role; the event is fired exactly on true |
| Auth.Authenticator.UnassignSingleRole | src/Auth/Authenticator.php:307-321 | the store becomes `DetachOne` of the old one; true when the role was not held (without a lookup) or some role has that slug |
| Auth.Authenticator.UnassignLoop | src/Auth/Authenticator.php:286-292 | the counting loop: the store becomes `DetachAll` of the old one, no listed role is held any more, and in a valid store every single unassignment succeeds |
| Auth.Authenticator.Unassign | src/Auth/Authenticator.php:284-300 | as written: every listed role is detached and the event fired, but the answer is false |
| Auth.Authenticator.UnassignCorrected | src/Auth/Authenticator.php:284-300 | as intended: the same effect, answering true |
| Auth.Authenticator.Grant | src/Auth/Authenticator.php:328-338 | the answer is `save()`'s; when saved the user's map becomes `AddPermission` of the old one: the key is present, granted unless it was stored as a denial, and the event fired; otherwise nothing changes |
| Auth.Authenticator.Revoke | src/Auth/Authenticator.php:364-374 | the answer is `save()`'s; when saved the key's entry is gone, so it is no longer granted, and the event fired; otherwise nothing changes |
| Auth.Authenticator.SetEach | src/Auth/Authenticator.php:347-349 | the `foreach addPermission` / `removePermission` loop: the map becomes `SetAll` of the old one; granted keys are present and granted unless stored as denials, revoked keys are absent; other keys keep presence and value |
| Auth.Authenticator.GrantMany | src/Auth/Authenticator.php:345-357 | the answer is `save()`'s; when saved every listed key is present and granted unless it was stored as a denial, no other key's grant changes, and the event is fired; otherwise nothing changes |
| Auth.Authenticator.RevokeMany | src/Auth/Authenticator.php:381-393 | the answer is `save()`'s; when saved no listed key is present or granted any more, no other key's grant changes, and the event is fired; otherwise nothing changes |
| Auth.Authenticator.CreateRole | src/Auth/Authenticator.php:402-416 | false and nothing changes when the slug is taken; otherwise exactly one new role with that slug, the given or derived name and no permissions, found by its slug, and the event fired |
| Auth.Authenticator.RemoveRole | src/Auth/Authenticator.php:424-435 | false and nothing changes for an unknown slug; otherwise the role and all its memberships are gone, a later lookup fails, the other slugs remain, and the event is fired |
| Auth.Authenticator.GrantToRole | src/Auth/Authenticator.php:444-472 | false and nothing changes for an unknown slug or a failed `save()`; otherwise the role holds every listed key, granted unless it already denied it, and the event is fired |
| Auth.Authenticator.RevokeFromRole | src/Auth/Authenticator.php:481-509 | false and nothing changes for an unknown slug or a failed `save()`; otherwise the role holds none of the listed keys and the event is fired |
| Auth.Authenticator.CreateUser | src/Auth/Authenticator.php:550-565 | a refused registration changes nothing and fails with "Failed to create user '<name>'"; otherwise a new row under the counter's id, which moves on; `update($data)` fills it, and a saved fill replaces the row, unless the filled address belongs to another user, in which case the bare row stays and the call fails with the index's error; the answer is the filled user, with no roles and no superadmin flag; the session's user is unchanged |
| Auth.Authenticator.DeleteUser | src/Auth/Authenticator.php:573-588 | false and nothing changes for an unknown name, for a superadmin or when `delete()` fails; otherwise exactly the other users remain, the id counter stays, and a session bound to the deleted user answers as for nobody logged in |
| Auth.Authenticator.UpdatePassword | src/Auth/Authenticator.php:597-607 | false for an unknown name, otherwise the answer of Sentinel's update |
| Auth.Authenticator.UpdateUser | src/Auth/Authenticator.php:616-628 | false and nothing changes for an unknown name or a failed `save()`; a saved address that belongs to another user fails with the index's error and changes nothing; otherwise true, and the filled user is saved: its new address finds it and, when the address changed, the old one finds nobody |

## Left out

- **isPrefixed as a regular expression.** `isPrefixed` interpolates the prefix unescaped into the regular expression `/^prefix/`. The model reads it as a literal prefix test, so the two differ for prefixes holding regular-expression metacharacters. The configured prefix is a parameter.
- **Wildcards in permission resolution.** Sentinel's `hasAccess`/`hasAnyAccess` merge role and user maps and expand wildcards. Their code is not part of this model, so the resolution of one key is a resolver parameter.
- **Passwords and credential checks.** Password hashing, `authenticate`'s password check, `registerAndActivate`'s internals and Sentinel's `update` are foreign calls whose code is not part of this model; each verdict is a boolean parameter.
- Auth.Authenticator.UpdatePassword: passwords are not part of the store, so the model states the answer only and not the stored password change.
- **Remember-me, persistence, throttling and checkpoints.** The `remember` flag, the persistence cookie, throttling and checkpoints are left out; a checkpoint's verdict is the `accepted` parameter of the forced logins. A login is recorded as an entry of `logins`.
- **OAuth 2.0 libraries.** `issueAccessToken`, token expiry timestamps and the OAuth 2.0 library's token storage are library delegation and are left out; a token is an id with a revoked flag.
- **PHP sorting and comparison details.** PHP's `sort` compares numeric-looking strings as numbers; the model orders strings by character code. Likewise `permissionInUse` uses the loose `in_array`, under which numeric strings such as `"1e1"` and `"10"` are equal; the model compares keys exactly. `array_unique` keeps the original array keys, leaving gaps; the model answers a plain list.
- **getAllPermissions' doc comment.** `EloquentUser.getAllPermissions` returns the user's own keys only, although its doc comment speaks of role permissions too; the model follows the code.
- **Truthy non-role lookups.** `roleExists` also guards against a lookup that yields a truthy non-role value. That happens only with a mocked Sentinel; in the model a lookup yields a role or nothing.
- **Failed saves.** When `save()` fails, the PHP object keeps the unsaved change in memory while the database does not. The model keeps the store unchanged and does not model the stale object.
- **Fillable columns.** `fill` keeps the `$fillable` columns. The model stores `email`, the permission map and the profile columns `first_name` and `last_name`; a given `password` is dropped, since passwords are not part of the store. How PHP casts and stores the `permissions` attribute is left out: the permission map arrives as a map.
- **The unique index's exception.** A saved address that belongs to another user makes the database throw; the model answers a `Failure` whose message stands for the database's and is not its exact text.
- **addPermission and removePermission.** Sentinel's permissible models, whose code is not part of this model, define these two. The model follows their behaviour: `addPermission` appends the key as granted only when the map does not hold it, so a stored explicit denial stays a denial; `removePermission` takes the key's entry out, whatever its value.
- **Characters and bytes.** PHP strings are byte strings; the model's strings are sequences of characters, so `strtolower`, `ucfirst`, the length of a name and the sort order act per character rather than per byte.
- **Role deletion.** `removeRole` assumes `delete()` succeeds, and Sentinel's role deletion is taken to clear the role's memberships too.
- Auth.Authenticator.CreateUser: a taken e-mail address stands for the database's unique index refusing the row; Sentinel's own reaction to it is not shown.
- Auth.Authenticator.DeleteUser: deleting the logged-in user leaves the session bound to an id with no row. Ids are never issued twice, so the session queries then answer as for nobody logged in from then on.
- **Event payloads.** Event payload objects and their listeners are left out; the ghost log records the kind of each event and the user id it names.
- **Names the source resolves through the container.** These are `app('sentinel')`, the repository and the OAuth authorizer. The model has one store and one token state in their place.

## Findings

| source | as written | input that shows it | evidently intended | confidence | as-written member | corrected member |
|---|---|---|---|---|---|---|
| src/Auth/Authenticator.php:298-299 | after every single unassignment succeeded and the permissions-changed event was fired, `unassign` answers `false` | any call, e.g. unassigning a role the user does not hold: every single step succeeds, the event fires, the answer is false | answer `true` on this path, as the sibling `assign` does and the package's own tests expect | not executed | Auth.UnassignAnswerIgnoresSuccess | Auth.Authenticator.UnassignCorrected |

# User/group directory, modelled in Dafny

A directory of named users and named groups with a many-to-many membership
relation, served over a small REST interface: create, fetch, replace and
delete users (`/users`, `/users/<userid>`) and groups (`/groups`,
`/groups/<name>`). A user record carries a first name, a last name, a userid
and a list of group names. A group is fetched or replaced as its list of
member userids. Each mutating handler must keep the two sides of the
relation consistent.

The repository holds two implementations, and both are modelled:

- **server.py** keeps two global maps, `users` (userid to a user record
  with its set of group names) and `groups` (group name to its set of
  userids). They must stay mutual inverses.
  - Module `Server` (server.dfy) gives each handler as a function of the
    two maps (`*Step`).
  - It proves that every handler preserves the invariant: every record is
    filed under its own userid, and u's record names g exactly when g's
    member set holds u.
  - Class `Server.Directory` holds the maps as fields and runs the
    handlers with the source's loops. Each method is proved to leave
    exactly the maps its `*Step` function describes.
- **app/controllers.py** (and app.py, whose live handlers are the same
  code) keeps the relation in one join table behind an ORM.
  - Module `Orm` (orm.dfy) models the three tables as `users`, `groups`
    and a set of (userid, group name) rows. A user's groups and a group's
    members are both read off these rows.
  - Class `Orm.Directory` runs the handlers with the source's loops over
    the request's lists.

Module `Reconcile` (reconcile.dfy) is the set-difference diff the server's
update handlers compute. Module `Records` (records.dfy) holds the request
body, its presence check `is_valid`, the status codes and the lookup
results.

Module `Agreement` (agreement.dfy) reads the server's maps as the ORM's
tables. It proves that, from any consistent state, every server handler
returns the ORM handler's status and commits the ORM handler's tables, and
that the lookups answer alike.

Several lines of server.py and one of app/controllers.py do not do what
the handlers evidently intend.
- Modules `ServerDefects` (server_defects.dfy) and `OrmDefects`
  (orm_defects.dfy) model those lines as written, and lemmas give an input
  on which each one parts from the corrected handler.
- The rest of the model uses the corrected handlers; see "## Findings".

How the source is represented:
- A JSON body is a `UserBody` whose fields are `None` when the key is
  absent.
- JSON lists become sets, as the server's `set(...)` calls make them.
  List order in responses is not modelled.
- A handler's result is a `Status` (200, 201, 400, 404, 409), paired with
  the state it leaves behind.

## Model

| member | source | states |
|---|---|---|
| Records.IsValid | server.py:15-19 | `is_valid`: the keys present in the body include first_name, last_name, userid and groups |
| Records.ValidIffAllFieldsPresent | server.py:15-19 | a body is valid exactly when all four keys first_name, last_name, userid and groups are present |
| Records.ValidityIgnoresValues | app/controllers.py:5-9 | validity depends only on which keys are present: bodies with the same keys agree, and empty values are accepted |
| Records.Elems | server.py:32 | `set(list)`: a name is in the set exactly when it occurs in the list |
| Reconcile.Compute | server.py:130-131 | removals are current keys that are not desired, additions are desired keys that are not current, the two are disjoint, and applying them yields exactly the desired set |
| Reconcile.ComputeIsMinimal | server.py:75-83 | every diff that turns the current set into the desired one removes at least these keys and adds at least these keys |
| Reconcile.ComputeIsUnique | server.py:75-83 | the computed diff is the only one that removes only current keys, adds only new keys and reaches the desired set |
| Reconcile.ReconcileIdempotent | server.py:130-131 | reconciling again against the same desired set after applying the diff asks for no edits |
| Reconcile.ComputeEdgeCases | server.py:130-131 | equal sets give no edits; an empty current set adds everything desired; an empty desired set removes everything current |
| Server.Inv | server.py:11-12 | the invariant of the two maps: every record is filed under its own userid, and u's record names g exactly when g's member set holds u, so every reference resolves to a key |
| Server.Seed | server.py:7-12 | the starting maps: jsmith (Joe Smith) in groups admins and users, both holding jsmith |
| Server.SeedInv | server.py:7-12 | the seeded maps (jsmith in admins and users) satisfy the mutual-inverse invariant |
| Server.Enroll | server.py:35-38 | the group map after a user joins the named groups: missing groups are created, and each named group gains the user and nothing else |
| Server.Withdraw | server.py:151-152 | the group map after a user leaves the named groups: the same keys, with only those memberships gone |
| Server.Grant | server.py:82-83 | the user map after the listed users gain a group: the same users, with only that group added to their group sets |
| Server.Revoke | server.py:94-95 | the user map after the listed users lose a group: the same users, with only that group removed from their group sets |
| Server.CreateUserStep | server.py:26-39 | 400 for a record missing a key and 409 for a taken userid, both with nothing changed; otherwise 201, exactly one user added, every named group a key holding the new userid, and every other membership unchanged |
| Server.CreateUserKeepsInv | server.py:32-38 | creating a user keeps the invariant, and the new user is in exactly the named groups |
| Server.CreateGroupStep | server.py:107-110 | 409 with nothing changed for a taken name; otherwise 201, a new empty group, and every other group and user unchanged |
| Server.CreateGroupKeepsInv | server.py:107-110 | creating a group keeps the invariant |
| Server.UpdateUserStep | server.py:123-145 | 404 with nothing changed for an absent user or an invalid record; otherwise 200, the names overwritten, the record's group set the listed names, groups only ever added, and no other user's memberships changed |
| Server.UpdateUserReconciles | server.py:130-141 | an update keeps the invariant; afterwards the user is in a group exactly when it was listed, and the group keys are the old keys plus the listed names |
| Server.UpdateMembershipStep | server.py:69-87 | 404 with nothing changed for an absent group; otherwise 200, the member set the listed userids, other groups unchanged, and only the users' group sets touched, for this group only |
| Server.UpdateMembershipReconciles | server.py:75-86 | a membership update keeps the invariant, and afterwards a user's record names the group exactly when the user was listed |
| Server.DeleteUserStep | server.py:147-156 | 404 with nothing changed for an absent user; otherwise 200, the user removed, every group kept, and only the deleted user's memberships gone |
| Server.DeleteUserCascades | server.py:151-153 | deleting a user keeps the invariant and leaves the userid in no group |
| Server.DeleteGroupStep | server.py:89-98 | 404 with nothing changed for an absent group; otherwise 200, the group removed, every user kept, and only the deleted group's memberships gone |
| Server.DeleteGroupCascades | server.py:94-98 | deleting a group keeps the invariant and leaves the name in no user's group set |
| Server.RetrieveUser | server.py:112-121 | 200 and found exactly when the userid is a key, otherwise 404; a found view reports the stored record's first name, last name, userid and group set |
| Server.RetrieveGroupMembers | server.py:62-67 | 200 and found exactly when the group is a key, otherwise 404; a found result is its member set |
| Server.RetrievalsAgree | server.py:112-121 | under the invariant, a user's view lists a group exactly when that group's members include the user, and a found user reports the userid it was looked up by |
| Server.Directory.constructor | server.py:7-12 | the maps start as the seed, which satisfies the invariant |
| Server.Directory.JoinGroups | server.py:35-38 | the loop leaves the group map `Enroll` describes and the users unchanged |
| Server.Directory.LeaveGroups | server.py:133-134 | the loop leaves the group map `Withdraw` describes and the users unchanged |
| Server.Directory.AddGroupTo | server.py:82-83 | the loop leaves the user map `Grant` describes and the groups unchanged |
| Server.Directory.DiscardGroupFrom | server.py:76-77 | the loop leaves the user map `Revoke` describes and the groups unchanged |
| Server.Directory.CreateNewUser | server.py:22-39 | returns the status and leaves the maps of `CreateUserStep`, keeping the invariant |
| Server.Directory.CreateNewGroup | server.py:107-110 | returns the status and leaves the maps of `CreateGroupStep`, keeping the invariant |
| Server.Directory.UpdateUser | server.py:123-145 | returns the status and leaves the maps of `UpdateUserStep`, keeping the invariant |
| Server.Directory.UpdateGroupMembership | server.py:69-87 | returns the status and leaves the maps of `UpdateMembershipStep`, keeping the invariant |
| Server.Directory.DeleteUser | server.py:147-156 | returns the status and leaves the maps of `DeleteUserStep`, keeping the invariant |
| Server.Directory.DeleteGroup | server.py:89-98 | returns the status and leaves the maps of `DeleteGroupStep`, keeping the invariant |
| ServerDefects.CreateUserAsWritten | server.py:24-29 | as written, a body without a userid raises KeyError with nothing changed; with a userid it behaves as corrected |
| ServerDefects.MissingUseridRaises | server.py:25-27 | a record with no userid raises KeyError as written, where the corrected handler answers 400 and changes nothing |
| ServerDefects.CreateGroupAsWritten | server.py:105-106 | as written, every request raises NameError and changes nothing |
| ServerDefects.CreateGroupNeverCreates | server.py:106-110 | an untaken name is never created as written, while the corrected logic creates it with 201 |
| ServerDefects.DeleteGroupAsWritten | server.py:89-98 | as written, 404 for an absent group; otherwise the group is deleted and the handler returns no response |
| ServerDefects.DeleteGroupReturnsNothing | server.py:89-98 | deleting an existing group returns nothing as written, and the corrected handler answers 200 for the same change |
| ServerDefects.Discard | server.py:95 | `discard` works on a set and raises AttributeError on a list |
| ServerDefects.Difference | server.py:130 | `difference` works on a set and raises AttributeError on a list |
| ServerDefects.StoredGroupsAsWritten | server.py:141 | as written, the user's groups become the request's list object itself |
| ServerDefects.StoredListBreaksLaterCalls | server.py:141 | after an update as written, a later group delete or user update fails with AttributeError; the corrected update stores a set on which both succeed |
| ServerDefects.UpdateUserAsWritten | server.py:128 | as written, the record filed under the path userid takes the body's userid |
| ServerDefects.UseridOverwriteBreaksKey | server.py:128 | renaming jsmith to jdoe breaks the invariant as written and a lookup of jsmith reports jdoe; the corrected update keeps both |
| ServerDefects.PutGroupAsWritten | server.py:55-57 | as written, PUT /groups/<name> raises NameError and changes nothing |
| ServerDefects.PutGroupNeverUpdates | server.py:57 | PUT /groups/A naming jsmith changes nothing as written; the corrected call answers 200 and leaves A holding exactly jsmith |
| Orm.Inv | app/models.py:5-8 | the join table's foreign keys: every row names an existing user and an existing group |
| Orm.GroupsOf | app/models.py:14-15 | `user.groups`: a group is listed exactly when a join row links it to the user |
| Orm.MembersOf | app/models.py:14-15 | `group.users`: a user is listed exactly when a join row links it to the group |
| Orm.ProjectionsAgree | app/models.py:14-15 | the two projections of the join table agree: g is among u's groups exactly when u is among g's members |
| Orm.UserRows | app/controllers.py:32 | the join rows that link one user to each named group, and no others |
| Orm.GroupRows | app/controllers.py:140 | the join rows that link each listed user to one group, and no others |
| Orm.DropUser | app/controllers.py:116 | the join table without the user's rows, every other row kept |
| Orm.DropGroup | app/controllers.py:148 | the join table without the group's rows, every other row kept |
| Orm.CreateUserStep | app.py:69-99 | 400 for a record missing a key and 409 for a taken userid, both with nothing committed; otherwise 201, one user row added, every named group existing, and rows linking the user to exactly the named groups |
| Orm.CreateUserKeepsInv | app.py:85-97 | creating a user keeps every join row pointing at an existing user and group, and the new user belongs to exactly the named groups |
| Orm.CreateGroupStep | app.py:102-113 | 400 when the body has no name and 409 for a taken name, both with nothing committed; otherwise 201 and one new group |
| Orm.CreateGroupKeepsInv | app.py:110-112 | creating a group keeps the foreign keys, and the new group has no members |
| Orm.UpdateUserStep | app.py:147-171 | 404 with nothing committed for an absent user or an invalid record; otherwise 200, names overwritten, named groups created, the user's rows exactly the named groups, and other users' rows unchanged |
| Orm.UpdateUserReconciles | app/controllers.py:105-107 | replacing the user's groups equals removing the rows for the groups it leaves and adding rows for the groups it joins, as computed by set difference |
| Orm.UpdateUserKeepsInv | app.py:156-168 | updating a user keeps the foreign keys |
| Orm.DeleteUserStep | app.py:173-180 | 404 with nothing committed for an absent user; otherwise 200, the user row and all its join rows removed, every group kept |
| Orm.DeleteUserKeepsInv | app/controllers.py:113-120 | deleting a user keeps the foreign keys and leaves the user in no group |
| Orm.UpdateMembershipStep | app/controllers.py:131-142 | 404 with nothing committed for an absent group; otherwise 200, the group's members exactly the listed users, and other groups' rows unchanged |
| Orm.UpdateMembershipKeepsInv | app/controllers.py:135-141 | a membership update over existing users keeps the foreign keys |
| Orm.DeleteGroupStep | app/controllers.py:144-150 | 404 with nothing committed for an absent group; otherwise 200, the group row and all its join rows removed, every user kept |
| Orm.DeleteGroupKeepsInv | app/controllers.py:144-150 | deleting a group keeps the foreign keys and leaves the group in no user's groups |
| Orm.RetrieveUser | app.py:136-145 | 200 and found exactly when the user exists, otherwise 404; a found view reports the user row's first and last names, the userid and exactly the groups joined to it |
| Orm.RetrieveGroupMembers | app/controllers.py:123-129 | 200 and found exactly when the group exists, otherwise 404; a found result is exactly the userids joined to it |
| Orm.TestSeed | tests.py:14-30 | the test data: jsmith (Joe Smith) in A and B, jdoe (John Doe) in B and C, shill (Sarah Hill) in A and C |
| Orm.SeededLookups | tests.py:64-113 | on the test data, jsmith is Joe Smith in A and B, group A holds jsmith and shill, and neither tstark nor group F exists |
| Orm.SeededUserStatuses | tests.py:41-101 | on the test data, the user handlers answer the statuses the tests expect |
| Orm.SeededGroupStatuses | tests.py:115-145 | on the test data, the group handlers answer the statuses the tests expect, and replacing A's members leaves exactly the three listed users |
| Orm.Directory.constructor | app.py:60 | the tables start empty, which satisfies the foreign keys |
| Orm.Directory.CreateNewUser | app/controllers.py:12-40 | returns the status and commits the tables of `CreateUserStep`, keeping the foreign keys |
| Orm.Directory.CreateNewGroup | app/controllers.py:43-54 | returns the status and commits the tables of `CreateGroupStep`, keeping the foreign keys |
| Orm.Directory.UpdateUser | app/controllers.py:88-111 | returns the status and commits the tables of `UpdateUserStep`, keeping the foreign keys |
| Orm.Directory.DeleteUser | app/controllers.py:113-120 | returns the status and commits the tables of `DeleteUserStep`, keeping the foreign keys |
| Orm.Directory.UpdateGroupMembership | app/controllers.py:131-142 | returns the status and commits the tables of `UpdateMembershipStep`, keeping the foreign keys |
| Orm.Directory.DeleteGroup | app/controllers.py:144-150 | returns the status and commits the tables of `DeleteGroupStep`, keeping the foreign keys |
| OrmDefects.UpdateMembershipAsWritten | app/controllers.py:135-141 | as written, a list naming an unknown userid makes the commit fail with nothing committed; a list of known userids behaves as corrected |
| OrmDefects.Known | app/controllers.py:136-138 | the listed userids that exist, and no others |
| OrmDefects.UpdateMembershipDroppingUnknown | app/controllers.py:131-142 | always answers: 404 for an absent group, otherwise 200 with the group holding exactly the listed users that exist, every other group's rows unchanged, and the users and groups kept |
| OrmDefects.DroppingUnknownIsSafe | app/controllers.py:131-142 | dropping unknown userids keeps the foreign keys, and on a list of known userids it equals the corrected update |
| OrmDefects.UnknownMemberFailsCommit | app/controllers.py:137-141 | naming jsmith and the unknown pparker for A fails the commit as written and leaves A unchanged; dropping pparker leaves A holding jsmith alone |
| Agreement.Abs | app/models.py:5-15 | the server's maps read as tables: the same users and names, the group keys, and one join row per group named in a user's record |
| Agreement.AbsKeepsInv | app/models.py:5-8 | on a consistent server state the join rows satisfy the foreign keys and can be read off either map |
| Agreement.CreateUserAgrees | app/controllers.py:12-40 | the server's create_new_user answers the ORM's status and leaves the ORM's tables |
| Agreement.CreateGroupAgrees | app/controllers.py:43-54 | the server's group-creation logic answers the ORM's status and leaves the ORM's tables |
| Agreement.UpdateUserAgrees | app/controllers.py:88-111 | the server's two-sided reconciliation answers the ORM's status and leaves the tables that replacing `user.groups` commits |
| Agreement.UpdateMembershipAgrees | app/controllers.py:131-142 | the server's membership update answers the ORM's status and leaves the ORM's tables |
| Agreement.DeleteUserAgrees | app/controllers.py:113-120 | the server's cascading user delete answers the ORM's status and leaves the ORM's tables |
| Agreement.DeleteGroupAgrees | app/controllers.py:144-150 | the server's cascading group delete answers the ORM's status and leaves the ORM's tables |
| Agreement.RetrievalsAgree | app/controllers.py:77-86 | on a consistent server state, both user lookups give the same view and both group lookups the same members |

## Left out

- Flask routing and dispatch (`users_handler`, `groups_handler`), `request.get_json` and `jsonify`. This is HTTP plumbing. The handlers take the decoded body and return a status.
- The response message strings. Only the status codes are modelled.
- The order of lists in JSON responses (`list(set)`, `map`). Lookups return sets.
- The ORM session, `commit` and `db.create_all`, the engine configuration and the model declarations. The tables are modelled only as the data they hold.
- The ORM's automatic collection diffing and its deletion of join rows. These are stated as explicit edits to the join rows.
- The `User` class of server.py comes from a module that is not part of this model. Its fields are taken from how server.py uses them.
- Server.Directory: user records are values in a map. A field update in place (`user.first_name = ...`, `user.groups.add(...)`) becomes replacing the record under its key. No two keys share a record object, so no aliasing is lost.
- Request lists are taken as sets. Duplicate names in one list collapse.
- Orm.CreateUserStep, Orm.UpdateUserStep: do not model a list that names the same not-yet-existing group twice. The loops at app/controllers.py:26-32 and 99-103 (app.py:85-91 and 158-162) would then build two group objects with one primary key, and the commit would fail. Both models answer with success and create the group once.
- Orm.UpdateUserStep: a body whose userid differs from the path's is answered as if the userid were unchanged: the user row and its join rows stay under the path userid. The source instead assigns the body's userid to the row's primary key (app/controllers.py:94, app.py:153), whose effect on the join rows depends on the database's cascade settings. The corrected server handler likewise keeps the stored userid (see the server.py:128 finding).
- Server.UpdateMembershipStep: requires every listed userid to exist when the group exists. As written, server.py:83 raises KeyError for an unknown userid after the removals at lines 76-77 have already run. That leaves the two maps inconsistent, which the model does not represent.
- Orm.UpdateMembershipStep: requires every listed userid to exist when the group exists. Unknown userids are not silently dropped: the code fails the commit. The model follows the code; the failing case is modelled in OrmDefects and listed under "## Findings".
- Server.CreateGroupStep: takes the group name as a string. server.py:106 never reads a name; that line is a finding. The 400 for a body without a name exists only in the ORM version (`Orm.CreateGroupStep`).
- app.py: the group-by-name route and its handlers are commented out (lines 125-133 and 182-220), so only app/controllers.py's group handlers are modelled. The other commented-out code is left out too.
- The test files are cited only for their seed data and expected statuses. The server's test file depends on the order of its test cases and is not modelled.
- Concurrency: the source has none.

## Findings

| source | as written | input that shows it | evidently intended | confidence | as-written member | corrected member |
|---|---|---|---|---|---|---|
| server.py:25 | the userid is read before the record is validated | a body with names and groups but no userid | answer 400 for any record missing a key | not executed | ServerDefects.CreateUserAsWritten | Server.CreateUserStep |
| server.py:106 | the body is indexed with `name`, a variable bound nowhere, so every request raises NameError | any POST /groups, e.g. a body naming a new group | read the "name" key and create the group | not executed | ServerDefects.CreateGroupAsWritten | Server.CreateGroupStep |
| server.py:89-98 | `delete_group` has no return statement after a successful delete | DELETE of an existing group | answer 200 after deleting | not executed | ServerDefects.DeleteGroupAsWritten | Server.DeleteGroupStep |
| server.py:141 | the user's groups become the request's raw list | an update followed by a delete of one of the user's groups, or by a second update | store `set(...)` of the listed names | not executed | ServerDefects.StoredGroupsAsWritten | Server.UpdateUserStep |
| server.py:128 | the body's userid overwrites the record's userid without re-keying the map | PUT /users/jsmith with userid jdoe on the seeded maps | keep each record filed under its own userid | not executed | ServerDefects.UpdateUserAsWritten | Server.UpdateUserStep |
| server.py:57 | the route calls `update_group_memebership`, a name bound nowhere | PUT /groups/A naming jsmith | call `update_group_membership` | not executed | ServerDefects.PutGroupAsWritten | Server.UpdateMembershipStep |
| app/controllers.py:137-138 | an unknown userid appends `None` to the group's users, and the commit fails | PUT /groups/A naming jsmith and pparker on the test data | answer without failing the commit: reject or drop unknown userids | not executed | OrmDefects.UpdateMembershipAsWritten | OrmDefects.UpdateMembershipDroppingUnknown |

/**
 * The ORM-backed directory of app/controllers.py, and of app.py whose live
 * handlers are the same code: a user table, a group table and one join table
 * `user_group` of (userid, group name) rows. A user's groups and a group's
 * members are both read off the join table, so the two sides of the
 * membership relation agree by construction.
 *
 * The value-level definitions (Db, Inv, the *Step functions) say what each
 * handler commits; class Directory holds the three tables as fields and
 * performs the handlers with the source's loops over the request's lists.
 */
module Orm {
  import opened Records
  import Reconcile

  /** A row of the user table, less its key. */
  datatype Person = Person(firstName: string, lastName: string)

  /** The three tables: users by userid, group names, and the `user_group` rows. */
  datatype Db = Db(users: map<string, Person>, groups: set<string>, edges: set<(string, string)>)

  /** The join table's foreign keys: every row names an existing user and an existing group. */
  ghost predicate Inv(db: Db)
  {
    forall e :: e in db.edges ==> e.0 in db.users && e.1 in db.groups
  }

  /** `user.groups`: the names of the groups joined to user `u`. */
  function GroupsOf(db: Db, u: string): (r: set<string>)
    ensures forall g :: g in r <==> (u, g) in db.edges
  {
    set e | e in db.edges && e.0 == u :: e.1
  }

  /** `group.users`: the userids joined to group `g`. */
  function MembersOf(db: Db, g: string): (r: set<string>)
    ensures forall u :: u in r <==> (u, g) in db.edges
  {
    set e | e in db.edges && e.1 == g :: e.0
  }

  /** Both projections read the same rows: g is among u's groups exactly when u is among g's members. */
  lemma ProjectionsAgree(db: Db, u: string, g: string)
    ensures g in GroupsOf(db, u) <==> u in MembersOf(db, g)
  {
  }

  /** Join rows linking user `u` to each of `names`. */
  function UserRows(u: string, names: set<string>): (r: set<(string, string)>)
    ensures forall v, g :: (v, g) in r <==> v == u && g in names
  {
    set g | g in names :: (u, g)
  }

  /** Join rows linking each of `members` to group `g`. */
  function GroupRows(members: set<string>, g: string): (r: set<(string, string)>)
    ensures forall u, h :: (u, h) in r <==> u in members && h == g
  {
    set u | u in members :: (u, g)
  }

  /** The join table without user `u`'s rows. */
  function DropUser(edges: set<(string, string)>, u: string): (r: set<(string, string)>)
    ensures forall v, g :: (v, g) in r <==> (v, g) in edges && v != u
  {
    set e | e in edges && e.0 != u
  }

  /** The join table without group `g`'s rows. */
  function DropGroup(edges: set<(string, string)>, g: string): (r: set<(string, string)>)
    ensures forall u, h :: (u, h) in r <==> (u, h) in edges && h != g
  {
    set e | e in edges && e.1 != g
  }

  /** What a handler returns, with the tables it commits. */
  datatype Step = Step(status: Status, next: Db)

  // ---------------------------------------------------------------------
  // The handlers, as functions of the tables

  /**
   * `create_new_user`: 400 for a record missing a key, checked before any
   * lookup, and 409 for a taken userid, both with nothing committed;
   * otherwise one user row is added, every named group exists afterwards
   * (missing ones are created), and the new rows link the user to exactly
   * the named groups.
   */
  function CreateUserStep(db: Db, body: UserBody): (r: Step)
    ensures !IsValid(body) ==> r == Step(BadRequest, db)
    ensures IsValid(body) && body.userid.value in db.users ==> r == Step(Conflict, db)
    ensures IsValid(body) && body.userid.value !in db.users ==>
      var uid, names := body.userid.value, Elems(body.groups.value);
      && r.status == Created
      && r.next.users == db.users[uid := Person(body.firstName.value, body.lastName.value)]
      && r.next.groups == db.groups + names
      && (forall u, g :: (u, g) in r.next.edges <==> (u, g) in db.edges || (u == uid && g in names))
  {
    if !IsValid(body) then Step(BadRequest, db)
    else
      var uid := body.userid.value;
      if uid in db.users then Step(Conflict, db)
      else
        var names := Elems(body.groups.value);
        Step(Created, Db(db.users[uid := Person(body.firstName.value, body.lastName.value)],
                         db.groups + names,
                         db.edges + UserRows(uid, names)))
  }

  /** A created user belongs to exactly the named groups, and the foreign keys still hold. */
  lemma CreateUserKeepsInv(db: Db, body: UserBody)
    requires Inv(db)
    ensures Inv(CreateUserStep(db, body).next)
    ensures CreateUserStep(db, body).status == Created ==>
      GroupsOf(CreateUserStep(db, body).next, body.userid.value) == Elems(body.groups.value)
  {
    var r := CreateUserStep(db, body);
    if r.status == Created {
      var uid := body.userid.value;
      assert forall g :: (uid, g) !in db.edges;
      assert GroupsOf(r.next, uid) == Elems(body.groups.value);
    }
  }

  /**
   * `create_new_group`: 400 when the body has no name, 409 when the group
   * exists, both with nothing committed; otherwise one new group without
   * members and 201.
   */
  function CreateGroupStep(db: Db, name: Option<string>): (r: Step)
    ensures name.None? ==> r == Step(BadRequest, db)
    ensures name.Some? && name.value in db.groups ==> r == Step(Conflict, db)
    ensures name.Some? && name.value !in db.groups ==>
      && r.status == Created
      && r.next == db.(groups := db.groups + {name.value})
  {
    match name
    case None => Step(BadRequest, db)
    case Some(n) =>
      if n in db.groups then Step(Conflict, db)
      else Step(Created, db.(groups := db.groups + {n}))
  }

  /** A new group has no members, and the foreign keys still hold. */
  lemma CreateGroupKeepsInv(db: Db, name: Option<string>)
    requires Inv(db)
    ensures Inv(CreateGroupStep(db, name).next)
    ensures CreateGroupStep(db, name).status == Created ==>
      MembersOf(CreateGroupStep(db, name).next, name.value) == {}
  {
    var r := CreateGroupStep(db, name);
    if r.status == Created {
      forall u | (u, name.value) in db.edges ensures false {
      }
    }
  }

  /**
   * `update_user`: 404 with nothing committed when the user is absent or the
   * record is invalid; otherwise the names are overwritten, every named group
   * exists afterwards, the user's rows become exactly the named groups and
   * every other user's rows stay as they were.
   */
  function UpdateUserStep(db: Db, userid: string, body: UserBody): (r: Step)
    ensures !(userid in db.users && IsValid(body)) ==> r == Step(NotFound, db)
    ensures userid in db.users && IsValid(body) ==>
      && r.status == OK
      && r.next.users == db.users[userid := Person(body.firstName.value, body.lastName.value)]
      && r.next.groups == db.groups + Elems(body.groups.value)
      && GroupsOf(r.next, userid) == Elems(body.groups.value)
      && (forall v, g :: v != userid ==> ((v, g) in r.next.edges <==> (v, g) in db.edges))
  {
    if userid in db.users && IsValid(body) then
      var desired := Elems(body.groups.value);
      Step(OK, Db(db.users[userid := Person(body.firstName.value, body.lastName.value)],
                  db.groups + desired,
                  DropUser(db.edges, userid) + UserRows(userid, desired)))
    else Step(NotFound, db)
  }

  /**
   * Replacing `user.groups` is a reconciliation: the committed rows are the
   * old rows less the user's rows for the groups it leaves, plus rows for the
   * groups it joins, with the two sets computed by set difference.
   */
  lemma UpdateUserReconciles(db: Db, userid: string, body: UserBody)
    requires userid in db.users && IsValid(body)
    ensures var d := Reconcile.Compute(GroupsOf(db, userid), Elems(body.groups.value));
      UpdateUserStep(db, userid, body).next.edges ==
        (db.edges - UserRows(userid, d.toRemove)) + UserRows(userid, d.toAdd)
  {
    var desired := Elems(body.groups.value);
    var d := Reconcile.Compute(GroupsOf(db, userid), desired);
    var lhs, rhs := UpdateUserStep(db, userid, body).next.edges, (db.edges - UserRows(userid, d.toRemove)) + UserRows(userid, d.toAdd);
    forall e | e in lhs ensures e in rhs {
      var (v, g) := e;
      if v == userid { assert g in desired; }
    }
    forall e | e in rhs ensures e in lhs {
      var (v, g) := e;
      if v == userid && e in db.edges && e !in UserRows(userid, d.toAdd) {
        assert g in GroupsOf(db, userid);
      }
    }
  }

  /** An update keeps the foreign keys. */
  lemma UpdateUserKeepsInv(db: Db, userid: string, body: UserBody)
    requires Inv(db)
    ensures Inv(UpdateUserStep(db, userid, body).next)
  {
  }

  /**
   * `delete_user`: 404 with nothing committed when the user is absent;
   * otherwise the user row and all of its join rows go, and every group and
   * every other row stays.
   */
  function DeleteUserStep(db: Db, userid: string): (r: Step)
    ensures userid !in db.users ==> r == Step(NotFound, db)
    ensures userid in db.users ==>
      && r.status == OK
      && r.next.users == db.users - {userid}
      && r.next.groups == db.groups
      && (forall v, g :: (v, g) in r.next.edges <==> (v, g) in db.edges && v != userid)
  {
    if userid !in db.users then Step(NotFound, db)
    else Step(OK, Db(db.users - {userid}, db.groups, DropUser(db.edges, userid)))
  }

  /** A deleted user is no group's member, and the foreign keys still hold. */
  lemma DeleteUserKeepsInv(db: Db, userid: string)
    requires Inv(db)
    ensures Inv(DeleteUserStep(db, userid).next)
    ensures forall g :: userid !in MembersOf(DeleteUserStep(db, userid).next, g)
  {
  }

  /**
   * `update_group_membership`: 404 with nothing committed when the group is
   * absent; otherwise the group's rows become exactly the listed users and
   * every other group's rows stay. Every listed userid must name an existing
   * user (line 137 looks each one up and line 140 links the result).
   */
  function UpdateMembershipStep(db: Db, name: string, members: seq<string>): (r: Step)
    requires name in db.groups ==> forall m :: m in members ==> m in db.users
    ensures name !in db.groups ==> r == Step(NotFound, db)
    ensures name in db.groups ==>
      && r.status == OK
      && r.next.users == db.users
      && r.next.groups == db.groups
      && MembersOf(r.next, name) == Elems(members)
      && (forall u, g :: g != name ==> ((u, g) in r.next.edges <==> (u, g) in db.edges))
  {
    if name !in db.groups then Step(NotFound, db)
    else Step(OK, Db(db.users, db.groups, DropGroup(db.edges, name) + GroupRows(Elems(members), name)))
  }

  /** A membership update keeps the foreign keys. */
  lemma UpdateMembershipKeepsInv(db: Db, name: string, members: seq<string>)
    requires Inv(db)
    requires name in db.groups ==> forall m :: m in members ==> m in db.users
    ensures Inv(UpdateMembershipStep(db, name, members).next)
  {
  }

  /**
   * `delete_group`: 404 with nothing committed when the group is absent;
   * otherwise the group and all of its join rows go, and every user and
   * every other row stays.
   */
  function DeleteGroupStep(db: Db, name: string): (r: Step)
    ensures name !in db.groups ==> r == Step(NotFound, db)
    ensures name in db.groups ==>
      && r.status == OK
      && r.next.users == db.users
      && r.next.groups == db.groups - {name}
      && (forall u, g :: (u, g) in r.next.edges <==> (u, g) in db.edges && g != name)
  {
    if name !in db.groups then Step(NotFound, db)
    else Step(OK, Db(db.users, db.groups - {name}, DropGroup(db.edges, name)))
  }

  /** A deleted group is no user's group, and the foreign keys still hold. */
  lemma DeleteGroupKeepsInv(db: Db, name: string)
    requires Inv(db)
    ensures Inv(DeleteGroupStep(db, name).next)
    ensures forall u :: name !in GroupsOf(DeleteGroupStep(db, name).next, u)
  {
  }

  // ---------------------------------------------------------------------
  // Lookups

  /** `retrieve_user`: the user's names and the names of its groups, or 404. */
  function RetrieveUser(db: Db, userid: string): (r: Lookup<UserView>)
    ensures r.Status().Code() == (if userid in db.users then 200 else 404)
    ensures r.Found? <==> userid in db.users
    ensures r.Found? ==>
      && r.value.firstName == db.users[userid].firstName
      && r.value.lastName == db.users[userid].lastName
      && r.value.userid == userid
      && (forall g :: g in r.value.groups <==> (userid, g) in db.edges)
  {
    if userid in db.users then
      Found(UserView(db.users[userid].firstName, db.users[userid].lastName, userid, GroupsOf(db, userid)))
    else Missing
  }

  /** `retrieve_group_members`: the userids joined to the group, or 404. */
  function RetrieveGroupMembers(db: Db, name: string): (r: Lookup<set<string>>)
    ensures r.Status().Code() == (if name in db.groups then 200 else 404)
    ensures r.Found? <==> name in db.groups
    ensures r.Found? ==> forall u :: u in r.value <==> (u, name) in db.edges
  {
    if name in db.groups then Found(MembersOf(db, name)) else Missing
  }

  /** The tables the tests start from: jsmith in A and B, jdoe in B and C, shill in A and C. */
  function TestSeed(): Db
  {
    Db(map["jsmith" := Person("Joe", "Smith"), "jdoe" := Person("John", "Doe"), "shill" := Person("Sarah", "Hill")],
       {"A", "B", "C"},
       {("jsmith", "A"), ("jsmith", "B"), ("jdoe", "B"), ("jdoe", "C"), ("shill", "A"), ("shill", "C")})
  }

  /**
   * The lookups the tests expect on that data: jsmith is Joe Smith in A and
   * B, group A holds jsmith and shill, and neither tstark nor group F exists.
   */
  lemma SeededLookups()
    ensures Inv(TestSeed())
    ensures RetrieveUser(TestSeed(), "jsmith") == Found(UserView("Joe", "Smith", "jsmith", {"A", "B"}))
    ensures RetrieveGroupMembers(TestSeed(), "A") == Found({"jsmith", "shill"})
    ensures RetrieveUser(TestSeed(), "tstark") == Missing
    ensures RetrieveGroupMembers(TestSeed(), "F") == Missing
  {
    var db := TestSeed();
    assert GroupsOf(db, "jsmith") == {"A", "B"} by {
      forall g ensures g in GroupsOf(db, "jsmith") <==> g in {"A", "B"} {
        assert ("jsmith", g) in db.edges <==> g == "A" || g == "B";
      }
    }
    assert MembersOf(db, "A") == {"jsmith", "shill"} by {
      forall u ensures u in MembersOf(db, "A") <==> u in {"jsmith", "shill"} {
        assert (u, "A") in db.edges <==> u == "jsmith" || u == "shill";
      }
    }
  }

  /** The status codes the tests expect from the user handlers on that data. */
  lemma SeededUserStatuses()
    ensures CreateUserStep(TestSeed(), UserBody(Some("David"), Some("Letterman"), Some("dletterman"), Some(["A", "B"]))).status == Created
    ensures CreateUserStep(TestSeed(), UserBody(Some("Tony"), None, Some("tstark"), None)).status == BadRequest
    ensures CreateUserStep(TestSeed(), UserBody(Some("Joe"), Some("Smith"), Some("jsmith"), Some(["A", "B"]))).status == Conflict
    ensures UpdateUserStep(TestSeed(), "jdoe", UserBody(Some("Johnny"), Some("Doe"), Some("jdoe"), Some(["A", "B"]))).status == OK
    ensures UpdateUserStep(TestSeed(), "tstark", UserBody(Some("Tony"), Some("Stark"), Some("tstark"), Some(["D", "E"]))).status == NotFound
    ensures DeleteUserStep(TestSeed(), "shill").status == OK
    ensures DeleteUserStep(TestSeed(), "pparker").status == NotFound
  {
    ValidIffAllFieldsPresent(UserBody(Some("David"), Some("Letterman"), Some("dletterman"), Some(["A", "B"])));
    ValidIffAllFieldsPresent(UserBody(Some("Tony"), None, Some("tstark"), None));
    ValidIffAllFieldsPresent(UserBody(Some("Joe"), Some("Smith"), Some("jsmith"), Some(["A", "B"])));
    ValidIffAllFieldsPresent(UserBody(Some("Johnny"), Some("Doe"), Some("jdoe"), Some(["A", "B"])));
  }

  /**
   * The status codes the tests expect from the group handlers on that data,
   * and what the successful replacement of group A's members leaves behind.
   */
  lemma SeededGroupStatuses()
    ensures CreateGroupStep(TestSeed(), Some("A")).status == Conflict
    ensures CreateGroupStep(TestSeed(), Some("G")).status == Created
    ensures var r := UpdateMembershipStep(TestSeed(), "A", ["jsmith", "jdoe", "shill"]);
      r.status == OK && MembersOf(r.next, "A") == {"jsmith", "jdoe", "shill"}
    ensures UpdateMembershipStep(TestSeed(), "K", ["jsmith", "jdoe", "shill"]).status == NotFound
    ensures DeleteGroupStep(TestSeed(), "A").status == OK
    ensures DeleteGroupStep(TestSeed(), "K").status == NotFound
  {
    assert Elems(["jsmith", "jdoe", "shill"]) == {"jsmith", "jdoe", "shill"};
  }

  // ---------------------------------------------------------------------
  // The handlers over the tables

  /** The three tables and the handlers that commit changes to them. */
  class Directory {
    var users: map<string, Person>
    var groups: set<string>
    var edges: set<(string, string)>

    function State(): Db
      reads this
    {
      Db(users, groups, edges)
    }

    ghost predicate Valid()
      reads this
    {
      Inv(State())
    }

    /** Empty tables, as `db.create_all()` leaves them. */
    constructor ()
      ensures Valid() && State() == Db(map[], {}, {})
    {
      users, groups, edges := map[], {}, {};
    }

    method CreateNewUser(body: UserBody) returns (status: Status)
      requires Valid()
      modifies this
      ensures Valid()
      ensures Step(status, State()) == CreateUserStep(old(State()), body)
    {
      CreateUserKeepsInv(State(), body);
      if !IsValid(body) {
        return BadRequest;
      }
      var userid := body.userid.value;
      if userid in users {
        return Conflict;
      }
      var names := body.groups.value;
      users := users[userid := Person(body.firstName.value, body.lastName.value)];
      for i := 0 to |names|
        invariant users == old(users)[userid := Person(body.firstName.value, body.lastName.value)]
        invariant groups == old(groups) + Elems(names[..i])
        invariant edges == old(edges) + UserRows(userid, Elems(names[..i]))
      {
        assert names[..i + 1] == names[..i] + [names[i]];
        if names[i] !in groups {
          groups := groups + {names[i]};
        }
        edges := edges + {(userid, names[i])};
      }
      assert names[..|names|] == names;
      status := Created;
    }

    method CreateNewGroup(name: Option<string>) returns (status: Status)
      requires Valid()
      modifies this
      ensures Valid()
      ensures Step(status, State()) == CreateGroupStep(old(State()), name)
    {
      CreateGroupKeepsInv(State(), name);
      if name.None? {
        return BadRequest;
      }
      if name.value in groups {
        return Conflict;
      }
      groups := groups + {name.value};
      status := Created;
    }

    method UpdateUser(userid: string, body: UserBody) returns (status: Status)
      requires Valid()
      modifies this
      ensures Valid()
      ensures Step(status, State()) == UpdateUserStep(old(State()), userid, body)
    {
      UpdateUserKeepsInv(State(), userid, body);
      if !(userid in users && IsValid(body)) {
        return NotFound;
      }
      users := users[userid := Person(body.firstName.value, body.lastName.value)];
      var names := body.groups.value;
      var newGroups: set<string> := {};
      for i := 0 to |names|
        invariant users == old(users)[userid := Person(body.firstName.value, body.lastName.value)]
        invariant edges == old(edges)
        invariant newGroups == Elems(names[..i])
        invariant groups == old(groups) + newGroups
      {
        assert names[..i + 1] == names[..i] + [names[i]];
        if names[i] !in groups {
          groups := groups + {names[i]};
        }
        newGroups := newGroups + {names[i]};
      }
      assert names[..|names|] == names;
      edges := DropUser(edges, userid) + UserRows(userid, newGroups);
      status := OK;
    }

    method DeleteUser(userid: string) returns (status: Status)
      requires Valid()
      modifies this
      ensures Valid()
      ensures Step(status, State()) == DeleteUserStep(old(State()), userid)
    {
      DeleteUserKeepsInv(State(), userid);
      if userid !in users {
        return NotFound;
      }
      users := users - {userid};
      edges := DropUser(edges, userid);
      status := OK;
    }

    method UpdateGroupMembership(name: string, members: seq<string>) returns (status: Status)
      requires Valid()
      requires name in groups ==> forall m :: m in members ==> m in users
      modifies this
      ensures Valid()
      ensures Step(status, State()) == UpdateMembershipStep(old(State()), name, members)
    {
      UpdateMembershipKeepsInv(State(), name, members);
      if name !in groups {
        return NotFound;
      }
      var newMembers: set<string> := {};
      for i := 0 to |members|
        invariant newMembers == Elems(members[..i])
      {
        assert members[..i + 1] == members[..i] + [members[i]];
        newMembers := newMembers + {members[i]};
      }
      assert members[..|members|] == members;
      edges := DropGroup(edges, name) + GroupRows(newMembers, name);
      status := OK;
    }

    method DeleteGroup(name: string) returns (status: Status)
      requires Valid()
      modifies this
      ensures Valid()
      ensures Step(status, State()) == DeleteGroupStep(old(State()), name)
    {
      DeleteGroupKeepsInv(State(), name);
      if name !in groups {
        return NotFound;
      }
      groups := groups - {name};
      edges := DropGroup(edges, name);
      status := OK;
    }
  }
}

/**
 * The in-memory directory of server.py: two global maps, `users` (userid to
 * a user record carrying the set of its group names) and `groups` (group
 * name to the set of member userids), which every handler keeps as mutual
 * inverses.
 *
 * The value-level definitions (Store, Inv, the *Step functions) say what
 * each handler does to the pair of maps; class Directory holds the maps as
 * fields and performs the same handlers with the source's loops.
 */
module Server {
  import opened Records
  import Reconcile

  /** The fields of a `User` object: names, userid and the set of its group names. */
  datatype UserRec = UserRec(firstName: string, lastName: string, userid: string, groups: set<string>)

  /** A snapshot of the two global maps. */
  datatype Store = Store(users: map<string, UserRec>, groups: map<string, set<string>>)

  /**
   * The directory invariant: every record is filed under its own userid, and
   * the two maps are mutual inverses (u's record names g exactly when g's
   * member set holds u), so every reference resolves to an existing key.
   */
  ghost predicate Inv(st: Store)
  {
    && (forall u :: u in st.users ==> st.users[u].userid == u)
    && (forall u, g :: u in st.users && g in st.users[u].groups ==> g in st.groups && u in st.groups[g])
    && (forall g, u :: g in st.groups && u in st.groups[g] ==> u in st.users && g in st.users[u].groups)
  }

  /** The maps the module starts with: one user, jsmith, in groups admins and users. */
  function Seed(): Store
  {
    Store(map["jsmith" := UserRec("Joe", "Smith", "jsmith", {"admins", "users"})],
          map["admins" := {"jsmith"}, "users" := {"jsmith"}])
  }

  /** The seeded maps satisfy the invariant. */
  lemma SeedInv()
    ensures Inv(Seed())
  {
    var st := Seed();
    assert st.users.Keys == {"jsmith"};
    assert st.groups.Keys == {"admins", "users"};
  }

  /** What a mutating handler returns, with the maps it leaves behind. */
  datatype Step = Step(status: Status, next: Store)

  // ---------------------------------------------------------------------
  // One side of the relation at a time

  /**
   * The group map after `u` joins every group in `names`; a name that is not
   * yet a group is first created empty. Nothing else changes.
   */
  function Enroll(gs: map<string, set<string>>, names: set<string>, u: string): (r: map<string, set<string>>)
    ensures r.Keys == gs.Keys + names
    ensures forall g, v :: g in r && v in r[g] <==> (g in gs && v in gs[g]) || (g in names && v == u)
  {
    map g | g in gs.Keys + names :: (if g in gs then gs[g] else {}) + (if g in names then {u} else {})
  }

  /** The group map after `u` leaves every existing group in `names`; no group is removed. */
  function Withdraw(gs: map<string, set<string>>, names: set<string>, u: string): (r: map<string, set<string>>)
    ensures r.Keys == gs.Keys
    ensures forall g, v :: g in r && v in r[g] <==> g in gs && v in gs[g] && !(g in names && v == u)
  {
    map g | g in gs :: if g in names then gs[g] - {u} else gs[g]
  }

  /**
   * The user map after group `g` is added to the record of every user in
   * `members`; only the `groups` fields change.
   */
  function Grant(us: map<string, UserRec>, members: set<string>, g: string): (r: map<string, UserRec>)
    requires members <= us.Keys
    ensures r.Keys == us.Keys
    ensures forall u :: u in r ==> r[u].(groups := us[u].groups) == us[u]
    ensures forall u, h :: u in r && h in r[u].groups <==> u in us && (h in us[u].groups || (u in members && h == g))
  {
    map u | u in us :: if u in members then us[u].(groups := us[u].groups + {g}) else us[u]
  }

  /**
   * The user map after group `g` is removed from the record of every existing
   * user in `members`; only the `groups` fields change and no user is removed.
   */
  function Revoke(us: map<string, UserRec>, members: set<string>, g: string): (r: map<string, UserRec>)
    ensures r.Keys == us.Keys
    ensures forall u :: u in r ==> r[u].(groups := us[u].groups) == us[u]
    ensures forall u, h :: u in r && h in r[u].groups <==> u in us && h in us[u].groups && !(u in members && h == g)
  {
    map u | u in us :: if u in members then us[u].(groups := us[u].groups - {g}) else us[u]
  }

  // ---------------------------------------------------------------------
  // The handlers, as functions of the maps

  /**
   * `create_new_user`: 400 for a record missing a key and 409 for a taken
   * userid, both with nothing changed; otherwise exactly one user is added,
   * every named group becomes a key of `groups` and gains the new userid, and
   * every other membership stays as it was.
   */
  function CreateUserStep(st: Store, body: UserBody): (r: Step)
    ensures !IsValid(body) ==> r == Step(BadRequest, st)
    ensures IsValid(body) && body.userid.value in st.users ==> r == Step(Conflict, st)
    ensures IsValid(body) && body.userid.value !in st.users ==>
      var uid, names := body.userid.value, Elems(body.groups.value);
      && r.status == Created
      && r.next.users.Keys == st.users.Keys + {uid}
      && r.next.users[uid] == UserRec(body.firstName.value, body.lastName.value, uid, names)
      && (forall u :: u in st.users ==> r.next.users[u] == st.users[u])
      && r.next.groups.Keys == st.groups.Keys + names
      && (forall g, v :: g in r.next.groups && v in r.next.groups[g] <==>
            (g in st.groups && v in st.groups[g]) || (g in names && v == uid))
  {
    if !IsValid(body) then Step(BadRequest, st)
    else
      var uid := body.userid.value;
      if uid in st.users then Step(Conflict, st)
      else
        var names := Elems(body.groups.value);
        Step(Created, Store(st.users[uid := UserRec(body.firstName.value, body.lastName.value, uid, names)],
                            Enroll(st.groups, names, uid)))
  }

  /** A successful create files the new user in exactly its named groups and keeps the invariant. */
  lemma CreateUserKeepsInv(st: Store, body: UserBody)
    requires Inv(st)
    ensures Inv(CreateUserStep(st, body).next)
    ensures CreateUserStep(st, body).status == Created ==>
      var uid, next := body.userid.value, CreateUserStep(st, body).next;
      forall g :: g in next.groups && uid in next.groups[g] <==> g in body.groups.value
  {
    var r := CreateUserStep(st, body);
    if r.status == Created {
      var uid, names, next := body.userid.value, Elems(body.groups.value), r.next;
      forall g | g in st.groups ensures uid !in st.groups[g] {
      }
      forall u, g | u in next.users && g in next.users[u].groups
        ensures g in next.groups && u in next.groups[g]
      {
        if u != uid { assert g in st.users[u].groups; }
      }
      forall g, u | g in next.groups && u in next.groups[g]
        ensures u in next.users && g in next.users[u].groups
      {
        if u != uid { assert g in st.groups && u in st.groups[g]; }
      }
    }
  }

  /**
   * The group-creation logic of `create_new_group`: 409 with nothing changed
   * when the name is taken, otherwise a new empty group and 201.
   */
  function CreateGroupStep(st: Store, name: string): (r: Step)
    ensures name in st.groups ==> r == Step(Conflict, st)
    ensures name !in st.groups ==>
      && r.status == Created
      && r.next.users == st.users
      && r.next.groups.Keys == st.groups.Keys + {name}
      && r.next.groups[name] == {}
      && (forall g :: g in st.groups ==> r.next.groups[g] == st.groups[g])
  {
    if name in st.groups then Step(Conflict, st)
    else Step(Created, Store(st.users, st.groups[name := {}]))
  }

  /** Creating a group keeps the invariant. */
  lemma CreateGroupKeepsInv(st: Store, name: string)
    requires Inv(st)
    ensures Inv(CreateGroupStep(st, name).next)
  {
  }

  /**
   * `update_user` with the stored userid kept: 404 with nothing changed when
   * the user is absent or the record is invalid; otherwise the names are
   * overwritten, the record's group set becomes the set of listed names,
   * groups are only ever added, and no other user's membership changes.
   */
  function UpdateUserStep(st: Store, userid: string, body: UserBody): (r: Step)
    ensures !(userid in st.users && IsValid(body)) ==> r == Step(NotFound, st)
    ensures userid in st.users && IsValid(body) ==>
      && r.status == OK
      && r.next.users.Keys == st.users.Keys
      && r.next.users[userid] ==
           UserRec(body.firstName.value, body.lastName.value, st.users[userid].userid, Elems(body.groups.value))
      && (forall u :: u in st.users && u != userid ==> r.next.users[u] == st.users[u])
      && st.groups.Keys <= r.next.groups.Keys
      && (forall g, v :: v != userid ==>
            (g in r.next.groups && v in r.next.groups[g] <==> g in st.groups && v in st.groups[g]))
  {
    if userid in st.users && IsValid(body) then
      var user := st.users[userid];
      var desired := Elems(body.groups.value);
      var d := Reconcile.Compute(user.groups, desired);
      var groups' := Enroll(Withdraw(st.groups, d.toRemove, userid), d.toAdd, userid);
      Step(OK, Store(st.users[userid := UserRec(body.firstName.value, body.lastName.value, user.userid, desired)],
                     groups'))
    else Step(NotFound, st)
  }

  /**
   * A successful update reconciles the group side: afterwards the user is a
   * member of exactly the listed groups, unknown names have become groups,
   * and the invariant holds.
   */
  lemma UpdateUserReconciles(st: Store, userid: string, body: UserBody)
    requires Inv(st)
    ensures Inv(UpdateUserStep(st, userid, body).next)
    ensures userid in st.users && IsValid(body) ==>
      var next, desired := UpdateUserStep(st, userid, body).next, Elems(body.groups.value);
      && next.groups.Keys == st.groups.Keys + desired
      && (forall g :: g in next.groups && userid in next.groups[g] <==> g in desired)
  {
    if userid in st.users && IsValid(body) {
      var next, desired := UpdateUserStep(st, userid, body).next, Elems(body.groups.value);
      var user := st.users[userid];
      var d := Reconcile.Compute(user.groups, desired);
      assert user.groups <= st.groups.Keys;
      assert next.groups.Keys == st.groups.Keys + desired;
      forall g ensures g in next.groups && userid in next.groups[g] <==> g in desired {
        assert g in user.groups <==> g in st.groups && userid in st.groups[g];
        assert g in desired <==> (g in user.groups && g !in d.toRemove) || g in d.toAdd;
      }
      forall u, g | u in next.users && g in next.users[u].groups
        ensures g in next.groups && u in next.groups[g]
      {
        if u != userid { assert g in st.users[u].groups; }
      }
      forall g, u | g in next.groups && u in next.groups[g]
        ensures u in next.users && g in next.users[u].groups
      {
        if u != userid { assert g in st.groups && u in st.groups[g]; }
      }
    }
  }

  /**
   * `update_group_membership`: 404 with nothing changed when the group is
   * absent; otherwise the group's member set becomes the set of listed
   * userids, the other groups are untouched, and only records of users
   * entering or leaving the group change, in that one group name. Every
   * listed userid must name an existing user (line 83 looks each one up).
   */
  function UpdateMembershipStep(st: Store, name: string, members: seq<string>): (r: Step)
    requires name in st.groups ==> forall m :: m in members ==> m in st.users
    ensures name !in st.groups ==> r == Step(NotFound, st)
    ensures name in st.groups ==>
      && r.status == OK
      && r.next.groups.Keys == st.groups.Keys
      && r.next.groups[name] == Elems(members)
      && (forall g :: g in st.groups && g != name ==> r.next.groups[g] == st.groups[g])
      && r.next.users.Keys == st.users.Keys
      && (forall u :: u in st.users ==> r.next.users[u].(groups := st.users[u].groups) == st.users[u])
      && (forall u, g :: g != name ==>
            (u in r.next.users && g in r.next.users[u].groups <==> u in st.users && g in st.users[u].groups))
  {
    if name !in st.groups then Step(NotFound, st)
    else
      var desired := Elems(members);
      var d := Reconcile.Compute(st.groups[name], desired);
      Step(OK, Store(Grant(Revoke(st.users, d.toRemove, name), d.toAdd, name), st.groups[name := desired]))
  }

  /**
   * A successful membership update reconciles the user side: afterwards a
   * user's record names the group exactly when the user was listed, and the
   * invariant holds.
   */
  lemma UpdateMembershipReconciles(st: Store, name: string, members: seq<string>)
    requires Inv(st)
    requires name in st.groups ==> forall m :: m in members ==> m in st.users
    ensures Inv(UpdateMembershipStep(st, name, members).next)
    ensures name in st.groups ==>
      var next := UpdateMembershipStep(st, name, members).next;
      forall u :: u in next.users ==> (name in next.users[u].groups <==> u in members)
  {
    if name in st.groups {
      var next, desired := UpdateMembershipStep(st, name, members).next, Elems(members);
      var d := Reconcile.Compute(st.groups[name], desired);
      forall u | u in next.users ensures name in next.users[u].groups <==> u in members {
        assert name in st.users[u].groups <==> u in st.groups[name];
        assert u in desired <==> (u in st.groups[name] && u !in d.toRemove) || u in d.toAdd;
      }
      forall u, g | u in next.users && g in next.users[u].groups
        ensures g in next.groups && u in next.groups[g]
      {
        if g != name { assert g in st.users[u].groups; }
      }
      forall g, u | g in next.groups && u in next.groups[g]
        ensures u in next.users && g in next.users[u].groups
      {
        if g != name { assert g in st.groups && u in st.groups[g]; }
      }
    }
  }

  /**
   * `delete_user`: 404 with nothing changed when the user is absent;
   * otherwise the user is removed, every group is kept, and the only
   * memberships that disappear are the deleted user's.
   */
  function DeleteUserStep(st: Store, userid: string): (r: Step)
    ensures userid !in st.users ==> r == Step(NotFound, st)
    ensures userid in st.users ==>
      && r.status == OK
      && r.next.users == st.users - {userid}
      && r.next.groups.Keys == st.groups.Keys
      && (forall g, v :: g in r.next.groups && v in r.next.groups[g] <==>
            g in st.groups && v in st.groups[g] && !(v == userid && g in st.users[userid].groups))
  {
    if userid !in st.users then Step(NotFound, st)
    else Step(OK, Store(st.users - {userid}, Withdraw(st.groups, st.users[userid].groups, userid)))
  }

  /** Deleting a user leaves it in no group's member set and keeps the invariant. */
  lemma DeleteUserCascades(st: Store, userid: string)
    requires Inv(st)
    ensures Inv(DeleteUserStep(st, userid).next)
    ensures forall g :: g in DeleteUserStep(st, userid).next.groups ==> userid !in DeleteUserStep(st, userid).next.groups[g]
  {
    var next := DeleteUserStep(st, userid).next;
    if userid in st.users {
      forall g | g in next.groups ensures userid !in next.groups[g] {
        if userid in st.groups[g] { assert g in st.users[userid].groups; }
      }
    }
  }

  /**
   * `delete_group` (returning 200 on success): 404 with nothing changed when
   * the group is absent; otherwise the group is removed, every user is kept,
   * and the only memberships that disappear are the deleted group's.
   */
  function DeleteGroupStep(st: Store, name: string): (r: Step)
    ensures name !in st.groups ==> r == Step(NotFound, st)
    ensures name in st.groups ==>
      && r.status == OK
      && r.next.groups == st.groups - {name}
      && r.next.users.Keys == st.users.Keys
      && (forall u :: u in st.users ==> r.next.users[u].(groups := st.users[u].groups) == st.users[u])
      && (forall u, g :: u in r.next.users && g in r.next.users[u].groups <==>
            u in st.users && g in st.users[u].groups && !(g == name && u in st.groups[name]))
  {
    if name !in st.groups then Step(NotFound, st)
    else Step(OK, Store(Revoke(st.users, st.groups[name], name), st.groups - {name}))
  }

  /** Deleting a group leaves it in no user's record and keeps the invariant. */
  lemma DeleteGroupCascades(st: Store, name: string)
    requires Inv(st)
    ensures Inv(DeleteGroupStep(st, name).next)
    ensures forall u :: u in DeleteGroupStep(st, name).next.users ==> name !in DeleteGroupStep(st, name).next.users[u].groups
  {
    var next := DeleteGroupStep(st, name).next;
    if name in st.groups {
      forall u | u in next.users ensures name !in next.users[u].groups {
        if name in st.users[u].groups { assert u in st.groups[name]; }
      }
    }
  }

  // ---------------------------------------------------------------------
  // Lookups

  /** `retrieve_user`: the stored record's fields, or 404 when the userid is absent. */
  function RetrieveUser(st: Store, userid: string): (r: Lookup<UserView>)
    ensures r.Status().Code() == (if userid in st.users then 200 else 404)
    ensures r.Found? <==> userid in st.users
    ensures r.Found? ==>
      && r.value.firstName == st.users[userid].firstName
      && r.value.lastName == st.users[userid].lastName
      && r.value.userid == st.users[userid].userid
      && r.value.groups == st.users[userid].groups
  {
    if userid in st.users then
      var user := st.users[userid];
      Found(UserView(user.firstName, user.lastName, user.userid, user.groups))
    else Missing
  }

  /** `retrieve_group_members`: the group's member set, or 404 when the group is absent. */
  function RetrieveGroupMembers(st: Store, name: string): (r: Lookup<set<string>>)
    ensures r.Status().Code() == (if name in st.groups then 200 else 404)
    ensures r.Found? <==> name in st.groups
    ensures r.Found? ==> r.value == st.groups[name]
  {
    if name in st.groups then Found(st.groups[name]) else Missing
  }

  /**
   * Under the invariant the two lookups agree: a user's view lists a group
   * exactly when that group's member list holds the user, and a found user
   * reports the userid it was looked up by.
   */
  lemma RetrievalsAgree(st: Store, userid: string, name: string)
    requires Inv(st)
    ensures (RetrieveUser(st, userid).Found? && name in RetrieveUser(st, userid).value.groups) <==>
            (RetrieveGroupMembers(st, name).Found? && userid in RetrieveGroupMembers(st, name).value)
    ensures RetrieveUser(st, userid).Found? ==> RetrieveUser(st, userid).value.userid == userid
  {
  }

  // ---------------------------------------------------------------------
  // Loop steps: one element more of a set loop

  lemma EnrollNone(gs: map<string, set<string>>, u: string)
    ensures Enroll(gs, {}, u) == gs
  {
    var m := Enroll(gs, {}, u);
    assert m.Keys == gs.Keys;
    forall g | g in gs ensures m[g] == gs[g] {
    }
  }

  lemma EnrollOneMore(gs: map<string, set<string>>, done: set<string>, g: string, u: string)
    ensures var m := Enroll(gs, done, u);
      Enroll(gs, done + {g}, u) == m[g := (if g in m then m[g] else {}) + {u}]
  {
    var m, m' := Enroll(gs, done, u), Enroll(gs, done + {g}, u);
    var expected := m[g := (if g in m then m[g] else {}) + {u}];
    assert m'.Keys == expected.Keys;
    forall k | k in m' ensures m'[k] == expected[k] {
    }
  }

  lemma WithdrawNone(gs: map<string, set<string>>, u: string)
    ensures Withdraw(gs, {}, u) == gs
  {
    var m := Withdraw(gs, {}, u);
    assert m.Keys == gs.Keys;
    forall g | g in gs ensures m[g] == gs[g] {
    }
  }

  lemma WithdrawOneMore(gs: map<string, set<string>>, done: set<string>, g: string, u: string)
    requires g in gs
    ensures var m := Withdraw(gs, done, u);
      Withdraw(gs, done + {g}, u) == m[g := m[g] - {u}]
  {
    var m, m' := Withdraw(gs, done, u), Withdraw(gs, done + {g}, u);
    var expected := m[g := m[g] - {u}];
    assert m'.Keys == expected.Keys;
    forall k | k in m' ensures m'[k] == expected[k] {
    }
  }

  lemma GrantNone(us: map<string, UserRec>, g: string)
    ensures Grant(us, {}, g) == us
  {
  }

  lemma GrantOneMore(us: map<string, UserRec>, done: set<string>, u: string, g: string)
    requires done <= us.Keys && u in us
    ensures var m := Grant(us, done, g);
      Grant(us, done + {u}, g) == m[u := m[u].(groups := m[u].groups + {g})]
  {
  }

  lemma RevokeNone(us: map<string, UserRec>, g: string)
    ensures Revoke(us, {}, g) == us
  {
  }

  lemma RevokeOneMore(us: map<string, UserRec>, done: set<string>, u: string, g: string)
    requires u in us
    ensures var m := Revoke(us, done, g);
      Revoke(us, done + {u}, g) == m[u := m[u].(groups := m[u].groups - {g})]
  {
    var m, m' := Revoke(us, done, g), Revoke(us, done + {u}, g);
    var expected := m[u := m[u].(groups := m[u].groups - {g})];
    assert m'.Keys == expected.Keys;
    forall k | k in m' ensures m'[k] == expected[k] {
    }
  }

  // ---------------------------------------------------------------------
  // The handlers over the global maps

  /** The two global maps and the handlers that update them in place. */
  class Directory {
    var users: map<string, UserRec>
    var groups: map<string, set<string>>

    function State(): Store
      reads this
    {
      Store(users, groups)
    }

    ghost predicate Valid()
      reads this
    {
      Inv(State())
    }

    /** The module-level initialisation: jsmith in admins and users. */
    constructor ()
      ensures Valid() && State() == Seed()
    {
      users := Seed().users;
      groups := Seed().groups;
      SeedInv();
    }

    // The four loops the handlers share, one element of a set at a time.

    /** `for group in names: if group not in groups: groups[group] = set(); groups[group].add(userid)` */
    method JoinGroups(names: set<string>, userid: string)
      modifies this
      ensures users == old(users)
      ensures groups == Enroll(old(groups), names, userid)
    {
      var todo := names;
      EnrollNone(groups, userid);
      while todo != {}
        invariant todo <= names
        invariant users == old(users)
        invariant groups == Enroll(old(groups), names - todo, userid)
        decreases todo
      {
        var group :| group in todo;
        EnrollOneMore(old(groups), names - todo, group, userid);
        assert names - (todo - {group}) == (names - todo) + {group};
        if group !in groups {
          groups := groups[group := {}];
        }
        groups := groups[group := groups[group] + {userid}];
        todo := todo - {group};
      }
    }

    /** `for group in names: groups[group].discard(userid)` */
    method LeaveGroups(names: set<string>, userid: string)
      requires names <= groups.Keys
      modifies this
      ensures users == old(users)
      ensures groups == Withdraw(old(groups), names, userid)
    {
      var todo := names;
      WithdrawNone(groups, userid);
      while todo != {}
        invariant todo <= names
        invariant users == old(users)
        invariant groups == Withdraw(old(groups), names - todo, userid)
        decreases todo
      {
        var group :| group in todo;
        WithdrawOneMore(old(groups), names - todo, group, userid);
        assert names - (todo - {group}) == (names - todo) + {group};
        groups := groups[group := groups[group] - {userid}];
        todo := todo - {group};
      }
    }

    /** `for user in members: users[user].groups.add(name)` */
    method AddGroupTo(members: set<string>, name: string)
      requires members <= users.Keys
      modifies this
      ensures groups == old(groups)
      ensures users == Grant(old(users), members, name)
    {
      var todo := members;
      GrantNone(users, name);
      while todo != {}
        invariant todo <= members
        invariant groups == old(groups)
        invariant users == Grant(old(users), members - todo, name)
        decreases todo
      {
        var user :| user in todo;
        GrantOneMore(old(users), members - todo, user, name);
        assert members - (todo - {user}) == (members - todo) + {user};
        users := users[user := users[user].(groups := users[user].groups + {name})];
        todo := todo - {user};
      }
    }

    /** `for user in members: users[user].groups.discard(name)` */
    method DiscardGroupFrom(members: set<string>, name: string)
      requires members <= users.Keys
      modifies this
      ensures groups == old(groups)
      ensures users == Revoke(old(users), members, name)
    {
      var todo := members;
      RevokeNone(users, name);
      while todo != {}
        invariant todo <= members
        invariant groups == old(groups)
        invariant users == Revoke(old(users), members - todo, name)
        decreases todo
      {
        var user :| user in todo;
        RevokeOneMore(old(users), members - todo, user, name);
        assert members - (todo - {user}) == (members - todo) + {user};
        users := users[user := users[user].(groups := users[user].groups - {name})];
        todo := todo - {user};
      }
    }

    // The handlers.

    method CreateNewUser(body: UserBody) returns (status: Status)
      requires Valid()
      modifies this
      ensures Valid()
      ensures Step(status, State()) == CreateUserStep(old(State()), body)
    {
      CreateUserKeepsInv(State(), body);
      if !IsValid(body) {
        return BadRequest;
      }
      var userid := body.userid.value;
      if userid in users {
        return Conflict;
      }
      var userGroups := Elems(body.groups.value);
      users := users[userid := UserRec(body.firstName.value, body.lastName.value, userid, userGroups)];
      JoinGroups(userGroups, userid);
      status := Created;
    }

    /** The logic of `create_new_group` once the name has been read from the body. */
    method CreateNewGroup(name: string) returns (status: Status)
      requires Valid()
      modifies this
      ensures Valid()
      ensures Step(status, State()) == CreateGroupStep(old(State()), name)
    {
      CreateGroupKeepsInv(State(), name);
      if name in groups {
        return Conflict;
      }
      groups := groups[name := {}];
      status := Created;
    }

    method UpdateUser(userid: string, body: UserBody) returns (status: Status)
      requires Valid()
      modifies this
      ensures Valid()
      ensures Step(status, State()) == UpdateUserStep(old(State()), userid, body)
    {
      UpdateUserReconciles(State(), userid, body);
      if !(userid in users && IsValid(body)) {
        return NotFound;
      }
      var user := users[userid];
      var newGroups := Elems(body.groups.value);
      var d := Reconcile.Compute(user.groups, newGroups);
      assert d.toRemove <= groups.Keys;
      LeaveGroups(d.toRemove, userid);
      JoinGroups(d.toAdd, userid);
      users := users[userid := UserRec(body.firstName.value, body.lastName.value, user.userid, newGroups)];
      status := OK;
    }

    method UpdateGroupMembership(name: string, members: seq<string>) returns (status: Status)
      requires Valid()
      requires name in groups ==> forall m :: m in members ==> m in users
      modifies this
      ensures Valid()
      ensures Step(status, State()) == UpdateMembershipStep(old(State()), name, members)
    {
      UpdateMembershipReconciles(State(), name, members);
      if name !in groups {
        return NotFound;
      }
      var newMembership := Elems(members);
      var d := Reconcile.Compute(groups[name], newMembership);
      assert d.toRemove <= users.Keys;
      DiscardGroupFrom(d.toRemove, name);
      AddGroupTo(d.toAdd, name);
      groups := groups[name := newMembership];
      status := OK;
    }

    method DeleteUser(userid: string) returns (status: Status)
      requires Valid()
      modifies this
      ensures Valid()
      ensures Step(status, State()) == DeleteUserStep(old(State()), userid)
    {
      DeleteUserCascades(State(), userid);
      if userid !in users {
        return NotFound;
      }
      var user := users[userid];
      assert user.groups <= groups.Keys;
      LeaveGroups(user.groups, userid);
      users := users - {userid};
      status := OK;
    }

    /** `delete_group`, returning 200 once the group is gone. */
    method DeleteGroup(name: string) returns (status: Status)
      requires Valid()
      modifies this
      ensures Valid()
      ensures Step(status, State()) == DeleteGroupStep(old(State()), name)
    {
      DeleteGroupCascades(State(), name);
      if name !in groups {
        return NotFound;
      }
      assert groups[name] <= users.Keys;
      DiscardGroupFrom(groups[name], name);
      groups := groups - {name};
      status := OK;
    }
  }
}

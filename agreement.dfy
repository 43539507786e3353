/**
 * The in-memory server and the ORM-backed application implement the same
 * directory. Reading the server's two maps as the ORM's three tables (a user
 * row per record, a group row per key of `groups`, a join row per name in a
 * record's group set), every handler of the server, started from a
 * consistent state, returns the status the ORM handler returns and commits
 * the tables the ORM handler commits, and the lookups answer alike.
 */
module Agreement {
  import opened Records
  import Server
  import Orm

  /** The server's maps read as the ORM's tables; join rows come from the user side. */
  function Abs(st: Server.Store): (db: Orm.Db)
    ensures db.users.Keys == st.users.Keys
    ensures forall u :: u in st.users ==> db.users[u] == Orm.Person(st.users[u].firstName, st.users[u].lastName)
    ensures db.groups == st.groups.Keys
    ensures forall u, g :: (u, g) in db.edges <==> u in st.users && g in st.users[u].groups
  {
    Orm.Db(map u | u in st.users :: Orm.Person(st.users[u].firstName, st.users[u].lastName),
           st.groups.Keys,
           set u, g | u in st.users && g in st.users[u].groups :: (u, g))
  }

  /**
   * On a consistent server state the join rows can be read off either map,
   * and they satisfy the ORM's foreign keys.
   */
  lemma AbsKeepsInv(st: Server.Store)
    requires Server.Inv(st)
    ensures Orm.Inv(Abs(st))
    ensures forall u, g :: (u, g) in Abs(st).edges <==> g in st.groups && u in st.groups[g]
  {
  }

  /** Two table states that agree row by row are equal. */
  lemma SameTables(x: Orm.Db, y: Orm.Db)
    requires x.users.Keys == y.users.Keys
    requires forall u :: u in x.users ==> x.users[u] == y.users[u]
    requires x.groups == y.groups
    requires forall u, g :: (u, g) in x.edges <==> (u, g) in y.edges
    ensures x == y
  {
    assert x.users == y.users;
    assert x.edges == y.edges by {
      forall e ensures e in x.edges <==> e in y.edges {
        var (u, g) := e;
      }
    }
  }

  /** Creating a user: same status, same tables. */
  lemma CreateUserAgrees(st: Server.Store, body: UserBody)
    requires Server.Inv(st)
    ensures Server.CreateUserStep(st, body).status == Orm.CreateUserStep(Abs(st), body).status
    ensures Abs(Server.CreateUserStep(st, body).next) == Orm.CreateUserStep(Abs(st), body).next
  {
    var s, o := Server.CreateUserStep(st, body), Orm.CreateUserStep(Abs(st), body);
    if s.status == Created {
      SameTables(Abs(s.next), o.next);
    }
  }

  /** Creating a named group: same status, same tables. */
  lemma CreateGroupAgrees(st: Server.Store, name: string)
    requires Server.Inv(st)
    ensures Server.CreateGroupStep(st, name).status == Orm.CreateGroupStep(Abs(st), Some(name)).status
    ensures Abs(Server.CreateGroupStep(st, name).next) == Orm.CreateGroupStep(Abs(st), Some(name)).next
  {
    var s, o := Server.CreateGroupStep(st, name), Orm.CreateGroupStep(Abs(st), Some(name));
    if s.status == Created {
      SameTables(Abs(s.next), o.next);
    }
  }

  /**
   * Updating a user: the server's explicit reconciliation of both maps
   * commits the tables the ORM's wholesale replacement of `user.groups` does.
   */
  lemma UpdateUserAgrees(st: Server.Store, userid: string, body: UserBody)
    requires Server.Inv(st)
    ensures Server.UpdateUserStep(st, userid, body).status == Orm.UpdateUserStep(Abs(st), userid, body).status
    ensures Abs(Server.UpdateUserStep(st, userid, body).next) == Orm.UpdateUserStep(Abs(st), userid, body).next
  {
    var s, o := Server.UpdateUserStep(st, userid, body), Orm.UpdateUserStep(Abs(st), userid, body);
    Server.UpdateUserReconciles(st, userid, body);
    if s.status == OK {
      var desired := Elems(body.groups.value);
      forall u, g ensures (u, g) in Abs(s.next).edges <==> (u, g) in o.next.edges {
        if u == userid {
          assert g in Orm.GroupsOf(o.next, userid) <==> g in desired;
        }
      }
      SameTables(Abs(s.next), o.next);
    }
  }

  /** Replacing a group's members: same status, same tables. */
  lemma UpdateMembershipAgrees(st: Server.Store, name: string, members: seq<string>)
    requires Server.Inv(st)
    requires name in st.groups ==> forall m :: m in members ==> m in st.users
    ensures Server.UpdateMembershipStep(st, name, members).status == Orm.UpdateMembershipStep(Abs(st), name, members).status
    ensures Abs(Server.UpdateMembershipStep(st, name, members).next) == Orm.UpdateMembershipStep(Abs(st), name, members).next
  {
    var s, o := Server.UpdateMembershipStep(st, name, members), Orm.UpdateMembershipStep(Abs(st), name, members);
    Server.UpdateMembershipReconciles(st, name, members);
    if s.status == OK {
      forall u, g ensures (u, g) in Abs(s.next).edges <==> (u, g) in o.next.edges {
        if g == name {
          assert u in Orm.MembersOf(o.next, name) <==> u in members;
        }
      }
      SameTables(Abs(s.next), o.next);
    }
  }

  /** Deleting a user: same status, same tables. */
  lemma DeleteUserAgrees(st: Server.Store, userid: string)
    requires Server.Inv(st)
    ensures Server.DeleteUserStep(st, userid).status == Orm.DeleteUserStep(Abs(st), userid).status
    ensures Abs(Server.DeleteUserStep(st, userid).next) == Orm.DeleteUserStep(Abs(st), userid).next
  {
    var s, o := Server.DeleteUserStep(st, userid), Orm.DeleteUserStep(Abs(st), userid);
    if s.status == OK {
      SameTables(Abs(s.next), o.next);
    }
  }

  /** Deleting a group: same status, same tables. */
  lemma DeleteGroupAgrees(st: Server.Store, name: string)
    requires Server.Inv(st)
    ensures Server.DeleteGroupStep(st, name).status == Orm.DeleteGroupStep(Abs(st), name).status
    ensures Abs(Server.DeleteGroupStep(st, name).next) == Orm.DeleteGroupStep(Abs(st), name).next
  {
    var s, o := Server.DeleteGroupStep(st, name), Orm.DeleteGroupStep(Abs(st), name);
    if s.status == OK {
      forall u, g ensures (u, g) in Abs(s.next).edges <==> (u, g) in o.next.edges {
        if g == name && u in st.users && name in st.users[u].groups {
          assert u in st.groups[name];
        }
      }
      SameTables(Abs(s.next), o.next);
    }
  }

  /** The lookups answer alike: the same user view and the same member set. */
  lemma RetrievalsAgree(st: Server.Store, userid: string, name: string)
    requires Server.Inv(st)
    ensures Server.RetrieveUser(st, userid) == Orm.RetrieveUser(Abs(st), userid)
    ensures Server.RetrieveGroupMembers(st, name) == Orm.RetrieveGroupMembers(Abs(st), name)
  {
    if userid in st.users {
      assert Orm.GroupsOf(Abs(st), userid) == st.users[userid].groups;
    }
    if name in st.groups {
      assert Orm.MembersOf(Abs(st), name) == st.groups[name];
    }
  }
}

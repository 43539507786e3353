/**
 * app/controllers.py as its lines are written where they differ from module
 * Orm: `update_group_membership` looks each listed userid up and appends the
 * result, so an unknown userid puts `None` into `group.users`, and the ORM
 * refuses to flush a collection holding `None`.
 */
module OrmDefects {
  import opened Records
  import Orm

  /** How the handler ends: it returns a status, or its commit fails and nothing is committed. */
  datatype Outcome = Returned(status: Status) | FlushFails

  /** An outcome together with the tables committed. */
  datatype Result = Result(outcome: Outcome, next: Orm.Db)

  /**
   * `update_group_membership` as written: 404 for an absent group; a list
   * naming an unknown userid makes the commit at line 141 fail with nothing
   * committed; a list of known userids behaves as module Orm says.
   */
  function UpdateMembershipAsWritten(db: Orm.Db, name: string, members: seq<string>): (r: Result)
    ensures name !in db.groups ==> r == Result(Returned(NotFound), db)
    ensures name in db.groups && (exists m :: m in members && m !in db.users) ==> r == Result(FlushFails, db)
    ensures name in db.groups && (forall m :: m in members ==> m in db.users) ==>
      r == Result(Returned(OK), Orm.UpdateMembershipStep(db, name, members).next)
  {
    if name !in db.groups then Result(Returned(NotFound), db)
    else if exists m :: m in members && m !in db.users then Result(FlushFails, db)
    else Result(Returned(OK), Orm.UpdateMembershipStep(db, name, members).next)
  }

  /** The listed userids that name existing users, in the request's order. */
  function Known(db: Orm.Db, members: seq<string>): (r: seq<string>)
    ensures forall m :: m in r <==> m in members && m in db.users
  {
    if members == [] then []
    else (if members[0] in db.users then [members[0]] else []) + Known(db, members[1..])
  }

  /**
   * The membership update with unknown userids dropped from the list, the
   * policy a caller can rely on: it always answers, 404 for an absent group
   * and otherwise 200 with the group holding exactly the listed users that
   * exist and every other group's rows as they were.
   */
  function UpdateMembershipDroppingUnknown(db: Orm.Db, name: string, members: seq<string>): (r: Orm.Step)
    ensures name !in db.groups ==> r == Orm.Step(NotFound, db)
    ensures name in db.groups ==>
      && r.status == OK
      && r.next.users == db.users
      && r.next.groups == db.groups
      && Orm.MembersOf(r.next, name) == Elems(members) * db.users.Keys
      && (forall u, g :: g != name ==> ((u, g) in r.next.edges <==> (u, g) in db.edges))
  {
    var known := Known(db, members);
    assert Elems(known) == Elems(members) * db.users.Keys;
    Orm.UpdateMembershipStep(db, name, known)
  }

  /**
   * Dropping unknown userids keeps the foreign keys, and on a list of known
   * userids it is exactly the update of module Orm.
   */
  lemma DroppingUnknownIsSafe(db: Orm.Db, name: string, members: seq<string>)
    requires Orm.Inv(db)
    ensures Orm.Inv(UpdateMembershipDroppingUnknown(db, name, members).next)
    ensures (forall m :: m in members ==> m in db.users) ==>
      UpdateMembershipDroppingUnknown(db, name, members) == Orm.UpdateMembershipStep(db, name, members)
  {
    var known := Known(db, members);
    Orm.UpdateMembershipKeepsInv(db, name, known);
    if (forall m :: m in members ==> m in db.users) && name in db.groups {
      assert Elems(known) == Elems(members);
    }
  }

  /**
   * PUT /groups/A naming jsmith and the unknown pparker on the test data: as
   * written the commit fails and A keeps jsmith and shill; dropping the
   * unknown userid answers 200 and leaves A holding jsmith alone.
   */
  lemma UnknownMemberFailsCommit()
    ensures var r := UpdateMembershipAsWritten(Orm.TestSeed(), "A", ["jsmith", "pparker"]);
      && r.outcome == FlushFails
      && Orm.MembersOf(r.next, "A") == {"jsmith", "shill"}
    ensures var s := UpdateMembershipDroppingUnknown(Orm.TestSeed(), "A", ["jsmith", "pparker"]);
      && s.status == OK
      && Orm.MembersOf(s.next, "A") == {"jsmith"}
  {
    var db := Orm.TestSeed();
    assert "pparker" in ["jsmith", "pparker"] && "pparker" !in db.users;
    Orm.SeededLookups();
    assert Elems(["jsmith", "pparker"]) * db.users.Keys == {"jsmith"};
  }
}

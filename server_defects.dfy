/**
 * server.py as its lines are written, where they differ from the corrected
 * handlers of module Server. Each as-written definition is set beside the
 * corrected one by a lemma that names an input on which they part.
 */
module ServerDefects {
  import opened Records
  import Server

  /** The Python exceptions the defects raise. */
  datatype PyError = KeyError | NameError | AttributeError

  /**
   * How a handler ends: it returns a status, it falls off its end and returns
   * `None` (which the web framework refuses as a response), or it raises.
   */
  datatype Outcome = Returned(status: Status) | ReturnedNone | Raised(error: PyError)

  /** An outcome together with the maps the handler leaves behind. */
  datatype Result = Result(outcome: Outcome, next: Server.Store)

  /** The result of a corrected handler, in the terms of this module. */
  function FromStep(s: Server.Step): Result
  {
    Result(Returned(s.status), s.next)
  }

  // ---------------------------------------------------------------------
  // create_new_user reads the userid before validating the record

  /**
   * `create_new_user` as written: line 25 indexes `user['userid']` before
   * line 26 checks the record, so a body without a userid raises KeyError
   * instead of returning 400; with a userid present it behaves as corrected.
   */
  function CreateUserAsWritten(st: Server.Store, body: UserBody): (r: Result)
    ensures body.userid.None? ==> r == Result(Raised(KeyError), st)
    ensures body.userid.Some? ==> r == FromStep(Server.CreateUserStep(st, body))
  {
    if body.userid.None? then Result(Raised(KeyError), st)
    else FromStep(Server.CreateUserStep(st, body))
  }

  /**
   * A record with names and groups but no userid: as written the handler
   * raises KeyError; the corrected handler answers 400 and changes nothing.
   */
  lemma MissingUseridRaises(st: Server.Store)
    ensures var body := UserBody(Some("Tony"), Some("Stark"), None, Some(["avengers"]));
      && CreateUserAsWritten(st, body).outcome == Raised(KeyError)
      && Server.CreateUserStep(st, body) == Server.Step(BadRequest, st)
  {
    var body := UserBody(Some("Tony"), Some("Stark"), None, Some(["avengers"]));
    ValidIffAllFieldsPresent(body);
  }

  // ---------------------------------------------------------------------
  // create_new_group indexes the body with an unbound name

  /**
   * `create_new_group` as written: line 106 evaluates `json[name]` where
   * `name` is bound nowhere, so every request raises NameError before the
   * logic of lines 107-110 runs, whatever the body holds.
   */
  function CreateGroupAsWritten(st: Server.Store, nameField: Option<string>): (r: Result)
    ensures r.outcome == Raised(NameError) && r.next == st
  {
    Result(Raised(NameError), st)
  }

  /**
   * No request creates a group as written, while the corrected logic creates
   * any group whose name is not yet taken.
   */
  lemma CreateGroupNeverCreates(st: Server.Store, name: string)
    requires name !in st.groups
    ensures CreateGroupAsWritten(st, Some(name)).next == st
    ensures Server.CreateGroupStep(st, name).status == Created
    ensures name in Server.CreateGroupStep(st, name).next.groups
  {
  }

  // ---------------------------------------------------------------------
  // delete_group has no return statement on success

  /**
   * `delete_group` as written: it answers 404 for an absent group, and
   * otherwise deletes the group and then falls off the end of the function.
   */
  function DeleteGroupAsWritten(st: Server.Store, name: string): (r: Result)
    ensures name !in st.groups ==> r == Result(Returned(NotFound), st)
    ensures name in st.groups ==> r == Result(ReturnedNone, Server.DeleteGroupStep(st, name).next)
  {
    if name !in st.groups then Result(Returned(NotFound), st)
    else Result(ReturnedNone, Server.DeleteGroupStep(st, name).next)
  }

  /**
   * Deleting an existing group: as written the maps are changed but the
   * handler returns no response; the corrected handler answers 200 for the
   * same change.
   */
  lemma DeleteGroupReturnsNothing(st: Server.Store, name: string)
    requires name in st.groups
    ensures DeleteGroupAsWritten(st, name).outcome == ReturnedNone
    ensures name !in DeleteGroupAsWritten(st, name).next.groups
    ensures FromStep(Server.DeleteGroupStep(st, name)) ==
            Result(Returned(OK), DeleteGroupAsWritten(st, name).next)
  {
  }

  // ---------------------------------------------------------------------
  // update_user stores the raw list in user.groups

  /** A Python collection object, as far as the handlers use one. */
  datatype PyCollection = PySet(items: set<string>) | PyList(elems: seq<string>)

  /** The result of calling a collection method. */
  datatype Attempt = Done(value: PyCollection) | Fails(error: PyError)

  /** `c.discard(x)`: a set method; a list has no attribute `discard`. */
  function Discard(c: PyCollection, x: string): (r: Attempt)
    ensures c.PyList? ==> r == Fails(AttributeError)
    ensures c.PySet? ==> r.Done? && r.value.PySet? && r.value.items == c.items - {x}
  {
    match c
    case PySet(items) => Done(PySet(items - {x}))
    case PyList(_) => Fails(AttributeError)
  }

  /** `c.difference(other)`: a set method; a list has no attribute `difference`. */
  function Difference(c: PyCollection, other: seq<string>): (r: Attempt)
    ensures c.PyList? ==> r == Fails(AttributeError)
    ensures c.PySet? ==> r.Done? && r.value.PySet? && r.value.items == c.items - Elems(other)
  {
    match c
    case PySet(items) => Done(PySet(items - Elems(other)))
    case PyList(_) => Fails(AttributeError)
  }

  /** `user.groups` after line 141 as written: the request's list object itself. */
  function StoredGroupsAsWritten(newGroups: seq<string>): (c: PyCollection)
    ensures c.PyList? && c.elems == newGroups
  {
    PyList(newGroups)
  }

  /**
   * After an update as written, the next handler that touches the user's
   * groups fails: `delete_group` (line 95) and a second `update_user`
   * (line 130) raise AttributeError. The corrected update stores the set of
   * the listed names, on which both calls succeed.
   */
  lemma StoredListBreaksLaterCalls(st: Server.Store, userid: string, body: UserBody, name: string)
    requires userid in st.users && IsValid(body)
    ensures Discard(StoredGroupsAsWritten(body.groups.value), name) == Fails(AttributeError)
    ensures Difference(StoredGroupsAsWritten(body.groups.value), []) == Fails(AttributeError)
    ensures var stored := Server.UpdateUserStep(st, userid, body).next.users[userid].groups;
      && stored == Elems(body.groups.value)
      && Discard(PySet(stored), name) == Done(PySet(stored - {name}))
      && Difference(PySet(stored), body.groups.value) == Done(PySet({}))
  {
  }

  // ---------------------------------------------------------------------
  // update_user overwrites the stored userid without re-keying

  /**
   * `update_user` as written: line 128 copies the body's userid into the
   * record, which stays filed under the old key.
   */
  function UpdateUserAsWritten(st: Server.Store, userid: string, body: UserBody): (r: Server.Step)
    ensures r.status == Server.UpdateUserStep(st, userid, body).status
    ensures r.status == OK ==> userid in r.next.users && r.next.users[userid].userid == body.userid.value
  {
    var s := Server.UpdateUserStep(st, userid, body);
    if s.status == OK then
      Server.Step(OK, s.next.(users := s.next.users[userid := s.next.users[userid].(userid := body.userid.value)]))
    else s
  }

  /**
   * Renaming jsmith to jdoe through PUT /users/jsmith: as written the record
   * under key jsmith then claims userid jdoe, the invariant fails and a
   * lookup of jsmith reports jdoe; the corrected update keeps jsmith and the
   * invariant.
   */
  lemma UseridOverwriteBreaksKey()
    ensures var body := UserBody(Some("Joe"), Some("Smith"), Some("jdoe"), Some(["admins", "users"]));
      var asWritten := UpdateUserAsWritten(Server.Seed(), "jsmith", body).next;
      var corrected := Server.UpdateUserStep(Server.Seed(), "jsmith", body).next;
      && !Server.Inv(asWritten)
      && Server.RetrieveUser(asWritten, "jsmith") ==
           Found(UserView("Joe", "Smith", "jdoe", {"admins", "users"}))
      && Server.Inv(corrected)
      && Server.RetrieveUser(corrected, "jsmith").value.userid == "jsmith"
  {
    var body := UserBody(Some("Joe"), Some("Smith"), Some("jdoe"), Some(["admins", "users"]));
    ValidIffAllFieldsPresent(body);
    Server.SeedInv();
    Server.UpdateUserReconciles(Server.Seed(), "jsmith", body);
    var asWritten := UpdateUserAsWritten(Server.Seed(), "jsmith", body).next;
    assert Elems(["admins", "users"]) == {"admins", "users"};
    assert asWritten.users["jsmith"].userid == "jdoe";
  }

  // ---------------------------------------------------------------------
  // The group route calls a misspelt handler

  /**
   * PUT /groups/<name> as written: line 57 calls `update_group_memebership`,
   * a name bound nowhere, so the request raises NameError and the maps stay
   * as they were.
   */
  function PutGroupAsWritten(st: Server.Store, name: string, members: seq<string>): (r: Result)
    ensures r.outcome == Raised(NameError) && r.next == st
  {
    Result(Raised(NameError), st)
  }

  /**
   * The membership update is out of reach as written: PUT /groups/A naming
   * jsmith changes nothing and raises, where the corrected call answers 200
   * and leaves A holding exactly jsmith.
   */
  lemma PutGroupNeverUpdates(st: Server.Store)
    requires "A" in st.groups && "jsmith" in st.users
    ensures PutGroupAsWritten(st, "A", ["jsmith"]).next == st
    ensures Server.UpdateMembershipStep(st, "A", ["jsmith"]).status == OK
    ensures Server.UpdateMembershipStep(st, "A", ["jsmith"]).next.groups["A"] == {"jsmith"}
  {
    assert Elems(["jsmith"]) == {"jsmith"};
  }
}

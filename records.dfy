/**
 * Request and response shapes shared by every draft of the directory
 * service: the decoded user record a client sends, its presence check, the
 * status codes the handlers return and the projection a lookup returns.
 */
module Records {

  datatype Option<T> = None | Some(value: T)

  /**
   * A decoded JSON user record. A field is `None` when its key is absent
   * from the request body; values are kept as the client sent them.
   */
  datatype UserBody = UserBody(
    firstName: Option<string>,
    lastName: Option<string>,
    userid: Option<string>,
    groups: Option<seq<string>>)

  /** The four keys every user record must carry. */
  const RequiredKeys: set<string> := {"first_name", "last_name", "userid", "groups"}

  /** The JSON keys present in a body. */
  function PresentKeys(b: UserBody): set<string>
  {
    (if b.firstName.Some? then {"first_name"} else {})
    + (if b.lastName.Some? then {"last_name"} else {})
    + (if b.userid.Some? then {"userid"} else {})
    + (if b.groups.Some? then {"groups"} else {})
  }

  /** `is_valid`: every required key is present; no value is inspected. */
  predicate IsValid(b: UserBody)
  {
    RequiredKeys <= PresentKeys(b)
  }

  /** A body is valid exactly when each of its four fields is present. */
  lemma ValidIffAllFieldsPresent(b: UserBody)
    ensures IsValid(b) <==>
      b.firstName.Some? && b.lastName.Some? && b.userid.Some? && b.groups.Some?
  {
    if !b.firstName.Some? { assert "first_name" !in PresentKeys(b); }
    if !b.lastName.Some? { assert "last_name" !in PresentKeys(b); }
    if !b.userid.Some? { assert "userid" !in PresentKeys(b); }
    if !b.groups.Some? { assert "groups" !in PresentKeys(b); }
  }

  /**
   * Validity depends on which keys are present only: two bodies with the same
   * keys are both valid or both invalid, and empty values are accepted.
   */
  lemma ValidityIgnoresValues(a: UserBody, b: UserBody)
    requires PresentKeys(a) == PresentKeys(b)
    ensures IsValid(a) == IsValid(b)
    ensures IsValid(UserBody(Some(""), Some(""), Some(""), Some([])))
  {
  }

  /** The elements of a JSON list, as Python's `set(list)` gives them. */
  function Elems(s: seq<string>): (r: set<string>)
    ensures forall x :: x in r <==> x in s
  {
    set x | x in s
  }

  /** The HTTP status codes the handlers return. */
  datatype Status = OK | Created | BadRequest | NotFound | Conflict
  {
    function Code(): int
    {
      match this
      case OK => 200
      case Created => 201
      case BadRequest => 400
      case NotFound => 404
      case Conflict => 409
    }
  }

  /** What a user lookup returns: the JSON object of `retrieve_user`, groups as a set. */
  datatype UserView = UserView(firstName: string, lastName: string, userid: string, groups: set<string>)

  /** The outcome of a lookup: 200 with a value, or 404. */
  datatype Lookup<T> = Found(value: T) | Missing
  {
    function Status(): Status
    {
      if Found? then OK else NotFound
    }
  }
}

/**
 The owner-scoped actions on a request: list, create, edit, delete and submit.
 Each one either returns the new state of the store or an error, in which
 case no table changes.
 */
module RequestController {
  import opened Results
  import opened Requests
  import opened RequestStore

  /** The comment every submit writes into the transition log. */
  const SubmitComment: string := "Request submitted for review"

  /** `index`: the ids of the actor's own requests that are not soft-deleted. */
  function Index(db: Db, actor: UserId): (r: set<RequestId>)
    ensures forall k :: k in r <==> Visible(db, k, actor, AllStatuses)
  {
    AllStatusesExhaustive();
    set k | k in db.requests && db.requests[k].owner == actor && db.requests[k].deletedAt.None?
  }

  /**
   `store`: validates that title and description are given, then inserts a
   row owned by the actor with every other column at its default.
   */
  function Store(db: Db, actor: UserId, title: Option<string>, description: Option<string>): (r: Result<(Db, RequestId)>)
    requires Valid(db)
    ensures r.Ok? <==> Present(title) && Present(description)
    ensures r.Err? ==> r.error == ValidationFailed
    ensures r.Ok? ==>
              var (db', id) := r.value;
              && id == db.nextId && db'.nextId == db.nextId + 1
              && id !in db.requests
              && db'.requests.Keys == db.requests.Keys + {id}
              && (forall k :: k in db.requests ==> db'.requests[k] == db.requests[k])
              && db'.transitions == db.transitions
              && Valid(db')
    ensures r.Ok? ==>
              var (db', id) := r.value;
              && IsFreshDraft(db'.requests[id])
              && db'.requests[id].owner == actor
              && db'.requests[id].title == title.value
              && db'.requests[id].description == description.value
  {
    if !(Present(title) && Present(description)) then Err(ValidationFailed)
    else
      var id := db.nextId;
      var row := NewRequest(id, title.value, description.value, actor);
      Ok((Put(db, row).(nextId := id + 1), id))
  }

  /**
   The optional fields of an edit. For each field, `None` means it was not
   sent, `Some(None)` that it was sent as null, and `Some(Some(v))` that it
   was sent with the value `v`.
   */
  datatype UpdateInput = UpdateInput(
    title: Option<Option<string>>,
    description: Option<Option<string>>,
    additionalDetails: Option<Option<string>>)

  /**
   `sometimes|required` on title and description: a field that is sent must be
   neither null nor blank. `sometimes|nullable` on the details accepts null.
   */
  predicate ValidEdit(input: UpdateInput) {
    && (input.title.Some? ==> Present(input.title.value))
    && (input.description.Some? ==> Present(input.description.value))
  }

  /** Two rows agree on everything except the three editable text columns. */
  predicate SameExceptText(a: Request, b: Request) {
    a == b.(title := a.title, description := a.description, additionalDetails := a.additionalDetails)
  }

  /**
   `update`: only the owner, only in draft or need_more_details; the lookup
   happens before validation, so a hidden row is reported as not found even
   when the input is also invalid.
   */
  function Update(db: Db, id: RequestId, actor: UserId, input: UpdateInput): (r: Result<Db>)
    ensures !Visible(db, id, actor, Editable) ==> r == Err(NotFound)
    ensures Visible(db, id, actor, Editable) && !ValidEdit(input) ==> r == Err(ValidationFailed)
    ensures r.Ok? <==> Visible(db, id, actor, Editable) && ValidEdit(input)
    ensures r.Ok? ==>
              && r.value.requests.Keys == db.requests.Keys
              && (forall k :: k in db.requests && k != id ==> r.value.requests[k] == db.requests[k])
              && r.value.transitions == db.transitions
              && r.value.nextId == db.nextId
    ensures r.Ok? ==>
              var before, after := db.requests[id], r.value.requests[id];
              && SameExceptText(before, after)
              && (input.title.Some? ==> input.title == Some(Some(after.title)))
              && (input.title.None? ==> after.title == before.title)
              && (input.description.Some? ==> input.description == Some(Some(after.description)))
              && (input.description.None? ==> after.description == before.description)
              && (input.additionalDetails.Some? ==> input.additionalDetails == Some(after.additionalDetails))
              && (input.additionalDetails.None? ==> after.additionalDetails == before.additionalDetails)
  {
    if !Visible(db, id, actor, Editable) then Err(NotFound)
    else if !ValidEdit(input) then Err(ValidationFailed)
    else
      var row := db.requests[id];
      var row' := row.(
        title := if input.title.Some? then input.title.value.value else row.title,
        description := if input.description.Some? then input.description.value.value else row.description,
        additionalDetails := if input.additionalDetails.Some? then input.additionalDetails.value else row.additionalDetails);
      Ok(db.(requests := db.requests[id := row']))
  }

  /** `destroy`: only the owner, only a draft; the row stays, marked deleted at `now`. */
  function Destroy(db: Db, id: RequestId, actor: UserId, now: Timestamp): (r: Result<Db>)
    ensures r.Ok? <==> Visible(db, id, actor, {Draft})
    ensures r.Err? ==> r.error == NotFound
    ensures r.Ok? ==>
              && r.value.requests.Keys == db.requests.Keys
              && (forall k :: k in db.requests && k != id ==> r.value.requests[k] == db.requests[k])
              && r.value.requests[id].deletedAt == Some(now)
              && r.value.requests[id].(deletedAt := None) == db.requests[id]
              && r.value.transitions == db.transitions
              && r.value.nextId == db.nextId
  {
    if !Visible(db, id, actor, {Draft}) then Err(NotFound)
    else Ok(db.(requests := db.requests[id := db.requests[id].(deletedAt := Some(now))]))
  }

  /**
   `submit`: the owner sends a draft, or a request sent back for details, to
   Department A. The row update and the log insert are two separate writes;
   the log records the literal `draft` as the status it came from.
   */
  function Submit(db: Db, departments: seq<Department>, id: RequestId, actor: UserId, now: Timestamp): (r: Result<Db>)
    ensures !Visible(db, id, actor, Editable) ==> r == Err(NotFound)
    ensures Visible(db, id, actor, Editable) && FindDepartmentA(departments).None? ==> r == Err(ConfigurationMissing)
    ensures r.Ok? <==> Visible(db, id, actor, Editable) && FindDepartmentA(departments).Some?
    ensures r.Ok? ==>
              && r.value.requests.Keys == db.requests.Keys
              && (forall k :: k in db.requests && k != id ==> r.value.requests[k] == db.requests[k])
              && r.value.nextId == db.nextId
    ensures r.Ok? ==>
              var a, before, after := FindDepartmentA(departments).value, db.requests[id], r.value.requests[id];
              && a.isDepartmentA
              && after.status == Pending
              && after.currentDepartment == Some(a.id)
              && after.submittedAt == Some(now)
              && after.currentUser == before.currentUser
              && after.workflowPath == before.workflowPath
              && after.(status := before.status, currentDepartment := before.currentDepartment, submittedAt := before.submittedAt) == before
    ensures r.Ok? ==>
              var a, n := FindDepartmentA(departments).value, |db.transitions|;
              && |r.value.transitions| == n + 1
              && r.value.transitions[..n] == db.transitions
              && r.value.transitions[n].request == id
              && r.value.transitions[n].action == Action.Submit
              && r.value.transitions[n].actionedBy == actor
              && r.value.transitions[n].toDepartment == Some(a.id)
              && r.value.transitions[n].fromStatus == Draft
              && r.value.transitions[n].toStatus == Pending
              && r.value.transitions[n].comments == Some(SubmitComment)
  {
    if !Visible(db, id, actor, Editable) then Err(NotFound)
    else
      match FindDepartmentA(departments)
      case None => Err(ConfigurationMissing)
      case Some(a) =>
        var row := db.requests[id].(currentDepartment := Some(a.id), status := Pending, submittedAt := Some(now));
        var updated := db.(requests := db.requests[id := row]);
        Ok(Record(updated, Transition(id, Some(a.id), actor, Action.Submit, Draft, Pending, Some(SubmitComment))))
  }

  /** No draft has been routed to a department yet. */
  predicate DraftsUnrouted(db: Db) {
    forall k :: k in db.requests && db.requests[k].status == Draft ==> db.requests[k].currentDepartment.None?
  }

  /** Every owner-scoped write keeps the store well formed and keeps drafts unrouted. */
  lemma OwnerActionsPreserveInvariants(db: Db, departments: seq<Department>, id: RequestId, actor: UserId,
                                       input: UpdateInput, title: Option<string>, description: Option<string>, now: Timestamp)
    requires Valid(db) && DraftsUnrouted(db)
    ensures Store(db, actor, title, description).Ok? ==>
              Valid(Store(db, actor, title, description).value.0) && DraftsUnrouted(Store(db, actor, title, description).value.0)
    ensures Update(db, id, actor, input).Ok? ==>
              Valid(Update(db, id, actor, input).value) && DraftsUnrouted(Update(db, id, actor, input).value)
    ensures Destroy(db, id, actor, now).Ok? ==>
              Valid(Destroy(db, id, actor, now).value) && DraftsUnrouted(Destroy(db, id, actor, now).value)
    ensures Submit(db, departments, id, actor, now).Ok? ==>
              Valid(Submit(db, departments, id, actor, now).value) && DraftsUnrouted(Submit(db, departments, id, actor, now).value)
  {
  }

  /** A request just created shows up in its owner's list and in nobody else's; other lists are unchanged. */
  lemma IndexAfterStore(db: Db, actor: UserId, title: Option<string>, description: Option<string>, other: UserId)
    requires Valid(db)
    requires Store(db, actor, title, description).Ok?
    ensures var (db', id) := Store(db, actor, title, description).value;
            && Index(db', actor) == Index(db, actor) + {id}
            && (other != actor ==> Index(db', other) == Index(db, other))
  {
    var (db', id) := Store(db, actor, title, description).value;
    assert Index(db', actor) == Index(db, actor) + {id};
  }

  /** A successful user delete empties their own list of requests and leaves every other user's list as it was. */
  lemma DeleteOwnerClearsIndex(db: Db, user: UserId, other: UserId)
    requires DeleteOwner(db, user).Ok?
    ensures Index(DeleteOwner(db, user).value, user) == {}
    ensures other != user ==> Index(DeleteOwner(db, user).value, other) == Index(db, other)
  {
    var db' := DeleteOwner(db, user).value;
    if other != user {
      assert Index(db', other) == Index(db, other);
    }
  }

  /**
   After a delete the request leaves its owner's list, and every later
   owner-scoped action on it (edit, delete, submit) is a not-found error.
   */
  lemma DestroyHidesRequest(db: Db, departments: seq<Department>, id: RequestId, actor: UserId, now: Timestamp,
                            input: UpdateInput, later: Timestamp)
    requires Destroy(db, id, actor, now).Ok?
    ensures var db' := Destroy(db, id, actor, now).value;
            && Index(db', actor) == Index(db, actor) - {id}
            && Update(db', id, actor, input) == Err(NotFound)
            && Destroy(db', id, actor, later) == Err(NotFound)
            && Submit(db', departments, id, actor, later) == Err(NotFound)
  {
    var db' := Destroy(db, id, actor, now).value;
    assert Index(db', actor) == Index(db, actor) - {id};
  }

  /** Applying the same edit twice has the effect of applying it once. */
  lemma UpdateIdempotent(db: Db, id: RequestId, actor: UserId, input: UpdateInput)
    requires Update(db, id, actor, input).Ok?
    ensures Update(Update(db, id, actor, input).value, id, actor, input) == Update(db, id, actor, input)
  {
    var db' := Update(db, id, actor, input).value;
    var db'' := Update(db', id, actor, input).value;
    assert db''.requests[id] == db'.requests[id];
    assert db''.requests == db'.requests;
  }

  /**
   Resubmitting a request that was sent back for more details succeeds, and its
   log record still names `draft` as the status it left.
   */
  lemma ResubmitLogsDraft(db: Db, departments: seq<Department>, id: RequestId, actor: UserId, now: Timestamp)
    requires Visible(db, id, actor, {NeedMoreDetails})
    requires FindDepartmentA(departments).Some?
    ensures Submit(db, departments, id, actor, now).Ok?
    ensures var log := Submit(db, departments, id, actor, now).value.transitions;
            log[|log| - 1].fromStatus == Draft != db.requests[id].status
  {
  }

  /** A successful submit logs exactly one record; store, update and delete log none. */
  lemma LogGrowsOnlyBySubmit(db: Db, departments: seq<Department>, id: RequestId, actor: UserId, now: Timestamp,
                             input: UpdateInput, title: Option<string>, description: Option<string>)
    requires Valid(db)
    ensures Store(db, actor, title, description).Ok? ==>
              Store(db, actor, title, description).value.0.transitions == db.transitions
    ensures Submit(db, departments, id, actor, now).Ok? ==>
              |Submit(db, departments, id, actor, now).value.transitions| == |db.transitions| + 1
    ensures Update(db, id, actor, input).Ok? ==> Update(db, id, actor, input).value.transitions == db.transitions
    ensures Destroy(db, id, actor, now).Ok? ==> Destroy(db, id, actor, now).value.transitions == db.transitions
  {
  }

  /**
   `required` trims before it checks: a blank title or description is refused
   on create, and on edit a title sent as null or blank is refused while one
   left out keeps its old value.
   */
  lemma RequiredRejectsBlank(db: Db, actor: UserId, id: RequestId)
    requires Valid(db)
    requires Visible(db, id, actor, Editable)
    ensures Store(db, actor, Some(" \t"), Some("x")) == Err(ValidationFailed)
    ensures Store(db, actor, Some(" x "), Some("x")).Ok?
    ensures Update(db, id, actor, UpdateInput(Some(None), None, None)) == Err(ValidationFailed)
    ensures Update(db, id, actor, UpdateInput(Some(Some("\n")), None, None)) == Err(ValidationFailed)
    ensures Update(db, id, actor, UpdateInput(None, None, Some(None))).Ok?
  {
    assert !Blank(" x ") by { assert " x "[1] == 'x'; }
    assert !Blank("x") by { assert "x"[0] == 'x'; }
  }
}

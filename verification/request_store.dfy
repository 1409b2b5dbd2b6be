/**
 The `requests` table keyed by id, together with the transition log, as the
 owner-scoped controller actions see them.
 */
module RequestStore {
  import opened Results
  import opened Requests

  /** The rows of `requests` (soft-deleted ones included), the transition log and the next auto-increment id. */
  datatype Db = Db(requests: map<RequestId, Request>, transitions: seq<Transition>, nextId: nat)

  /** Every row sits under its own id and below the auto-increment counter. */
  predicate Valid(db: Db) {
    forall k :: k in db.requests ==> k < db.nextId && db.requests[k].id == k
  }

  /** The statuses in which the owner may still edit or submit a request. */
  const Editable: set<Status> := {Draft, NeedMoreDetails}

  /**
   The owner-scoped `firstOrFail` query: row `id` exists, belongs to `actor`,
   is not soft-deleted and has one of the `allowed` statuses.
   */
  predicate Visible(db: Db, id: RequestId, actor: UserId, allowed: set<Status>) {
    && id in db.requests
    && db.requests[id].owner == actor
    && db.requests[id].deletedAt.None?
    && db.requests[id].status in allowed
  }

  /** Writes back one row under its id. */
  function Put(db: Db, r: Request): Db {
    db.(requests := db.requests[r.id := r])
  }

  /** Appends one record to the transition log. */
  function Record(db: Db, t: Transition): Db {
    db.(transitions := db.transitions + [t])
  }

  /**
   Whether a row that survives the deletion of `user` still names them as its
   current assignee; `current_user_id` has no delete action, so such a row
   blocks the delete.
   */
  predicate AssignedElsewhere(db: Db, user: UserId) {
    exists k :: k in db.requests && db.requests[k].owner != user && db.requests[k].currentUser == Some(user)
  }

  /**
   Deleting a user. The `onDelete('cascade')` on `requests.user_id` removes,
   for good, every request they own; the plain foreign key on
   `current_user_id` refuses the whole delete while any other request still
   has them as its assignee. Soft-deleted rows are still rows, so they count
   on both sides.
   */
  function DeleteOwner(db: Db, user: UserId): (r: Result<Db>)
    ensures r.Err? <==> AssignedElsewhere(db, user)
    ensures r.Err? ==> r.error == StillReferenced
    ensures r.Ok? ==> forall k :: k in r.value.requests <==> k in db.requests && db.requests[k].owner != user
    ensures r.Ok? ==> forall k :: k in r.value.requests ==> r.value.requests[k] == db.requests[k]
    ensures r.Ok? ==> forall k :: k in r.value.requests ==> r.value.requests[k].currentUser != Some(user)
    ensures r.Ok? ==> r.value.nextId == db.nextId
    ensures r.Ok? && Valid(db) ==> Valid(r.value)
  {
    if AssignedElsewhere(db, user) then Err(StillReferenced)
    else Ok(db.(requests := map k | k in db.requests && db.requests[k].owner != user :: db.requests[k]))
  }
}

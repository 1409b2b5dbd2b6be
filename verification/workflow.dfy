/**
 The routing actions of the Department A and department controllers, which
 are not part of this model, described only by what the workflow feature
 tests assert about the request afterwards, together with the test scenarios
 that chain them with the owner-scoped actions.
 */
module Workflow {
  import opened Results
  import opened Requests
  import opened RequestStore
  import opened RequestController

  /** assign-path: the request is in review on the chosen path. */
  predicate AssignPathPinned(after: Request, path: PathId) {
    after.status == InReview && after.workflowPath == Some(path)
  }

  /** reject: the request is rejected and keeps the reason given. */
  predicate RejectPinned(after: Request, reason: string) {
    after.status == Rejected && after.rejectionReason == Some(reason)
  }

  /** request-details: the request waits for more details from its owner. */
  predicate RequestDetailsPinned(after: Request) {
    after.status == NeedMoreDetails
  }

  /** assign-employee: the chosen employee is the request's current user. */
  predicate AssignEmployeePinned(after: Request, employee: UserId) {
    after.currentUser == Some(employee)
  }

  /** return-to-dept-a: the request is pending again, at Department A. */
  predicate ReturnToDepartmentAPinned(after: Request, departmentA: DepartmentId) {
    after.status == Pending && after.currentDepartment == Some(departmentA)
  }

  /** A row the owner can no longer edit refuses every owner-scoped write, whoever asks. */
  lemma {:induction false} OwnerLockedOut(db: Db, departments: seq<Department>, id: RequestId, actor: UserId,
                                          input: UpdateInput, now: Timestamp)
    requires id in db.requests && db.requests[id].status !in Editable
    ensures Update(db, id, actor, input) == Err(NotFound)
    ensures Destroy(db, id, actor, now) == Err(NotFound)
    ensures RequestController.Submit(db, departments, id, actor, now) == Err(NotFound)
  {
    assert !Visible(db, id, actor, Editable);
    assert !Visible(db, id, actor, {Draft});
  }

  /** Creating a request and submitting it leaves it pending at Department A, with one record in the log. */
  lemma CreateAndSubmit(db: Db, departments: seq<Department>, user: UserId,
                        title: Option<string>, description: Option<string>, now: Timestamp)
    requires Valid(db)
    requires Present(title) && Present(description)
    requires FindDepartmentA(departments).Some?
    ensures Store(db, user, title, description).Ok?
    ensures var (db1, id) := Store(db, user, title, description).value;
            && RequestController.Submit(db1, departments, id, user, now).Ok?
            && RequestController.Submit(db1, departments, id, user, now).value.requests[id].status == Pending
            && RequestController.Submit(db1, departments, id, user, now).value.requests[id].currentDepartment ==
                 Some(FindDepartmentA(departments).value.id)
            && |RequestController.Submit(db1, departments, id, user, now).value.transitions| == |db.transitions| + 1
  {
  }

  /** After assign-path the request is in review on that path, and its owner can no longer edit, delete or resubmit it. */
  lemma AssignPathScenario(db: Db, departments: seq<Department>, after: Request, path: PathId,
                           actor: UserId, input: UpdateInput, now: Timestamp)
    requires AssignPathPinned(after, path)
    ensures var db' := Put(db, after);
            && db'.requests[after.id].status == InReview
            && db'.requests[after.id].workflowPath == Some(path)
            && Update(db', after.id, actor, input) == Err(NotFound)
            && Destroy(db', after.id, actor, now) == Err(NotFound)
            && RequestController.Submit(db', departments, after.id, actor, now) == Err(NotFound)
  {
    OwnerLockedOut(Put(db, after), departments, after.id, actor, input, now);
  }

  /** After reject the request is rejected with the given reason, and its owner can no longer edit or resubmit it. */
  lemma RejectScenario(db: Db, departments: seq<Department>, after: Request, reason: string,
                       actor: UserId, input: UpdateInput, now: Timestamp)
    requires RejectPinned(after, reason)
    ensures var db' := Put(db, after);
            && db'.requests[after.id].status == Rejected
            && db'.requests[after.id].rejectionReason == Some(reason)
            && Update(db', after.id, actor, input) == Err(NotFound)
            && RequestController.Submit(db', departments, after.id, actor, now) == Err(NotFound)
  {
    OwnerLockedOut(Put(db, after), departments, after.id, actor, input, now);
  }

  /**
   After request-details the owner may edit the request again and resubmit it,
   which routes it back to Department A; the log records the resubmission as
   leaving `draft`.
   */
  lemma RequestDetailsScenario(db: Db, departments: seq<Department>, after: Request,
                               input: UpdateInput, now: Timestamp)
    requires RequestDetailsPinned(after)
    requires after.deletedAt.None?
    requires ValidEdit(input)
    requires FindDepartmentA(departments).Some?
    ensures var db' := Put(db, after);
            && Update(db', after.id, after.owner, input).Ok?
            && RequestController.Submit(db', departments, after.id, after.owner, now).Ok?
            && RequestController.Submit(db', departments, after.id, after.owner, now).value.requests[after.id].status == Pending
            && RequestController.Submit(db', departments, after.id, after.owner, now).value.requests[after.id].currentDepartment ==
                 Some(FindDepartmentA(departments).value.id)
            && RequestController.Submit(db', departments, after.id, after.owner, now).value.transitions[|db'.transitions|].fromStatus == Draft
  {
    var db' := Put(db, after);
    assert Visible(db', after.id, after.owner, Editable);
  }

  /**
   After assign-employee the chosen employee is the request's current user, so
   while the request lives, deleting that employee's account is refused: the
   assignee column has no delete action.
   */
  lemma AssignEmployeeScenario(db: Db, after: Request, employee: UserId)
    requires AssignEmployeePinned(after, employee)
    requires after.owner != employee
    ensures Put(db, after).requests[after.id].currentUser == Some(employee)
    ensures DeleteOwner(Put(db, after), employee) == Err(StillReferenced)
  {
    assert Put(db, after).requests[after.id] == after;
  }

  /** After return-to-dept-a the request is pending at Department A, and its owner still cannot edit it. */
  lemma ReturnToDepartmentAScenario(db: Db, departments: seq<Department>, after: Request,
                                    actor: UserId, input: UpdateInput, now: Timestamp)
    requires FindDepartmentA(departments).Some?
    requires ReturnToDepartmentAPinned(after, FindDepartmentA(departments).value.id)
    ensures var db' := Put(db, after);
            && db'.requests[after.id].status == Pending
            && db'.requests[after.id].currentDepartment == Some(FindDepartmentA(departments).value.id)
            && Update(db', after.id, actor, input) == Err(NotFound)
  {
    OwnerLockedOut(Put(db, after), departments, after.id, actor, input, now);
  }

  /**
   The full lifecycle: create, submit, assign-path, assign-employee and
   return-to-dept-a end with the request pending at Department A; the
   owner-scoped steps log exactly one record, the submit.
   */
  lemma EndToEnd(db: Db, departments: seq<Department>, user: UserId,
                 title: Option<string>, description: Option<string>, now: Timestamp,
                 path: PathId, employee: UserId, afterPath: Request, afterEmployee: Request, afterReturn: Request)
    requires Valid(db)
    requires Present(title) && Present(description)
    requires FindDepartmentA(departments).Some?
    requires AssignPathPinned(afterPath, path)
    requires AssignEmployeePinned(afterEmployee, employee)
    requires ReturnToDepartmentAPinned(afterReturn, FindDepartmentA(departments).value.id)
    requires afterPath.id == afterEmployee.id == afterReturn.id
    requires afterPath.id == db.nextId
    ensures Store(db, user, title, description).Ok?
    ensures var (db1, id) := Store(db, user, title, description).value;
            && RequestController.Submit(db1, departments, id, user, now).Ok?
            && var db2 := RequestController.Submit(db1, departments, id, user, now).value;
            && db2.requests[id].status == Pending
            && |db2.transitions| == |db.transitions| + 1
            && Put(db2, afterPath).requests[id].status == InReview
            && Put(Put(db2, afterPath), afterEmployee).requests[id].currentUser == Some(employee)
            && var db5 := Put(Put(Put(db2, afterPath), afterEmployee), afterReturn);
            && db5.requests[id].status == Pending
            && db5.requests[id].currentDepartment == Some(FindDepartmentA(departments).value.id)
  {
    CreateAndSubmit(db, departments, user, title, description, now);
  }

}

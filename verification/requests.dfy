/**
 The request record as the `requests` table stores it, the departments the
 routing reads, and the append-only transition log.
 */
module Requests {
  import opened Results

  type UserId = nat
  type DepartmentId = nat
  type PathId = nat
  type RequestId = nat

  /** A point in time; operations that stamp one take the clock reading as an input. */
  type Timestamp = nat

  /** The seven values of the `status` enum column. */
  datatype Status = Draft | Pending | InReview | NeedMoreDetails | Approved | Rejected | Completed

  /** Every value the `status` column can hold. */
  const AllStatuses: set<Status> := {Draft, Pending, InReview, NeedMoreDetails, Approved, Rejected, Completed}

  /** The enum has no value outside the seven listed ones. */
  lemma AllStatusesExhaustive()
    ensures forall s: Status :: s in AllStatuses
  {
    forall s: Status
      ensures s in AllStatuses
    {
      match s
      case Draft =>
      case Pending =>
      case InReview =>
      case NeedMoreDetails =>
      case Approved =>
      case Rejected =>
      case Completed =>
    }
  }

  /** The column default of `status`. */
  const DefaultStatus: Status := Draft

  /** The string the enum column stores for each status. */
  function StatusName(s: Status): string {
    match s
    case Draft => "draft"
    case Pending => "pending"
    case InReview => "in_review"
    case NeedMoreDetails => "need_more_details"
    case Approved => "approved"
    case Rejected => "rejected"
    case Completed => "completed"
  }

  /** Reads a stored enum value back; the column accepts exactly the seven names. */
  function ParseStatus(name: string): (r: Option<Status>)
    ensures r.Some? ==> StatusName(r.value) == name
    ensures r.None? <==> forall s: Status :: StatusName(s) != name
  {
    if name == "draft" then Some(Draft)
    else if name == "pending" then Some(Pending)
    else if name == "in_review" then Some(InReview)
    else if name == "need_more_details" then Some(NeedMoreDetails)
    else if name == "approved" then Some(Approved)
    else if name == "rejected" then Some(Rejected)
    else if name == "completed" then Some(Completed)
    else None
  }

  /** Every status survives a store-and-load of the enum column. */
  lemma StatusRoundTrip(s: Status)
    ensures ParseStatus(StatusName(s)) == Some(s)
    ensures forall t: Status :: StatusName(t) == StatusName(s) ==> t == s
  {
  }

  /** One row of `requests`. The owner is mandatory; every reference and timestamp after it is nullable. */
  datatype Request = Request(
    id: RequestId,
    title: string,
    description: string,
    owner: UserId,
    currentDepartment: Option<DepartmentId>,
    currentUser: Option<UserId>,
    workflowPath: Option<PathId>,
    status: Status,
    rejectionReason: Option<string>,
    additionalDetails: Option<string>,
    submittedAt: Option<Timestamp>,
    completedAt: Option<Timestamp>,
    deletedAt: Option<Timestamp>)

  /** The row the database builds when only the mandatory columns are given. */
  function NewRequest(id: RequestId, title: string, description: string, owner: UserId): Request {
    Request(id, title, description, owner, None, None, None, DefaultStatus, None, None, None, None, None)
  }

  /** A row with the default status and no routing, decision or timestamps yet. */
  predicate IsFreshDraft(r: Request) {
    && r.status == Draft
    && r.currentDepartment.None? && r.currentUser.None? && r.workflowPath.None?
    && r.rejectionReason.None? && r.additionalDetails.None?
    && r.submittedAt.None? && r.completedAt.None? && r.deletedAt.None?
  }

  /** The routing-relevant columns of a department row. */
  datatype Department = Department(id: DepartmentId, code: string, isDepartmentA: bool)

  /** Position of the first department flagged as Department A, or the length when there is none. */
  function DepartmentAIndex(departments: seq<Department>): (i: nat)
    ensures i <= |departments|
    ensures i < |departments| ==> departments[i].isDepartmentA
    ensures forall j :: 0 <= j < i ==> !departments[j].isDepartmentA
  {
    if |departments| == 0 then 0
    else if departments[0].isDepartmentA then 0
    else 1 + DepartmentAIndex(departments[1..])
  }

  /** `Department::where('is_department_a', true)->first()`, in table order. */
  function FindDepartmentA(departments: seq<Department>): (r: Option<Department>)
    ensures r.Some? ==> r.value in departments && r.value.isDepartmentA
    ensures r.None? <==> forall d :: d in departments ==> !d.isDepartmentA
  {
    var i := DepartmentAIndex(departments);
    if i < |departments| then Some(departments[i]) else None
  }

  /** When exactly one department holds the flag, the lookup returns that department. */
  lemma FindUniqueDepartmentA(departments: seq<Department>, a: Department)
    requires a in departments && a.isDepartmentA
    requires forall d :: d in departments && d.isDepartmentA ==> d == a
    ensures FindDepartmentA(departments) == Some(a)
  {
  }

  /** The action names the routes expose. */
  datatype Action =
    | Submit | AssignPath | Reject | RequestDetails | Complete | ReturnToPrevious
    | SubmitEvaluation | AssignEmployee | ReturnToManager | ReturnToDepartmentA

  /** One row of the append-only transition log. */
  datatype Transition = Transition(
    request: RequestId,
    toDepartment: Option<DepartmentId>,
    actionedBy: UserId,
    action: Action,
    fromStatus: Status,
    toStatus: Status,
    comments: Option<string>)
}

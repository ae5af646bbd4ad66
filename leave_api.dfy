/**
 * The leave controller (backend/src/leave/leave.controller.ts): route
 * handlers that turn query strings, path segments and bodies into service
 * calls. Reads are functions of the service's current rows; the handlers
 * that change the table are methods on the service object.
 */
module LeaveApi {
  import opened Common
  import opened PathParam
  import Leave

  type Record = Leave.Record

  /**
   * GET /leaves?status= (lines 16-22): a non-empty status lists the requests
   * in that status, anything else lists every request; newest first either way.
   */
  function FindAll(rows: seq<Record>, status: Option<string>): (r: seq<Record>)
    ensures Truthy(status) ==> forall x: Record ::
      multiset(r)[x] == if x.status == status.value then multiset(rows)[x] else 0
    ensures !Truthy(status) ==> multiset(r) == multiset(rows)
    ensures forall i, j :: 0 <= i < j < |r| ==> r[i].createdAt >= r[j].createdAt
  {
    if Truthy(status) then Leave.FindByStatus(rows, status.value) else Leave.FindAll(rows)
  }

  /** An empty status filter is no filter at all. */
  lemma EmptyStatusListsAll(rows: seq<Record>)
    ensures FindAll(rows, Some("")) == FindAll(rows, None)
  {
  }

  /** GET /leaves/:id (lines 24-27). */
  function FindOne(rows: seq<Record>, id: string): (r: Result<Record>)
    ensures r.Ok? <==> ToId(id).Some? && exists k :: 0 <= k < |rows| && rows[k].id == ToId(id).value
    ensures r.Err? ==> r.error == NotFound
    ensures r.Ok? ==> r.value in rows && r.value.id == ToId(id).value
  {
    match ToId(id)
    case None => Err(NotFound)
    case Some(n) => Leave.FindOne(rows, n)
  }

  /** A client's request for a numeric id is answered by the service's lookup of that id. */
  lemma FindOneDecimal(rows: seq<Record>, id: nat)
    ensures FindOne(rows, Decimal(id)) == Leave.FindOne(rows, id)
  {
    ToIdDecimal(id);
  }

  /** GET /leaves/employee/:employeeId (lines 39-42); NaN matches no employee. */
  function FindByEmployee(rows: seq<Record>, employeeId: string): (r: seq<Record>)
    ensures ToId(employeeId).None? ==> r == []
    ensures ToId(employeeId).Some? ==> forall x: Record ::
      multiset(r)[x] == if x.employeeId == ToId(employeeId).value then multiset(rows)[x] else 0
  {
    match ToId(employeeId)
    case None => []
    case Some(n) => Leave.FindByEmployee(rows, n)
  }

  datatype ApproveBody = ApproveBody(approvedBy: int)
  datatype RejectBody = RejectBody(rejectionReason: string)

  /** POST /leaves: the body reaches the service unchanged, so only the service sets the day count (lines 11-14). */
  method Create(svc: Leave.LeaveService, body: Leave.Draft, now: int) returns (r: Result<Record>)
    requires svc.Valid()
    modifies svc
    ensures svc.Valid()
    ensures Applied(Leave.Created(old(svc.Snapshot()), body, now), old(svc.Snapshot()), svc.Snapshot(), r)
  {
    r := svc.Create(body, now);
  }

  /** PATCH /leaves/:id (lines 29-32); a NaN id updates nothing and is then not found. */
  method Update(svc: Leave.LeaveService, id: string, body: Leave.Patch) returns (r: Result<Record>)
    requires svc.Valid()
    modifies svc
    ensures svc.Valid()
    ensures ToId(id).None? ==> svc.Snapshot() == old(svc.Snapshot()) && r == Err(NotFound)
    ensures ToId(id).Some? ==>
      Applied(Leave.Updated(old(svc.Snapshot()), ToId(id).value, body), old(svc.Snapshot()), svc.Snapshot(), r)
  {
    match ToId(id)
    case None => r := Err(NotFound);
    case Some(n) => r := svc.Update(n, body);
  }

  /** DELETE /leaves/:id (lines 34-37); a NaN id deletes nothing and is reported as not found. */
  method Remove(svc: Leave.LeaveService, id: string) returns (r: Result<()>)
    requires svc.Valid()
    modifies svc
    ensures svc.Valid()
    ensures ToId(id).None? ==> svc.Snapshot() == old(svc.Snapshot()) && r == Err(NotFound)
    ensures ToId(id).Some? ==>
      AppliedVoid(Leave.Removed(old(svc.Snapshot()), ToId(id).value), old(svc.Snapshot()), svc.Snapshot(), r)
  {
    match ToId(id)
    case None => r := Err(NotFound);
    case Some(n) => r := svc.Remove(n);
  }

  /** POST /leaves/:id/approve: the numeric id and the body's approver reach the service (lines 44-47). */
  method Approve(svc: Leave.LeaveService, id: string, body: ApproveBody, now: int) returns (r: Result<Record>)
    requires svc.Valid()
    modifies svc
    ensures svc.Valid()
    ensures ToId(id).None? ==> svc.Snapshot() == old(svc.Snapshot()) && r == Err(NotFound)
    ensures ToId(id).Some? ==>
      Applied(Leave.Approved(old(svc.Snapshot()), ToId(id).value, body.approvedBy, now),
              old(svc.Snapshot()), svc.Snapshot(), r)
  {
    match ToId(id)
    case None => r := Err(NotFound);
    case Some(n) => r := svc.Approve(n, body.approvedBy, now);
  }

  /** POST /leaves/:id/reject: the numeric id and the body's reason reach the service (lines 49-52). */
  method Reject(svc: Leave.LeaveService, id: string, body: RejectBody) returns (r: Result<Record>)
    requires svc.Valid()
    modifies svc
    ensures svc.Valid()
    ensures ToId(id).None? ==> svc.Snapshot() == old(svc.Snapshot()) && r == Err(NotFound)
    ensures ToId(id).Some? ==>
      Applied(Leave.Rejected(old(svc.Snapshot()), ToId(id).value, body.rejectionReason),
              old(svc.Snapshot()), svc.Snapshot(), r)
  {
    match ToId(id)
    case None => r := Err(NotFound);
    case Some(n) => r := svc.Reject(n, body.rejectionReason);
  }
}

/**
 * The attendance controller (backend/src/attendance/attendance.controller.ts):
 * route handlers that turn query strings, path segments and bodies into
 * service calls. Reads are functions of the service's current rows; the
 * handlers that change the table are methods on the service object.
 */
module AttendanceApi {
  import opened Common
  import opened Clock
  import opened PathParam
  import Attendance

  type Row = Attendance.Row

  /**
   * GET /attendance. `startDate` and `endDate` are the query values as
   * instants; None is a value that is absent or empty, which JavaScript
   * treats as false. With both present the bounds are widened to the start
   * of the first day and the last millisecond of the second.
   */
  function FindAll(rows: seq<Row>, startDate: Option<int>, endDate: Option<int>): (r: seq<Row>)
    ensures startDate.None? || endDate.None? ==> r == rows
    ensures forall i, j :: startDate.Some? && endDate.Some? && 0 <= i < j < |r| ==> r[i].date >= r[j].date
  {
    if startDate.Some? && endDate.Some? then
      Attendance.FindByDateRange(rows, StartOfDay(startDate.value), EndOfDay(endDate.value))
    else
      Attendance.FindAll(rows)
  }

  /** A ranged listing holds exactly the rows whose day lies between the two days, both included. */
  lemma RangeIsWholeDays(rows: seq<Row>, startDate: int, endDate: int)
    ensures var r := FindAll(rows, Some(startDate), Some(endDate));
      forall x :: multiset(r)[x]
        == if StartOfDay(startDate) <= StartOfDay(x.date) <= StartOfDay(endDate) then multiset(rows)[x] else 0
  {
    forall x: Row {
      WidenedBetween(startDate, endDate, x.date);
    }
  }

  /** Asking for one day returns every row dated that day, whatever its time of day. */
  lemma OneDayRange(rows: seq<Row>, day: int, x: Row)
    requires x in rows && StartOfDay(x.date) == StartOfDay(day)
    ensures x in FindAll(rows, Some(day), Some(day))
  {
    RangeIsWholeDays(rows, day, day);
    assert multiset(rows)[x] > 0;
  }

  /** GET /attendance/:id: the segment converted with `+` (lines 28-31). */
  function FindOne(rows: seq<Row>, id: string): (r: Result<Row>)
    ensures r.Ok? <==> ToId(id).Some? && exists k :: 0 <= k < |rows| && rows[k].id == ToId(id).value
    ensures r.Err? ==> r.error == NotFound
    ensures r.Ok? ==> r.value in rows && r.value.id == ToId(id).value
  {
    match ToId(id)
    case None => Err(NotFound)
    case Some(n) => Attendance.FindOne(rows, n)
  }

  /** A client's request for a numeric id is answered by the service's lookup of that id. */
  lemma FindOneDecimal(rows: seq<Row>, id: nat)
    ensures FindOne(rows, Decimal(id)) == Attendance.FindOne(rows, id)
  {
    ToIdDecimal(id);
  }

  /** GET /attendance/employee/:employeeId (lines 43-46); NaN matches no employee. */
  function FindByEmployee(rows: seq<Row>, employeeId: string): (r: seq<Row>)
    ensures ToId(employeeId).None? ==> r == []
    ensures ToId(employeeId).Some? ==> forall x: Row ::
      multiset(r)[x] == if x.employeeId == ToId(employeeId).value then multiset(rows)[x] else 0
  {
    match ToId(employeeId)
    case None => []
    case Some(n) => Attendance.FindByEmployee(rows, n)
  }

  datatype CheckInBody = CheckInBody(employeeId: int, checkInTime: string)
  datatype CheckOutBody = CheckOutBody(employeeId: int, checkOutTime: string)

  /** POST /attendance/check-in: the body's employee and time reach the service unchanged (lines 48-51). */
  method CheckIn(svc: Attendance.AttendanceService, body: CheckInBody, now: int) returns (saved: Row)
    requires svc.Valid()
    modifies svc
    ensures svc.Valid()
    ensures (svc.Snapshot(), saved) == Attendance.CheckedIn(old(svc.Snapshot()), body.employeeId, body.checkInTime, now)
  {
    saved := svc.CheckIn(body.employeeId, body.checkInTime, now);
  }

  /** POST /attendance/check-out (lines 53-56). */
  method CheckOut(svc: Attendance.AttendanceService, body: CheckOutBody, now: int) returns (r: Result<Row>)
    requires svc.Valid()
    modifies svc
    ensures svc.Valid()
    ensures Applied(Attendance.CheckedOut(old(svc.Snapshot()), body.employeeId, body.checkOutTime, now),
                               old(svc.Snapshot()), svc.Snapshot(), r)
  {
    r := svc.CheckOut(body.employeeId, body.checkOutTime, now);
  }

  /** POST /attendance: the body is inserted as it is (lines 11-14). */
  method Create(svc: Attendance.AttendanceService, body: Attendance.Draft) returns (r: Result<Row>)
    requires svc.Valid()
    modifies svc
    ensures svc.Valid()
    ensures Applied(Attendance.Created(old(svc.Snapshot()), body), old(svc.Snapshot()), svc.Snapshot(), r)
  {
    r := svc.Create(body);
  }

  /** PATCH /attendance/:id (lines 33-36); a NaN id updates nothing and is then not found. */
  method Update(svc: Attendance.AttendanceService, id: string, body: Attendance.Patch) returns (r: Result<Row>)
    requires svc.Valid()
    modifies svc
    ensures svc.Valid()
    ensures ToId(id).None? ==> svc.Snapshot() == old(svc.Snapshot()) && r == Err(NotFound)
    ensures ToId(id).Some? ==>
      Applied(Attendance.Updated(old(svc.Snapshot()), ToId(id).value, body), old(svc.Snapshot()), svc.Snapshot(), r)
  {
    match ToId(id)
    case None => r := Err(NotFound);
    case Some(n) => r := svc.Update(n, body);
  }

  /** DELETE /attendance/:id (lines 38-41); a NaN id deletes nothing and is reported as not found. */
  method Remove(svc: Attendance.AttendanceService, id: string) returns (r: Result<()>)
    requires svc.Valid()
    modifies svc
    ensures svc.Valid()
    ensures ToId(id).None? ==> svc.Snapshot() == old(svc.Snapshot()) && r == Err(NotFound)
    ensures ToId(id).Some? ==>
      AppliedVoid(Attendance.Removed(old(svc.Snapshot()), ToId(id).value), old(svc.Snapshot()), svc.Snapshot(), r)
  {
    match ToId(id)
    case None => r := Err(NotFound);
    case Some(n) => r := svc.Remove(n);
  }
}

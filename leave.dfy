/**
 * Leave requests (backend/src/leave/leave.service.ts): a table of
 * requests, each spanning an inclusive range of days and carrying one
 * approval decision. Creating a request computes its day count; approve
 * and reject overwrite the decision fields from any status. The clock is a
 * parameter: `now` is the instant of `new Date()` and of the insert.
 */
module Leave {
  import opened Common
  import opened Clock
  import opened Listing

  /** One row of the `leaves` table; None is a NULL column. */
  datatype Record = Record(
    id: nat,
    employeeId: int,
    startDate: int,
    endDate: int,
    leaveType: string,
    reason: string,
    status: string,
    approvedBy: Option<int>,
    approvedAt: Option<int>,
    rejectionReason: Option<string>,
    daysRequested: real,
    createdAt: int)

  /** The table's rows in insertion order, and the next value of the id counter. */
  datatype Table = Table(rows: seq<Record>, nextId: nat)

  function IdOf(l: Record): int {
    l.id
  }

  function CreatedAtOf(l: Record): int {
    l.createdAt
  }

  /** Ids are primary keys drawn from an increasing counter. */
  ghost predicate WellFormed(t: Table) {
    && DistinctBy(t.rows, IdOf)
    && (forall i :: 0 <= i < |t.rows| ==> t.rows[i].id < t.nextId)
  }

  function Abs(x: int): nat {
    if x < 0 then -x else x
  }

  // ----- The day count -----

  /**
   * Days spanned by a request, both ends included: the distance between
   * the two instants rounded up to whole days, plus one.
   */
  function DaysRequested(startDate: int, endDate: int): (d: nat)
    ensures d >= 1
    ensures d == 1 <==> startDate == endDate
    ensures (d - 2) * DayMs < Abs(endDate - startDate) <= (d - 1) * DayMs
  {
    (Abs(endDate - startDate) + DayMs - 1) / DayMs + 1
  }

  /** The count does not depend on the order of the two dates. */
  lemma DaysRequestedSymmetric(startDate: int, endDate: int)
    ensures DaysRequested(startDate, endDate) == DaysRequested(endDate, startDate)
  {
  }

  /** A span of `n` whole days counts `n + 1` days. */
  lemma WholeDaysSpan(startDate: int, n: nat)
    ensures DaysRequested(startDate, startDate + n * DayMs) == n + 1
  {
    var d := DaysRequested(startDate, startDate + n * DayMs);
    assert (d - 2) * DayMs < n * DayMs <= (d - 1) * DayMs;
  }

  /** 2024-01-01 to 2024-01-03 (midnights UTC, in milliseconds) is three days. */
  lemma FirstToThirdOfJanuary()
    ensures DaysRequested(1_704_067_200_000, 1_704_240_000_000) == 3
  {
    WholeDaysSpan(1_704_067_200_000, 2);
  }

  // ----- Read-only selections -----

  /** `findOne({ where: { id } })`, failing with NotFound (lines 20-31). */
  function FindOne(rows: seq<Record>, id: int): (r: Result<Record>)
    ensures r.Err? <==> forall k :: 0 <= k < |rows| ==> rows[k].id != id
    ensures r.Err? ==> r.error == NotFound
    ensures r.Ok? ==> r.value in rows && r.value.id == id
  {
    match IdIndex(rows, id)
    case None => Err(NotFound)
    case Some(k) => Ok(rows[k])
  }

  /** Position of the first row with the id. */
  function IdIndex(rows: seq<Record>, id: int): (r: Option<nat>)
    ensures r.None? <==> forall k :: 0 <= k < |rows| ==> rows[k].id != id
    ensures r.Some? ==> r.value < |rows| && rows[r.value].id == id
  {
    FirstIndex(rows, (x: Record) => x.id == id)
  }

  /** Every request, newest first (lines 13-18). */
  function FindAll(rows: seq<Record>): (r: seq<Record>)
    ensures multiset(r) == multiset(rows)
    ensures forall i, j :: 0 <= i < j < |r| ==> r[i].createdAt >= r[j].createdAt
  {
    SortDescBy(rows, CreatedAtOf)
  }

  /** The requests of one employee, newest first (lines 59-64). */
  function FindByEmployee(rows: seq<Record>, employeeId: int): (r: seq<Record>)
    ensures forall x :: multiset(r)[x] == if x.employeeId == employeeId then multiset(rows)[x] else 0
    ensures forall i, j :: 0 <= i < j < |r| ==> r[i].createdAt >= r[j].createdAt
  {
    SortDescBy(Select(rows, (x: Record) => x.employeeId == employeeId), CreatedAtOf)
  }

  /** The requests in one status, newest first (lines 66-72). */
  function FindByStatus(rows: seq<Record>, status: string): (r: seq<Record>)
    ensures forall x :: multiset(r)[x] == if x.status == status then multiset(rows)[x] else 0
    ensures forall i, j :: 0 <= i < j < |r| ==> r[i].createdAt >= r[j].createdAt
  {
    SortDescBy(Select(rows, (x: Record) => x.status == status), CreatedAtOf)
  }

  // ----- Creating a request -----

  /** The columns a `create` body may carry; None is an absent property. */
  datatype Draft = Draft(
    employeeId: Option<int>,
    startDate: Option<int>,
    endDate: Option<int>,
    leaveType: Option<string>,
    reason: Option<string>,
    status: Option<string>,
    approvedBy: Option<int>,
    approvedAt: Option<int>,
    rejectionReason: Option<string>,
    daysRequested: Option<real>)

  /**
   * The body after lines 35-41: with both dates present the computed count
   * replaces whatever count the caller sent; otherwise the body is kept.
   */
  function WithDayCount(d: Draft): (r: Draft)
    ensures r.(daysRequested := d.daysRequested) == d
    ensures r.daysRequested
         == if d.startDate.Some? && d.endDate.Some?
            then Some(DaysRequested(d.startDate.value, d.endDate.value) as real)
            else d.daysRequested
  {
    if d.startDate.Some? && d.endDate.Some? then
      d.(daysRequested := Some(DaysRequested(d.startDate.value, d.endDate.value) as real))
    else d
  }

  /** The first NOT NULL column, in table order, that an insert of `d` leaves empty. */
  function MissingRequired(d: Draft): (r: Option<string>)
    ensures r.None? <==> d.startDate.Some? && d.endDate.Some? && d.leaveType.Some? && d.reason.Some?
                         && d.daysRequested.Some? && d.employeeId.Some?
  {
    if d.startDate.None? then Some("startDate")
    else if d.endDate.None? then Some("endDate")
    else if d.leaveType.None? then Some("type")
    else if d.reason.None? then Some("reason")
    else if d.daysRequested.None? then Some("daysRequested")
    else if d.employeeId.None? then Some("employeeId")
    else None
  }

  /**
   * The table and saved request after `create(d)` at instant `now` (lines
   * 33-45): the day count is filled in, then the row is inserted with status
   * defaulting to "pending"; an insert missing a NOT NULL column fails and
   * leaves the table as it was.
   */
  function Created(t: Table, d: Draft, now: int): (r: Result<(Table, Record)>)
    ensures r.Err? <==> d.startDate.None? || d.endDate.None? || d.leaveType.None? || d.reason.None?
                        || d.employeeId.None?
    ensures r.Err? ==> r.error.MissingColumn?
    ensures r.Ok? ==> r.value.0 == Table(t.rows + [r.value.1], t.nextId + 1)
    ensures r.Ok? ==> WellFormed(t) ==> WellFormed(r.value.0)
    ensures r.Ok? ==> var l := r.value.1;
      && l.id == t.nextId && l.createdAt == now
      && l.status == (if d.status.Some? then d.status.value else "pending")
      && l.daysRequested == DaysRequested(l.startDate, l.endDate) as real
    ensures r.Ok? ==>
      r.value.1 == Record(t.nextId, d.employeeId.value, d.startDate.value, d.endDate.value,
                          d.leaveType.value, d.reason.value,
                          if d.status.Some? then d.status.value else "pending",
                          d.approvedBy, d.approvedAt, d.rejectionReason,
                          DaysRequested(d.startDate.value, d.endDate.value) as real, now)
  {
    var data := WithDayCount(d);
    match MissingRequired(data)
    case Some(column) => Err(MissingColumn(column))
    case None =>
      var l := Record(t.nextId, data.employeeId.value, data.startDate.value, data.endDate.value,
                      data.leaveType.value, data.reason.value,
                      if data.status.Some? then data.status.value else "pending",
                      data.approvedBy, data.approvedAt, data.rejectionReason,
                      data.daysRequested.value, now);
      Ok((Table(t.rows + [l], t.nextId + 1), l))
  }

  // ----- Updating and removing -----

  /** The columns an `update` body may set; None leaves the column as it is. */
  datatype Patch = Patch(
    employeeId: Option<int>,
    startDate: Option<int>,
    endDate: Option<int>,
    leaveType: Option<string>,
    reason: Option<string>,
    status: Option<string>,
    approvedBy: Option<int>,
    approvedAt: Option<int>,
    rejectionReason: Option<string>,
    daysRequested: Option<real>)

  /** A request with the patch's columns written over it. */
  function Merge(l: Record, p: Patch): (r: Record)
    ensures r.id == l.id && r.createdAt == l.createdAt
  {
    Record(l.id,
           if p.employeeId.Some? then p.employeeId.value else l.employeeId,
           if p.startDate.Some? then p.startDate.value else l.startDate,
           if p.endDate.Some? then p.endDate.value else l.endDate,
           if p.leaveType.Some? then p.leaveType.value else l.leaveType,
           if p.reason.Some? then p.reason.value else l.reason,
           if p.status.Some? then p.status.value else l.status,
           if p.approvedBy.Some? then p.approvedBy else l.approvedBy,
           if p.approvedAt.Some? then p.approvedAt else l.approvedAt,
           if p.rejectionReason.Some? then p.rejectionReason else l.rejectionReason,
           if p.daysRequested.Some? then p.daysRequested.value else l.daysRequested,
           l.createdAt)
  }

  /** `UPDATE ... WHERE id = :id`: every row with the id merged with the patch. */
  function UpdateWhere(rows: seq<Record>, id: int, p: Patch): (r: seq<Record>)
    ensures |r| == |rows|
    ensures forall k :: 0 <= k < |rows| ==> r[k] == if rows[k].id == id then Merge(rows[k], p) else rows[k]
  {
    seq(|rows|, k requires 0 <= k < |rows| => if rows[k].id == id then Merge(rows[k], p) else rows[k])
  }

  /**
   * The table and returned request after `update(id, p)` (lines 47-50): the
   * update touches no row when the id is absent, and the `findOne` after it
   * then fails with NotFound.
   */
  function Updated(t: Table, id: int, p: Patch): (r: Result<(Table, Record)>)
    ensures r.Err? <==> forall k :: 0 <= k < |t.rows| ==> t.rows[k].id != id
    ensures r.Err? ==> r.error == NotFound
    ensures r.Ok? ==> r.value.0.nextId == t.nextId && |r.value.0.rows| == |t.rows|
    ensures r.Ok? ==> forall k :: 0 <= k < |t.rows| && t.rows[k].id != id ==> r.value.0.rows[k] == t.rows[k]
    ensures r.Ok? ==> r.value.0.rows == UpdateWhere(t.rows, id, p)
    ensures r.Ok? ==> exists k :: 0 <= k < |t.rows| && t.rows[k].id == id && r.value.1 == Merge(t.rows[k], p)
    ensures r.Ok? ==> r.value.1.id == id && r.value.1 in r.value.0.rows
    ensures r.Ok? ==> WellFormed(t) ==> WellFormed(r.value.0)
  {
    var rows := UpdateWhere(t.rows, id, p);
    match FindOne(rows, id)
    case Err(e) => Err(e)
    case Ok(l) => Ok((t.(rows := rows), l))
  }

  /** An update never recomputes the day count: it changes only when the patch sets it. */
  lemma UpdateKeepsDayCount(t: Table, id: int, p: Patch, k: nat)
    requires Updated(t, id, p).Ok? && k < |t.rows| && p.daysRequested.None?
    ensures Updated(t, id, p).value.0.rows[k].daysRequested == t.rows[k].daysRequested
  {
  }

  /** The rows a `DELETE ... WHERE id = :id` leaves. */
  function WithoutId(rows: seq<Record>, id: int): (r: seq<Record>)
    ensures forall x :: multiset(r)[x] == if x.id == id then 0 else multiset(rows)[x]
    ensures forall k :: 0 <= k < |r| ==> r[k] in rows
    ensures DistinctBy(rows, IdOf) ==> DistinctBy(r, IdOf)
  {
    var p := (x: Record) => x.id != id;
    SelectDistinctBy(rows, p, IdOf);
    Select(rows, p)
  }

  /** The table after `remove(id)` (lines 52-57): NotFound when the delete affects no row. */
  function Removed(t: Table, id: int): (r: Result<Table>)
    ensures r.Err? <==> forall k :: 0 <= k < |t.rows| ==> t.rows[k].id != id
    ensures r.Err? ==> r.error == NotFound
    ensures r.Ok? ==> r.value.nextId == t.nextId
    ensures r.Ok? ==> forall x :: multiset(r.value.rows)[x] == if x.id == id then 0 else multiset(t.rows)[x]
    ensures r.Ok? ==> WellFormed(t) ==> WellFormed(r.value)
  {
    if forall k :: 0 <= k < |t.rows| ==> t.rows[k].id != id then Err(NotFound)
    else Ok(t.(rows := WithoutId(t.rows, id)))
  }

  // ----- The decision -----

  /**
   * The table and saved request after `approve(id, approvedBy)` at instant
   * `now` (lines 74-80). There is no guard on the current status.
   */
  function Approved(t: Table, id: int, approvedBy: int, now: int): (r: Result<(Table, Record)>)
    ensures r.Err? <==> forall k :: 0 <= k < |t.rows| ==> t.rows[k].id != id
    ensures r.Err? ==> r.error == NotFound
    ensures r.Ok? ==> WellFormed(t) ==> WellFormed(r.value.0)
    ensures r.Ok? ==> r.value.0.nextId == t.nextId && |r.value.0.rows| == |t.rows|
    ensures r.Ok? ==> r.value.1.id == id && r.value.1 in r.value.0.rows && r.value.1.status == "approved"
  {
    match IdIndex(t.rows, id)
    case None => Err(NotFound)
    case Some(i) =>
      var l := t.rows[i].(status := "approved", approvedBy := Some(approvedBy), approvedAt := Some(now));
      assert t.rows[i := l][i] == l;
      Ok((t.(rows := t.rows[i := l]), l))
  }

  /**
   * The table and saved request after `reject(id, rejectionReason)` (lines
   * 82-87). There is no guard on the current status, and an earlier
   * approval's approver and time are left in place.
   */
  function Rejected(t: Table, id: int, rejectionReason: string): (r: Result<(Table, Record)>)
    ensures r.Err? <==> forall k :: 0 <= k < |t.rows| ==> t.rows[k].id != id
    ensures r.Err? ==> r.error == NotFound
    ensures r.Ok? ==> WellFormed(t) ==> WellFormed(r.value.0)
    ensures r.Ok? ==> r.value.0.nextId == t.nextId && |r.value.0.rows| == |t.rows|
    ensures r.Ok? ==> r.value.1.id == id && r.value.1 in r.value.0.rows && r.value.1.status == "rejected"
  {
    match IdIndex(t.rows, id)
    case None => Err(NotFound)
    case Some(i) =>
      var l := t.rows[i].(status := "rejected", rejectionReason := Some(rejectionReason));
      assert t.rows[i := l][i] == l;
      Ok((t.(rows := t.rows[i := l]), l))
  }

  /**
   * Approval changes exactly one request, the one with the id, and in it
   * only the status, the approver and the approval time.
   */
  lemma ApproveChangesOneRequest(t: Table, id: int, approvedBy: int, now: int)
    requires exists k :: 0 <= k < |t.rows| && t.rows[k].id == id
    ensures Approved(t, id, approvedBy, now).Ok?
    ensures exists i :: (0 <= i < |t.rows| && t.rows[i].id == id
      && Approved(t, id, approvedBy, now).value.0.rows
         == t.rows[i := t.rows[i].(status := "approved", approvedBy := Some(approvedBy), approvedAt := Some(now))])
  {
    var i := IdIndex(t.rows, id).value;
    assert t.rows[i].id == id;
  }

  /** Rejection changes exactly one request, and in it only the status and the reason. */
  lemma RejectChangesOneRequest(t: Table, id: int, rejectionReason: string)
    requires exists k :: 0 <= k < |t.rows| && t.rows[k].id == id
    ensures Rejected(t, id, rejectionReason).Ok?
    ensures exists i :: (0 <= i < |t.rows| && t.rows[i].id == id
      && Rejected(t, id, rejectionReason).value.0.rows
         == t.rows[i := t.rows[i].(status := "rejected", rejectionReason := Some(rejectionReason))])
  {
    var i := IdIndex(t.rows, id).value;
    assert t.rows[i].id == id;
  }

  /**
   * Decisions are not guarded: rejecting an approved request succeeds, the
   * last call decides the status, and the approval's approver and time remain.
   */
  lemma RejectAfterApprove(t: Table, id: int, approvedBy: int, now: int, rejectionReason: string)
    requires WellFormed(t) && Approved(t, id, approvedBy, now).Ok?
    ensures var t1 := Approved(t, id, approvedBy, now).value.0;
      && Rejected(t1, id, rejectionReason).Ok?
      && var l := Rejected(t1, id, rejectionReason).value.1;
      && l.status == "rejected" && l.rejectionReason == Some(rejectionReason)
      && l.approvedBy == Some(approvedBy) && l.approvedAt == Some(now)
  {
    var t1 := Approved(t, id, approvedBy, now).value.0;
    var i := IdIndex(t.rows, id).value;
    IdIndexUnique(t1.rows, id, i);
  }

  /** Approving a rejected request succeeds too, and the rejection reason remains. */
  lemma ApproveAfterReject(t: Table, id: int, rejectionReason: string, approvedBy: int, now: int)
    requires WellFormed(t) && Rejected(t, id, rejectionReason).Ok?
    ensures var t1 := Rejected(t, id, rejectionReason).value.0;
      && Approved(t1, id, approvedBy, now).Ok?
      && var l := Approved(t1, id, approvedBy, now).value.1;
      && l.status == "approved" && l.approvedBy == Some(approvedBy) && l.approvedAt == Some(now)
      && l.rejectionReason == Some(rejectionReason)
  {
    var t1 := Rejected(t, id, rejectionReason).value.0;
    var i := IdIndex(t.rows, id).value;
    IdIndexUnique(t1.rows, id, i);
  }

  /** In a table with distinct ids the row holding an id is the one the lookup finds. */
  lemma IdIndexUnique(rows: seq<Record>, id: int, i: nat)
    requires DistinctBy(rows, IdOf) && i < |rows| && rows[i].id == id
    ensures IdIndex(rows, id) == Some(i)
  {
  }

  /** The service object: the repository's table, changed in place by each call. */
  class LeaveService {
    var rows: seq<Record>
    var nextId: nat

    function Snapshot(): Table
      reads this
    {
      Table(rows, nextId)
    }

    ghost predicate Valid()
      reads this
    {
      WellFormed(Snapshot())
    }

    constructor ()
      ensures Valid() && rows == []
    {
      rows := [];
      nextId := 1;
    }

    method Create(leaveData: Draft, now: int) returns (r: Result<Record>)
      requires Valid()
      modifies this
      ensures Valid()
      ensures Applied(Created(old(Snapshot()), leaveData, now), old(Snapshot()), Snapshot(), r)
    {
      var data := leaveData;
      if data.startDate.Some? && data.endDate.Some? {
        var diffDays := DaysRequested(data.startDate.value, data.endDate.value);
        data := data.(daysRequested := Some(diffDays as real));
      }
      var missing := MissingRequired(data);
      if missing.Some? {
        return Err(MissingColumn(missing.value));
      }
      var leave := Record(nextId, data.employeeId.value, data.startDate.value, data.endDate.value,
                          data.leaveType.value, data.reason.value,
                          if data.status.Some? then data.status.value else "pending",
                          data.approvedBy, data.approvedAt, data.rejectionReason,
                          data.daysRequested.value, now);
      rows := rows + [leave];
      nextId := nextId + 1;
      r := Ok(leave);
    }

    method Update(id: int, p: Patch) returns (r: Result<Record>)
      requires Valid()
      modifies this
      ensures Valid()
      ensures Applied(Updated(old(Snapshot()), id, p), old(Snapshot()), Snapshot(), r)
    {
      rows := UpdateWhere(rows, id, p);
      r := FindOne(rows, id);
      if r.Err? {
        assert rows == old(rows);
      }
    }

    method Remove(id: int) returns (r: Result<()>)
      requires Valid()
      modifies this
      ensures Valid()
      ensures AppliedVoid(Removed(old(Snapshot()), id), old(Snapshot()), Snapshot(), r)
    {
      if forall k :: 0 <= k < |rows| ==> rows[k].id != id {
        return Err(NotFound);
      }
      rows := WithoutId(rows, id);
      r := Ok(());
    }

    method Approve(id: int, approvedBy: int, now: int) returns (r: Result<Record>)
      requires Valid()
      modifies this
      ensures Valid()
      ensures Applied(Approved(old(Snapshot()), id, approvedBy, now), old(Snapshot()), Snapshot(), r)
    {
      var found := IdIndex(rows, id);
      if found.None? {
        return Err(NotFound);
      }
      var i := found.value;
      var leave := rows[i];
      leave := leave.(status := "approved");
      leave := leave.(approvedBy := Some(approvedBy));
      leave := leave.(approvedAt := Some(now));
      rows := rows[i := leave];
      r := Ok(leave);
    }

    method Reject(id: int, rejectionReason: string) returns (r: Result<Record>)
      requires Valid()
      modifies this
      ensures Valid()
      ensures Applied(Rejected(old(Snapshot()), id, rejectionReason), old(Snapshot()), Snapshot(), r)
    {
      var found := IdIndex(rows, id);
      if found.None? {
        return Err(NotFound);
      }
      var i := found.value;
      var leave := rows[i];
      leave := leave.(status := "rejected");
      leave := leave.(rejectionReason := Some(rejectionReason));
      rows := rows[i := leave];
      r := Ok(leave);
    }
  }
}

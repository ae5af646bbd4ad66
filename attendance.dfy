/**
 * The attendance day book: one table of rows, each recording one
 * employee's day (backend/src/attendance/attendance.service.ts).
 *
 * Check-in is an upsert keyed by the employee and today's midnight;
 * check-out requires today's row and recomputes the hours worked from the
 * two times of day. The clock is a parameter: `now` is the instant at
 * which the service reads `new Date()`.
 */
module Attendance {
  import opened Common
  import opened Clock
  import opened Listing

  /** A computed `hoursWorked`: an exact number of hours, or NaN when a time does not parse. */
  datatype Hours = Exact(value: real) | NotANumber

  /** One row of the `attendances` table; None is a NULL column. */
  datatype Row = Row(
    id: nat,
    employeeId: int,
    date: int,
    checkIn: Option<string>,
    checkOut: Option<string>,
    hoursWorked: Option<Hours>,
    status: string,
    notes: Option<string>)

  /** The table's rows in insertion order, and the next value of the id counter. */
  datatype Table = Table(rows: seq<Row>, nextId: nat)

  /** Ids are primary keys drawn from an increasing counter. */
  ghost predicate WellFormed(t: Table) {
    && DistinctBy(t.rows, IdOf)
    && (forall i :: 0 <= i < |t.rows| ==> t.rows[i].id < t.nextId)
  }

  /**
   * Hours from `checkIn` to `checkOut`, both read as times of day on one
   * common date: the millisecond difference divided by one hour. There is
   * no overnight handling, so an earlier check-out gives negative hours.
   */
  function HoursBetween(checkIn: string, checkOut: string): (h: Hours)
    ensures h.Exact? <==> ParseClock(checkIn).Some? && ParseClock(checkOut).Some?
    ensures h.Exact? ==> h.value * 60.0 == (ParseClock(checkOut).value - ParseClock(checkIn).value) as real
    ensures h.Exact? ==> (h.value < 0.0 <==> ParseClock(checkOut).value < ParseClock(checkIn).value)
  {
    match (ParseClock(checkIn), ParseClock(checkOut))
    case (Some(a), Some(b)) => Exact((b as real - a as real) / 60.0)
    case _ => NotANumber
  }

  lemma NineToHalfPastFive()
    ensures HoursBetween("09:00", "17:30") == Exact(8.5)
  {
    assert ParseClock("09:00") == Some(540);
    assert ParseClock("17:30") == Some(1050);
  }

  lemma CheckOutBeforeCheckIn()
    ensures HoursBetween("09:00", "08:00") == Exact(-1.0)
  {
    assert ParseClock("09:00") == Some(540);
    assert ParseClock("08:00") == Some(480);
  }

  /** A time the client writes with `format(now, 'HH:mm')` always gives a number of hours. */
  lemma ClientTimesGiveHours(a: nat, b: nat)
    requires a <= 1440 && b <= 1440
    ensures HoursBetween(FormatClock(a), FormatClock(b)) == Exact((b as real - a as real) / 60.0)
  {
    ParseFormat(a);
    ParseFormat(b);
  }

  // ----- Read-only selections -----

  function DateOf(r: Row): int {
    r.date
  }

  /** `findOne({ where: { id } })`, failing with NotFound (lines 19-30). */
  function FindOne(rows: seq<Row>, id: int): (r: Result<Row>)
    ensures r.Err? <==> forall k :: 0 <= k < |rows| ==> rows[k].id != id
    ensures r.Err? ==> r.error == NotFound
    ensures r.Ok? ==> r.value in rows && r.value.id == id
  {
    match FirstIndex(rows, (x: Row) => x.id == id)
    case None => Err(NotFound)
    case Some(k) => Ok(rows[k])
  }

  /** Every row, each as often as stored, in storage order (`findAll`). */
  function FindAll(rows: seq<Row>): (r: seq<Row>)
    ensures multiset(r) == multiset(rows)
  {
    rows
  }

  /** The employee's rows, latest date first (lines 49-54). */
  function FindByEmployee(rows: seq<Row>, employeeId: int): (r: seq<Row>)
    ensures forall x :: multiset(r)[x] == if x.employeeId == employeeId then multiset(rows)[x] else 0
    ensures forall i, j :: 0 <= i < j < |r| ==> r[i].date >= r[j].date
  {
    SortDescBy(Select(rows, (x: Row) => x.employeeId == employeeId), DateOf)
  }

  /** The rows dated between the two instants, both included, latest first (lines 56-64). */
  function FindByDateRange(rows: seq<Row>, startDate: int, endDate: int): (r: seq<Row>)
    ensures forall x :: multiset(r)[x] == if startDate <= x.date <= endDate then multiset(rows)[x] else 0
    ensures forall i, j :: 0 <= i < j < |r| ==> r[i].date >= r[j].date
  {
    SortDescBy(Select(rows, (x: Row) => startDate <= x.date <= endDate), DateOf)
  }

  // ----- Today's row -----

  predicate OnDay(r: Row, employeeId: int, day: int) {
    r.employeeId == employeeId && r.date == day
  }

  /** The row that `findOne({ where: { employeeId, date: today } })` returns: the first one stored. */
  function TodayIndex(rows: seq<Row>, employeeId: int, today: int): (r: Option<nat>)
    ensures r.None? <==> forall k :: 0 <= k < |rows| ==> !OnDay(rows[k], employeeId, today)
    ensures r.Some? ==> r.value < |rows| && OnDay(rows[r.value], employeeId, today)
    ensures r.Some? ==> forall k :: 0 <= k < r.value ==> !OnDay(rows[k], employeeId, today)
  {
    FirstIndex(rows, (x: Row) => OnDay(x, employeeId, today))
  }

  /** How many rows the table holds for the employee on that day. */
  function CountOn(rows: seq<Row>, employeeId: int, day: int): nat {
    if |rows| == 0 then 0
    else (if OnDay(rows[0], employeeId, day) then 1 else 0) + CountOn(rows[1..], employeeId, day)
  }

  lemma {:induction false} CountOnZero(rows: seq<Row>, employeeId: int, day: int)
    ensures CountOn(rows, employeeId, day) == 0 <==> forall k :: 0 <= k < |rows| ==> !OnDay(rows[k], employeeId, day)
  {
    if |rows| > 0 {
      CountOnZero(rows[1..], employeeId, day);
      assert forall k :: 1 <= k < |rows| ==> rows[k] == rows[1..][k - 1];
    }
  }

  lemma {:induction false} CountOnAppend(rows: seq<Row>, x: Row, employeeId: int, day: int)
    ensures CountOn(rows + [x], employeeId, day)
         == CountOn(rows, employeeId, day) + if OnDay(x, employeeId, day) then 1 else 0
  {
    if |rows| > 0 {
      assert (rows + [x])[1..] == rows[1..] + [x];
      CountOnAppend(rows[1..], x, employeeId, day);
    }
  }

  lemma {:induction false} CountOnReplace(rows: seq<Row>, i: nat, y: Row, employeeId: int, day: int)
    requires i < |rows|
    requires OnDay(rows[i], employeeId, day) == OnDay(y, employeeId, day)
    ensures CountOn(rows[i := y], employeeId, day) == CountOn(rows, employeeId, day)
  {
    if i > 0 {
      assert rows[i := y][1..] == rows[1..][i - 1 := y];
      CountOnReplace(rows[1..], i - 1, y, employeeId, day);
    }
  }

  // ----- State changes, as functions of the table before the call -----

  /** The table and saved row after `checkIn(employeeId, checkInTime)` at instant `now` (lines 66-88). */
  function CheckedIn(t: Table, employeeId: int, checkInTime: string, now: int): (r: (Table, Row))
    ensures WellFormed(t) ==> WellFormed(r.0)
    ensures OnDay(r.1, employeeId, StartOfDay(now)) && r.1.checkIn == Some(checkInTime)
    ensures r.1 in r.0.rows
    ensures CountOn(r.0.rows, employeeId, StartOfDay(now))
         == if CountOn(t.rows, employeeId, StartOfDay(now)) == 0 then 1 else CountOn(t.rows, employeeId, StartOfDay(now))
  {
    var today := StartOfDay(now);
    CountOnZero(t.rows, employeeId, today);
    match TodayIndex(t.rows, employeeId, today)
    case Some(i) =>
      var row := t.rows[i].(checkIn := Some(checkInTime));
      CountOnReplace(t.rows, i, row, employeeId, today);
      assert t.rows[i := row][i] == row;
      (t.(rows := t.rows[i := row]), row)
    case None =>
      var row := Row(t.nextId, employeeId, today, Some(checkInTime), None, None, "present", None);
      CountOnAppend(t.rows, row, employeeId, today);
      (Table(t.rows + [row], t.nextId + 1), row)
  }

  /** With no row for the employee today, check-in appends exactly one "present" row and keeps the rest. */
  lemma CheckInAddsRow(t: Table, employeeId: int, checkInTime: string, now: int)
    requires forall k :: 0 <= k < |t.rows| ==> !OnDay(t.rows[k], employeeId, StartOfDay(now))
    ensures CheckedIn(t, employeeId, checkInTime, now).0
         == Table(t.rows + [Row(t.nextId, employeeId, StartOfDay(now), Some(checkInTime), None, None, "present", None)],
                  t.nextId + 1)
  {
  }

  /**
   * With a row for the employee today, check-in adds no row and changes only
   * that row's check-in time; its check-out, hours, status and notes stay.
   */
  lemma CheckInOverwritesRow(t: Table, employeeId: int, checkInTime: string, now: int)
    requires exists k :: 0 <= k < |t.rows| && OnDay(t.rows[k], employeeId, StartOfDay(now))
    ensures var t' := CheckedIn(t, employeeId, checkInTime, now).0;
      && t'.nextId == t.nextId
      && |t'.rows| == |t.rows|
      && exists i :: 0 <= i < |t.rows| && OnDay(t.rows[i], employeeId, StartOfDay(now))
           && t'.rows == t.rows[i := t.rows[i].(checkIn := Some(checkInTime))]
  {
    var i := TodayIndex(t.rows, employeeId, StartOfDay(now)).value;
    assert OnDay(t.rows[i], employeeId, StartOfDay(now));
  }

  /** Checking in again the same day creates no second row: the employee keeps at most one row for the day. */
  lemma RepeatedCheckIn(t: Table, employeeId: int, first: string, second: string, now1: int, now2: int)
    requires StartOfDay(now1) == StartOfDay(now2)
    requires CountOn(t.rows, employeeId, StartOfDay(now1)) <= 1
    ensures var t1 := CheckedIn(t, employeeId, first, now1).0;
            var t2 := CheckedIn(t1, employeeId, second, now2).0;
      && |t2.rows| == |t1.rows|
      && CountOn(t1.rows, employeeId, StartOfDay(now1)) == 1
      && CountOn(t2.rows, employeeId, StartOfDay(now1)) == 1
  {
    var t1 := CheckedIn(t, employeeId, first, now1).0;
    var r1 := CheckedIn(t, employeeId, first, now1).1;
    assert r1 in t1.rows;
    var k :| 0 <= k < |t1.rows| && t1.rows[k] == r1;
    CheckInOverwritesRow(t1, employeeId, second, now2);
  }

  /** The hours a check-out records on a row: recomputed when both times are truthy, kept otherwise. */
  function HoursAfterCheckOut(row: Row, checkOutTime: string): (h: Option<Hours>)
    ensures !Truthy(row.checkIn) || checkOutTime == "" ==> h == row.hoursWorked
    ensures Truthy(row.checkIn) && ParseClock(row.checkIn.value).Some? && ParseClock(checkOutTime).Some?
        ==> h == Some(Exact((ParseClock(checkOutTime).value as real - ParseClock(row.checkIn.value).value as real) / 60.0))
    ensures Truthy(row.checkIn) && checkOutTime != ""
        && (ParseClock(row.checkIn.value).None? || ParseClock(checkOutTime).None?)
        ==> h == Some(NotANumber)
  {
    if Truthy(row.checkIn) && checkOutTime != "" then Some(HoursBetween(row.checkIn.value, checkOutTime))
    else row.hoursWorked
  }

  /** The table and saved row after `checkOut(employeeId, checkOutTime)` at instant `now` (lines 90-113). */
  function CheckedOut(t: Table, employeeId: int, checkOutTime: string, now: int): (r: Result<(Table, Row)>)
    ensures r.Err? <==> CountOn(t.rows, employeeId, StartOfDay(now)) == 0
    ensures r.Err? ==> r.error == NotFound
    ensures r.Ok? ==> WellFormed(t) ==> WellFormed(r.value.0)
    ensures r.Ok? ==> r.value.0.nextId == t.nextId && |r.value.0.rows| == |t.rows|
    ensures r.Ok? ==> r.value.1 in r.value.0.rows && OnDay(r.value.1, employeeId, StartOfDay(now))
    ensures r.Ok? ==> r.value.1.checkOut == Some(checkOutTime)
  {
    var today := StartOfDay(now);
    CountOnZero(t.rows, employeeId, today);
    match TodayIndex(t.rows, employeeId, today)
    case None => Err(NotFound)
    case Some(i) =>
      var row := t.rows[i].(checkOut := Some(checkOutTime));
      var row := row.(hoursWorked := HoursAfterCheckOut(row, checkOutTime));
      assert t.rows[i := row][i] == row;
      Ok((t.(rows := t.rows[i := row]), row))
  }

  /**
   * Check-out changes one row, today's, and only its check-out time and
   * hours; the hours become the difference of the two times when the row
   * has a check-in and the new time is not empty.
   */
  lemma CheckOutSetsHours(t: Table, employeeId: int, checkOutTime: string, now: int)
    requires exists k :: 0 <= k < |t.rows| && OnDay(t.rows[k], employeeId, StartOfDay(now))
    ensures CheckedOut(t, employeeId, checkOutTime, now).Ok?
    ensures var t' := CheckedOut(t, employeeId, checkOutTime, now).value.0;
      exists i :: 0 <= i < |t.rows| && OnDay(t.rows[i], employeeId, StartOfDay(now))
        && t'.rows == t.rows[i := t.rows[i].(checkOut := Some(checkOutTime),
                                             hoursWorked := HoursAfterCheckOut(t.rows[i], checkOutTime))]
  {
    CountOnZero(t.rows, employeeId, StartOfDay(now));
    var i := TodayIndex(t.rows, employeeId, StartOfDay(now)).value;
    assert OnDay(t.rows[i], employeeId, StartOfDay(now));
  }

  /**
   * A check-out on the day of a check-in finds the checked-in row: the reply
   * carries both times and, when both are non-empty, their difference in hours.
   */
  lemma CheckInThenCheckOut(t: Table, employeeId: int, checkInTime: string, checkOutTime: string, now1: int, now2: int)
    requires StartOfDay(now1) == StartOfDay(now2)
    ensures var t1 := CheckedIn(t, employeeId, checkInTime, now1).0;
      && CheckedOut(t1, employeeId, checkOutTime, now2).Ok?
      && var row := CheckedOut(t1, employeeId, checkOutTime, now2).value.1;
      && row.checkIn == Some(checkInTime) && row.checkOut == Some(checkOutTime)
      && (checkInTime != "" && checkOutTime != "" ==> row.hoursWorked == Some(HoursBetween(checkInTime, checkOutTime)))
  {
    var today := StartOfDay(now1);
    var (t1, saved) := CheckedIn(t, employeeId, checkInTime, now1);
    match TodayIndex(t.rows, employeeId, today)
    case Some(i) =>
      assert t1.rows == t.rows[i := t.rows[i].(checkIn := Some(checkInTime))];
      assert OnDay(t1.rows[i], employeeId, today);
      var j := TodayIndex(t1.rows, employeeId, today).value;
      assert j <= i;
      assert forall k :: 0 <= k < i ==> t1.rows[k] == t.rows[k];
    case None =>
      assert t1.rows == t.rows + [saved];
      assert OnDay(t1.rows[|t.rows|], employeeId, today);
      assert forall k :: 0 <= k < |t.rows| ==> t1.rows[k] == t.rows[k];
  }

  /** A row checked in at 09:00 and out at 17:30 records 8.5 hours. */
  lemma FullDayHours(row: Row)
    ensures HoursAfterCheckOut(row.(checkIn := Some("09:00")), "17:30") == Some(Exact(8.5))
  {
    NineToHalfPastFive();
  }

  /** Without a check-in time the row's previous hours are kept, stale or not. */
  lemma NoCheckInKeepsHours(row: Row, checkOutTime: string)
    requires !Truthy(row.checkIn)
    ensures HoursAfterCheckOut(row, checkOutTime) == row.hoursWorked
  {
  }

  /** The columns a `create` body may carry; None is an absent property. */
  datatype Draft = Draft(
    employeeId: Option<int>,
    date: Option<int>,
    checkIn: Option<string>,
    checkOut: Option<string>,
    hoursWorked: Option<Hours>,
    status: Option<string>,
    notes: Option<string>)

  /** The table and saved row after `create(draft)` (lines 32-35): an insert, status defaulting to "present". */
  function Created(t: Table, d: Draft): (r: Result<(Table, Row)>)
    ensures r.Err? <==> d.date.None? || d.employeeId.None?
    ensures r.Err? ==> r.error.MissingColumn?
    ensures r.Ok? ==> r.value.0 == Table(t.rows + [r.value.1], t.nextId + 1)
    ensures r.Ok? ==> WellFormed(t) ==> WellFormed(r.value.0)
    ensures r.Ok? ==>
      r.value.1 == Row(t.nextId, d.employeeId.value, d.date.value, d.checkIn, d.checkOut, d.hoursWorked,
                       if d.status.Some? then d.status.value else "present", d.notes)
  {
    if d.date.None? then Err(MissingColumn("date"))
    else if d.employeeId.None? then Err(MissingColumn("employeeId"))
    else
      var row := Row(t.nextId, d.employeeId.value, d.date.value, d.checkIn, d.checkOut, d.hoursWorked,
                     if d.status.Some? then d.status.value else "present", d.notes);
      Ok((Table(t.rows + [row], t.nextId + 1), row))
  }

  /** The columns a `update` body may set; None leaves the column as it is. */
  datatype Patch = Patch(
    employeeId: Option<int>,
    date: Option<int>,
    checkIn: Option<string>,
    checkOut: Option<string>,
    hoursWorked: Option<Hours>,
    status: Option<string>,
    notes: Option<string>)

  /** A row with the patch's columns written over it. */
  function Merge(row: Row, p: Patch): (r: Row)
    ensures r.id == row.id
  {
    Row(row.id,
        if p.employeeId.Some? then p.employeeId.value else row.employeeId,
        if p.date.Some? then p.date.value else row.date,
        if p.checkIn.Some? then p.checkIn else row.checkIn,
        if p.checkOut.Some? then p.checkOut else row.checkOut,
        if p.hoursWorked.Some? then p.hoursWorked else row.hoursWorked,
        if p.status.Some? then p.status.value else row.status,
        if p.notes.Some? then p.notes else row.notes)
  }

  /** `UPDATE ... WHERE id = :id`: every row with the id merged with the patch. */
  function UpdateWhere(rows: seq<Row>, id: int, p: Patch): (r: seq<Row>)
    ensures |r| == |rows|
    ensures forall k :: 0 <= k < |rows| ==> r[k] == if rows[k].id == id then Merge(rows[k], p) else rows[k]
  {
    seq(|rows|, k requires 0 <= k < |rows| => if rows[k].id == id then Merge(rows[k], p) else rows[k])
  }

  /**
   * The table and returned row after `update(id, patch)` (lines 37-40): the
   * update itself touches no row when the id is absent, and the `findOne`
   * after it then fails with NotFound.
   */
  function Updated(t: Table, id: int, p: Patch): (r: Result<(Table, Row)>)
    ensures r.Err? <==> forall k :: 0 <= k < |t.rows| ==> t.rows[k].id != id
    ensures r.Err? ==> r.error == NotFound
    ensures r.Ok? ==> r.value.0.nextId == t.nextId && |r.value.0.rows| == |t.rows|
    ensures r.Ok? ==> forall k :: 0 <= k < |t.rows| && t.rows[k].id != id ==> r.value.0.rows[k] == t.rows[k]
    ensures r.Ok? ==> r.value.0.rows == UpdateWhere(t.rows, id, p)
    ensures r.Ok? ==> exists k :: 0 <= k < |t.rows| && t.rows[k].id == id && r.value.1 == Merge(t.rows[k], p)
    ensures r.Ok? ==> r.value.1.id == id && r.value.1 in r.value.0.rows
    ensures r.Ok? ==> WellFormed(t) ==> WellFormed(r.value.0)
  {
    var rows := UpdateWhere(t.rows, id, p);
    match FindOne(rows, id)
    case Err(e) => Err(e)
    case Ok(row) => Ok((t.(rows := rows), row))
  }

  /** The table after `remove(id)` (lines 42-47): NotFound when the delete affects no row. */
  function Removed(t: Table, id: int): (r: Result<Table>)
    ensures r.Err? <==> forall k :: 0 <= k < |t.rows| ==> t.rows[k].id != id
    ensures r.Err? ==> r.error == NotFound
    ensures r.Ok? ==> r.value.nextId == t.nextId
    ensures r.Ok? ==> forall x :: multiset(r.value.rows)[x] == if x.id == id then 0 else multiset(t.rows)[x]
    ensures r.Ok? ==> WellFormed(t) ==> WellFormed(r.value)
  {
    if forall k :: 0 <= k < |t.rows| ==> t.rows[k].id != id then Err(NotFound)
    else Ok(t.(rows := WithoutId(t.rows, id)))
  }

  function IdOf(r: Row): int {
    r.id
  }

  /** The rows a `DELETE ... WHERE id = :id` leaves. */
  function WithoutId(rows: seq<Row>, id: int): (r: seq<Row>)
    ensures forall x :: multiset(r)[x] == if x.id == id then 0 else multiset(rows)[x]
    ensures forall k :: 0 <= k < |r| ==> r[k] in rows
    ensures DistinctBy(rows, IdOf) ==> DistinctBy(r, IdOf)
  {
    var p := (x: Row) => x.id != id;
    SelectDistinctBy(rows, p, IdOf);
    Select(rows, p)
  }

  /** The service object: the repository's table, changed in place by each call. */
  class AttendanceService {
    var rows: seq<Row>
    var nextId: nat

    function Snapshot(): Table
      reads this
    {
      Table(rows, nextId)
    }

    ghost predicate Valid()
      reads this
    {
      WellFormed(Snapshot())
    }

    constructor ()
      ensures Valid() && rows == []
    {
      rows := [];
      nextId := 1;
    }

    method CheckIn(employeeId: int, checkInTime: string, now: int) returns (saved: Row)
      requires Valid()
      modifies this
      ensures Valid()
      ensures (Snapshot(), saved) == CheckedIn(old(Snapshot()), employeeId, checkInTime, now)
    {
      var today := StartOfDay(now);
      var existing := TodayIndex(rows, employeeId, today);
      if existing.Some? {
        var i := existing.value;
        saved := rows[i];
        saved := saved.(checkIn := Some(checkInTime));
        rows := rows[i := saved];
        return;
      }
      saved := Row(nextId, employeeId, today, Some(checkInTime), None, None, "present", None);
      rows := rows + [saved];
      nextId := nextId + 1;
    }

    method CheckOut(employeeId: int, checkOutTime: string, now: int) returns (r: Result<Row>)
      requires Valid()
      modifies this
      ensures Valid()
      ensures Applied(CheckedOut(old(Snapshot()), employeeId, checkOutTime, now), old(Snapshot()), Snapshot(), r)
    {
      var today := StartOfDay(now);
      var found := TodayIndex(rows, employeeId, today);
      if found.None? {
        return Err(NotFound);
      }
      var i := found.value;
      var attendance := rows[i];
      attendance := attendance.(checkOut := Some(checkOutTime));
      if Truthy(attendance.checkIn) && checkOutTime != "" {
        attendance := attendance.(hoursWorked := Some(HoursBetween(attendance.checkIn.value, checkOutTime)));
      }
      rows := rows[i := attendance];
      r := Ok(attendance);
    }

    method Create(d: Draft) returns (r: Result<Row>)
      requires Valid()
      modifies this
      ensures Valid()
      ensures Applied(Created(old(Snapshot()), d), old(Snapshot()), Snapshot(), r)
    {
      var c := Created(Snapshot(), d);
      if c.Err? {
        return Err(c.error);
      }
      rows := rows + [c.value.1];
      nextId := nextId + 1;
      r := Ok(c.value.1);
    }

    method Update(id: int, p: Patch) returns (r: Result<Row>)
      requires Valid()
      modifies this
      ensures Valid()
      ensures Applied(Updated(old(Snapshot()), id, p), old(Snapshot()), Snapshot(), r)
    {
      rows := UpdateWhere(rows, id, p);
      r := FindOne(rows, id);
      if r.Err? {
        assert rows == old(rows);
      }
    }

    method Remove(id: int) returns (r: Result<()>)
      requires Valid()
      modifies this
      ensures Valid()
      ensures AppliedVoid(Removed(old(Snapshot()), id), old(Snapshot()), Snapshot(), r)
    {
      if forall k :: 0 <= k < |rows| ==> rows[k].id != id {
        return Err(NotFound);
      }
      rows := WithoutId(rows, id);
      r := Ok(());
    }
  }
}

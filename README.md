# Attendance day book and leave requests

This project models the two backend services of the HR application that hold
rules beyond plain storage, together with the REST controllers in front of them:

- **Attendance** (`backend/src/attendance`). A table of day rows per employee.
  `checkIn` is an upsert keyed by the employee and today's midnight. `checkOut`
  needs today's row and recomputes `hoursWorked` from two "HH:mm" times of day.
  The listings select by employee or by an inclusive date range, latest date
  first. The controller widens a date range to whole days.
- **Leave** (`backend/src/leave`). A table of leave requests. `create` computes
  the inclusive day count `ceil(|end - start| / one day) + 1`. `approve` and
  `reject` overwrite the decision fields from any status. The listings select by
  status or employee, newest first. The controller lists by status only when the
  status query is non-empty.

Each table is a value `Table(rows, nextId)`: the rows in insertion order and the
autoincrement counter for ids. The service objects (`AttendanceService`,
`LeaveService`) are classes whose fields `rows` and `nextId` their methods
change in place, as the services do through their repository. Each method is
proved equal to a pure transition function (`CheckedIn`, `CheckedOut`,
`Approved`, `Rejected`, `Created`, `Updated`, `Removed`). The properties are
proved about those functions. Every method also keeps the table well formed:
ids stay distinct and below the counter.

Clock values are parameters. `now` is the instant the service reads with
`new Date()`; for an insert it is also the creation time. Instants are integer
milliseconds on the server's local time line, so `setHours(0, 0, 0, 0)` is
flooring to a multiple of 86 400 000. Times of day stay strings, as stored. They
are read as the ECMAScript date-time string format reads `1970-01-01THH:mm:00`:
hours 00 to 23 and minutes 00 to 59, plus "24:00". Anything else gives NaN
hours (`NotANumber`). Hours are exact reals.

A leave's status is one of "pending", "approved" and "rejected"
(`backend/src/leave/leave.entity.ts:21`), but nothing guards the transitions:
`approve` and `reject` succeed from any status, and the last call decides
(`Leave.RejectAfterApprove`, `Leave.ApproveAfterReject`). A `create` body may
also carry its own status; "pending" is only the column default.

Modules: `Common` (Option, Result, failures), `Listing` (first match,
selection, descending sort), `Clock` (instants and times of day), `PathParam`
(the numeric conversion of path segments), `Attendance`, `AttendanceApi`,
`Leave`, `LeaveApi`.

## Model

| member | source | states |
|---|---|---|
| Listing.FirstIndex | backend/src/attendance/attendance.service.ts:71-73 | the index found is the first element that matches; None exactly when no element matches |
| Listing.Select | backend/src/leave/leave.service.ts:59-64 | the result keeps every element that satisfies the condition with its multiplicity, and no other element |
| Listing.SortDescBy | backend/src/leave/leave.service.ts:62 | the result is a permutation of the input whose key never increases |
| Listing.SelectDistinctBy | backend/src/attendance/attendance.entity.ts:6-7 | selecting rows keeps primary keys distinct |
| Clock.StartOfDay | backend/src/attendance/attendance.service.ts:67-68 | local midnight is a multiple of one day, at or before the instant and less than a day before it |
| Clock.EndOfDay | backend/src/attendance/attendance.controller.ts:21-22 | the result is the last millisecond of the instant's day: the next millisecond starts the following day |
| Clock.MidnightIsStart | backend/src/attendance/attendance.service.ts:67-68 | a midnight is the start of day of every instant in the day that follows it |
| Clock.WidenedBetween | backend/src/attendance/attendance.controller.ts:18-23 | an instant lies between the widened bounds exactly when its day lies between the two days |
| Clock.ParseFormat | frontend/src/app/attendance/page.tsx:53-58 | every "HH:mm" the client writes parses back to the same minute of the day |
| Clock.FormatParse | backend/src/attendance/attendance.service.ts:106-107 | every time string that parses is the client's spelling of its minute, so parsing is one-to-one |
| Clock.ParseClock | backend/src/attendance/attendance.service.ts:106-107 | a time that reads as a valid date is a five-character "HH:mm" string and denotes at most 1440 minutes; every other string is NaN |
| Clock.FormatClock | frontend/src/app/attendance/page.tsx:56 | the client's time is five characters with a colon in the middle; with ParseFormat, it reads back as the minute it was made from |
| PathParam.ToId | backend/src/attendance/attendance.controller.ts:28-31 | a segment converts to a number exactly when it is a non-empty run of decimal digits |
| PathParam.Decimal | frontend/src/api/index.ts:73 | the client's decimal spelling of an id is non-empty, all digits, and has no leading zero |
| PathParam.ToIdDecimal | frontend/src/api/index.ts:90 | an id the client puts in a URL reaches the service unchanged |
| Attendance.HoursBetween | backend/src/attendance/attendance.service.ts:104-110 | hours times 60 equal the minute difference; the result is negative exactly when check-out is earlier; NaN exactly when a time does not parse |
| Attendance.NineToHalfPastFive | backend/src/attendance/attendance.service.ts:106-109 | 09:00 to 17:30 gives 8.5 hours |
| Attendance.CheckOutBeforeCheckIn | backend/src/attendance/attendance.service.ts:106-109 | 09:00 to 08:00 gives -1 hours: there is no overnight handling |
| Attendance.ClientTimesGiveHours | frontend/src/app/attendance/page.tsx:53-68 | any two times the client writes give exactly their difference in hours |
| Attendance.FindAll | backend/src/attendance/attendance.service.ts:13-17 | every stored row, each as often as stored |
| Attendance.FindOne | backend/src/attendance/attendance.service.ts:19-30 | NotFound exactly when no row has the id; otherwise a stored row with that id |
| Attendance.FindByEmployee | backend/src/attendance/attendance.service.ts:49-54 | exactly the employee's rows, each as often as stored, latest date first |
| Attendance.FindByDateRange | backend/src/attendance/attendance.service.ts:56-64 | exactly the rows with start <= date <= end, each as often as stored, latest date first |
| Attendance.TodayIndex | backend/src/attendance/attendance.service.ts:94-96 | the row found is the first stored row for the employee and day; None exactly when there is none |
| Attendance.CountOnZero | backend/src/attendance/attendance.service.ts:75 | the employee has no row for the day exactly when no stored row matches the employee and the day |
| Attendance.CheckedIn | backend/src/attendance/attendance.service.ts:66-88 | the saved row is today's row for the employee with the new check-in time, and it is stored; the employee's row count for today becomes 1 if it was 0 and is otherwise unchanged; ids stay distinct |
| Attendance.CheckInAddsRow | backend/src/attendance/attendance.service.ts:80-87 | with no row for today, exactly one row is appended: the employee, today's midnight, the given time, status "present", the next id; all other rows stay |
| Attendance.CheckInOverwritesRow | backend/src/attendance/attendance.service.ts:75-78 | with a row for today, no row is added and only that row's check-in changes; its check-out, hours, status and notes are kept |
| Attendance.RepeatedCheckIn | backend/src/attendance/attendance.service.ts:71-87 | a second check-in the same day adds no row, and the employee keeps exactly one row for the day |
| Attendance.CheckedOut | backend/src/attendance/attendance.service.ts:90-113 | NotFound exactly when the employee has no row for today; otherwise the saved row is today's, with the new check-out, and the row count and ids are kept |
| Attendance.HoursAfterCheckOut | backend/src/attendance/attendance.service.ts:105-110 | with a falsy check-in or check-out the previous hours stay; with two parseable times the hours are their minute difference over 60; with a non-empty time that does not parse the hours are NaN |
| Attendance.CheckOutSetsHours | backend/src/attendance/attendance.service.ts:102-110 | check-out changes only one of the employee's rows for today, and in it only the check-out time and the hours |
| Attendance.CheckInThenCheckOut | backend/src/attendance/attendance.service.ts:66-113 | after a check-in, a same-day check-out succeeds on that row and records both times and their difference in hours |
| Attendance.FullDayHours | backend/src/attendance/attendance.service.ts:105-109 | a row checked in at 09:00 and out at 17:30 records 8.5 hours |
| Attendance.NoCheckInKeepsHours | backend/src/attendance/attendance.service.ts:105 | without a check-in time the row keeps its previous hours |
| Attendance.Created | backend/src/attendance/attendance.service.ts:32-35 | a missing date or employee fails as a NOT NULL violation; otherwise one row is appended, the next id is used, and the row carries the body's employee, date, times, hours and notes, with status defaulting to "present" |
| Attendance.Merge | backend/src/attendance/attendance.service.ts:38 | merging a patch never changes the row's id |
| Attendance.UpdateWhere | backend/src/attendance/attendance.service.ts:38 | every row with the id is merged with the patch and every other row is kept |
| Attendance.Updated | backend/src/attendance/attendance.service.ts:37-40 | NotFound exactly when no row has the id; otherwise the rows with the id become their merge with the patch, every other row stays, and the reply is one such merged row |
| Attendance.WithoutId | backend/src/attendance/attendance.service.ts:43 | a delete leaves every row without the id, as often as stored, and no row with it |
| Attendance.Removed | backend/src/attendance/attendance.service.ts:42-47 | NotFound exactly when no row has the id; otherwise only the rows with that id are deleted |
| Attendance.AttendanceService.CheckIn | backend/src/attendance/attendance.service.ts:66-88 | the service's table and reply are those of CheckedIn, and the ids stay distinct |
| Attendance.AttendanceService.CheckOut | backend/src/attendance/attendance.service.ts:90-113 | the table and reply are those of CheckedOut; on NotFound the table is unchanged |
| Attendance.AttendanceService.Create | backend/src/attendance/attendance.service.ts:32-35 | the table and reply are those of Created; on failure the table is unchanged |
| Attendance.AttendanceService.Update | backend/src/attendance/attendance.service.ts:37-40 | the table and reply are those of Updated |
| Attendance.AttendanceService.Remove | backend/src/attendance/attendance.service.ts:42-47 | the table and reply are those of Removed |
| AttendanceApi.FindAll | backend/src/attendance/attendance.controller.ts:16-26 | with one bound missing or empty, every row is listed unfiltered; with both, the listing is latest date first |
| AttendanceApi.RangeIsWholeDays | backend/src/attendance/attendance.controller.ts:18-24 | a ranged listing holds exactly the rows whose day lies between the two days, both included |
| AttendanceApi.OneDayRange | backend/src/attendance/attendance.controller.ts:18-23 | with start and end on the same day, every row dated that day is listed, whatever its time of day |
| AttendanceApi.FindOne | backend/src/attendance/attendance.controller.ts:28-31 | a row is returned exactly when the segment is numeric and a row has that id; otherwise NotFound |
| AttendanceApi.FindOneDecimal | backend/src/attendance/attendance.controller.ts:28-31 | the lookup for a client-formatted id equals the service's lookup of that id |
| AttendanceApi.FindByEmployee | backend/src/attendance/attendance.controller.ts:43-46 | the converted employee id selects exactly that employee's rows; a non-numeric segment selects none |
| AttendanceApi.CheckIn | backend/src/attendance/attendance.controller.ts:48-51 | the body's employee id and time reach the service unchanged |
| AttendanceApi.CheckOut | backend/src/attendance/attendance.controller.ts:53-56 | the body's employee id and time reach the service unchanged |
| AttendanceApi.Create | backend/src/attendance/attendance.controller.ts:11-14 | the body reaches the service unchanged |
| AttendanceApi.Update | backend/src/attendance/attendance.controller.ts:33-36 | a numeric segment updates that id; a non-numeric one changes nothing and is NotFound |
| AttendanceApi.Remove | backend/src/attendance/attendance.controller.ts:38-41 | a numeric segment removes that id; a non-numeric one changes nothing and is NotFound |
| Leave.DaysRequested | backend/src/leave/leave.service.ts:36-39 | the count is at least 1, equals 1 exactly when the dates coincide, and is the least d with the distance at most d - 1 days |
| Leave.DaysRequestedSymmetric | backend/src/leave/leave.service.ts:38 | swapping start and end does not change the count |
| Leave.WholeDaysSpan | backend/src/leave/leave.service.ts:36-39 | a span of n whole days counts n + 1 days |
| Leave.FirstToThirdOfJanuary | backend/src/leave/leave.service.ts:36-39 | 2024-01-01 to 2024-01-03 counts 3 days |
| Leave.FindOne | backend/src/leave/leave.service.ts:20-31 | NotFound exactly when no request has the id; otherwise a stored request with that id |
| Leave.IdIndex | backend/src/leave/leave.service.ts:21-24 | the index found holds the id; None exactly when no request has it |
| Leave.FindAll | backend/src/leave/leave.service.ts:13-18 | every request, each as often as stored, newest first |
| Leave.FindByEmployee | backend/src/leave/leave.service.ts:59-64 | exactly the employee's requests, each as often as stored, newest first |
| Leave.FindByStatus | backend/src/leave/leave.service.ts:66-72 | exactly the requests whose status equals the argument, each as often as stored, newest first |
| Leave.WithDayCount | backend/src/leave/leave.service.ts:35-41 | with both dates present, the computed count replaces the caller's; otherwise the caller's count stays; no other field changes |
| Leave.MissingRequired | backend/src/leave/leave.entity.ts:9-37 | an insert has every NOT NULL column exactly when the dates, type, reason, day count and employee are present |
| Leave.Created | backend/src/leave/leave.service.ts:33-45 | the insert fails exactly when a date, the type, the reason or the employee is missing; otherwise it appends one request with the next id that carries the body's employee, dates, type, reason and decision fields, creation time now, status defaulting to "pending", and the day count computed from the body's dates whatever count the body sent |
| Leave.Merge | backend/src/leave/leave.service.ts:48 | merging a patch never changes the id or the creation time |
| Leave.UpdateWhere | backend/src/leave/leave.service.ts:48 | every request with the id is merged with the patch and every other one is kept |
| Leave.Updated | backend/src/leave/leave.service.ts:47-50 | NotFound exactly when no request has the id; otherwise the requests with the id become their merge with the patch, every other request stays, and the reply is one such merged request |
| Leave.UpdateKeepsDayCount | backend/src/leave/leave.service.ts:47-50 | an update recomputes no day count: the count changes only when the patch sets it |
| Leave.WithoutId | backend/src/leave/leave.service.ts:53 | a delete leaves every request without the id, as often as stored, and none with it |
| Leave.Removed | backend/src/leave/leave.service.ts:52-57 | NotFound exactly when no request has the id; otherwise only requests with that id are deleted |
| Leave.Approved | backend/src/leave/leave.service.ts:74-80 | NotFound exactly when the id is absent; otherwise the saved request has the id and status "approved", and the row count and ids are kept |
| Leave.Rejected | backend/src/leave/leave.service.ts:82-87 | NotFound exactly when the id is absent; otherwise the saved request has the id and status "rejected", and the row count and ids are kept |
| Leave.ApproveChangesOneRequest | backend/src/leave/leave.service.ts:74-80 | approval changes only the request with the id, and in it only the status, the approver and the time; reason, dates, type and rejection reason stay |
| Leave.RejectChangesOneRequest | backend/src/leave/leave.service.ts:82-87 | rejection changes only the request with the id, and in it only the status and the reason; approver and approval time stay |
| Leave.RejectAfterApprove | backend/src/leave/leave.service.ts:74-87 | rejecting an approved request succeeds; the status becomes "rejected" and the approver and approval time remain |
| Leave.ApproveAfterReject | backend/src/leave/leave.service.ts:74-87 | approving a rejected request succeeds; the status becomes "approved" and the rejection reason remains |
| Leave.IdIndexUnique | backend/src/leave/leave.service.ts:75 | with distinct ids, the lookup finds the one request holding the id |
| Leave.LeaveService.Create | backend/src/leave/leave.service.ts:33-45 | the table and reply are those of Created |
| Leave.LeaveService.Update | backend/src/leave/leave.service.ts:47-50 | the table and reply are those of Updated |
| Leave.LeaveService.Remove | backend/src/leave/leave.service.ts:52-57 | the table and reply are those of Removed |
| Leave.LeaveService.Approve | backend/src/leave/leave.service.ts:74-80 | the table and reply are those of Approved |
| Leave.LeaveService.Reject | backend/src/leave/leave.service.ts:82-87 | the table and reply are those of Rejected |
| LeaveApi.FindAll | backend/src/leave/leave.controller.ts:16-22 | a non-empty status lists exactly the requests in that status; an absent or empty one lists every request; newest first either way |
| LeaveApi.EmptyStatusListsAll | backend/src/leave/leave.controller.ts:18 | an empty status query gives the same listing as no status |
| LeaveApi.FindOne | backend/src/leave/leave.controller.ts:24-27 | a request is returned exactly when the segment is numeric and a request has that id; otherwise NotFound |
| LeaveApi.FindOneDecimal | backend/src/leave/leave.controller.ts:24-27 | the lookup for a client-formatted id equals the service's lookup of that id |
| LeaveApi.FindByEmployee | backend/src/leave/leave.controller.ts:39-42 | the converted employee id selects exactly that employee's requests; a non-numeric segment selects none |
| LeaveApi.Create | backend/src/leave/leave.controller.ts:11-14 | the body reaches the service unchanged, so the service alone sets the day count |
| LeaveApi.Update | backend/src/leave/leave.controller.ts:29-32 | a numeric segment updates that id; a non-numeric one changes nothing and is NotFound |
| LeaveApi.Remove | backend/src/leave/leave.controller.ts:34-37 | a numeric segment removes that id; a non-numeric one changes nothing and is NotFound |
| LeaveApi.Approve | backend/src/leave/leave.controller.ts:44-47 | a numeric segment and the body's approver reach the service; a non-numeric one changes nothing and is NotFound |
| LeaveApi.Reject | backend/src/leave/leave.controller.ts:49-52 | a numeric segment and the body's rejection reason reach the service; a non-numeric one changes nothing and is NotFound |

## Left out

- Authentication: both controllers sit behind a bearer-token guard, which is a library concern.
- Relations: the `relations: ['employee']` joins are not modelled. Listings return rows without the employee.
- Foreign keys: `employeeId` references the employees table in both entities. An insert, check-in or update naming an employee that does not exist fails in the database; the model accepts any employee id, because the employees table is not part of this model.
- Ordering among rows with equal keys: the database leaves it unspecified. The model sorts one fixed way, and the contracts claim only the order by key. `Attendance.FindAll` returns the rows in storage order.
- Parsing of date strings: query values and body dates are instants already parsed in local time. Invalid date strings (NaN instants) and time zones are not modelled.
- The date engine's fallback parser: a time string outside "HH:mm" is treated as unparseable (NaN hours), although the engine may accept some other spellings.
- Floating point and column precision: hours are exact reals and day counts exact integers. The `decimal(4,2)` and `decimal(3,1)` rounding, and how the database stores a NaN, are not modelled.
- Bookkeeping columns: attendance `createdAt` and leave `updatedAt` are not modelled; no operation reads them. Leave `createdAt` is modelled because listings sort by it.
- Patches: a patch cannot set a nullable column back to NULL. Body properties `id`, `createdAt` and `updatedAt` are not modelled. An empty patch is a no-op merge here, while the ORM may reject it.
- Path ids: the JavaScript number conversion also accepts surrounding whitespace, a leading sign (`+5` finds row 5), `0x`, `0o` and `0b` prefixes, exponents, fractions and `Infinity`, and it rounds digit strings above 2^53. Here any segment that is not plain decimal digits stands for NaN, which matches no row.
- Request bodies are complete: a missing `approvedBy`, `rejectionReason`, `employeeId` or time is not modelled.
- Concurrency: two simultaneous check-ins can race between the lookup and the save. The model is sequential.
- The client's own day count in the leave form: the service overwrites it, so it is not modelled.
- Employee, department, position, outsourcing and authentication services, seed script, and frontend pages: they are not part of this model.

/** The attendance handlers: marking a day, listing one employee's days within optional bounds,
    the per-employee summary, and the list of every row. */
module AttendanceRoutes {
  import opened Wrappers
  import opened Sequences
  import opened Errors
  import opened Dates
  import opened AttendanceSchema
  import opened Models
  import EmployeeRoutes

  /** What the list handlers return. */
  datatype AttendanceList = AttendanceList(records: seq<Attendance>, total: nat)

  /** What the attendance table checks when one more row is inserted: a fresh key, an existing
      employee, and no row yet for that employee and day. */
  predicate CanInsertRecord(s: Store, a: Attendance) {
    && HasEmployee(s.employees, a.employeeId)
    && forall i :: 0 <= i < |s.attendance| ==>
         s.attendance[i].id != a.id && DayKey(s.attendance[i]) != DayKey(a)
  }

  /** Mark for a payload that passed validation. A missing employee is reported before a duplicate day,
      so an unknown employee never yields a conflict. Otherwise exactly one row is appended with the
      payload's employee_id, date and status and a fresh key; if the table still refuses it, the
      insert becomes a generic duplicate conflict. */
  function MarkValidated(s: Store, p: AttendanceCreate): (r: Result<(Attendance, Store), Error>)
    ensures r == Failure(NotFound(p.employeeId)) <==> !HasEmployee(s.employees, p.employeeId)
    ensures r.Failure? && r.error.NotFound? ==> r.error.employeeId == p.employeeId
    ensures r == Failure(Conflict(AttendanceExists)) <==>
      HasEmployee(s.employees, p.employeeId) && HasDay(s.attendance, p.employeeId, p.date)
    ensures r.Success? ==>
      && r.value.0 == Attendance(s.nextAttendanceKey, p.employeeId, p.date, Token(p.status))
      && r.value.1 == s.(attendance := s.attendance + [r.value.0], nextAttendanceKey := s.nextAttendanceKey + 1)
    ensures Valid(s) ==> r != Failure(Conflict(DuplicateAttendance))
    ensures Valid(s) ==>
      (r.Success? <==> HasEmployee(s.employees, p.employeeId) && !HasDay(s.attendance, p.employeeId, p.date))
  {
    if !HasEmployee(s.employees, p.employeeId) then Failure(NotFound(p.employeeId))
    else if HasDay(s.attendance, p.employeeId, p.date) then Failure(Conflict(AttendanceExists))
    else
      var a := Attendance(s.nextAttendanceKey, p.employeeId, p.date, Token(p.status));
      if !CanInsertRecord(s, a) then Failure(Conflict(DuplicateAttendance))
      else Success((a, s.(attendance := s.attendance + [a], nextAttendanceKey := s.nextAttendanceKey + 1)))
  }

  /** The mark handler: the payload is validated before the store is consulted. */
  function Mark(s: Store, raw: RawAttendance): (r: Result<(Attendance, Store), Error>)
    ensures (r.Failure? && r.error.Invalid?) <==> Validate(raw).Failure?
    ensures r.Failure? && r.error.Invalid? ==> |r.error.errors| > 0
    ensures r.Success? ==>
      && Some(r.value.0.employeeId) == raw.employeeId
      && IsValid(r.value.0.date) && Some(ToIso(r.value.0.date)) == raw.date
      && Some(r.value.0.status) == raw.status
  {
    match Validate(raw)
    case Failure(errs) => Failure(Invalid(errs))
    case Success(p) => MarkValidated(s, p)
  }

  /** A successful mark keeps the store invariant: one row per employee and day, and the new row names
      an existing employee. */
  lemma MarkPreservesValid(s: Store, p: AttendanceCreate)
    requires Valid(s)
    requires WellFormed(p)
    requires MarkValidated(s, p).Success?
    ensures Valid(MarkValidated(s, p).value.1)
  {
    var (a, s') := MarkValidated(s, p).value;
    DistinctByAppend(s.attendance, a, AttendanceKey);
    DistinctByAppend(s.attendance, a, DayKey);
    ParseStatusOfToken(p.status);
  }

  /** Whether a date lies within the bounds that were supplied; an absent bound does not filter. */
  predicate InBounds(d: Date, start: Option<Date>, end: Option<Date>) {
    && (start.None? || OnOrBefore(start.value, d))
    && (end.None? || OnOrBefore(d, end.value))
  }

  /** The rows dated on or after `start`, in order. */
  function From(att: seq<Attendance>, start: Date): (r: seq<Attendance>)
    ensures forall a :: a in r <==> a in att && OnOrBefore(start, a.date)
    ensures multiset(r) <= multiset(att)
    ensures |r| <= |att|
  {
    if |att| == 0 then []
    else
      assert att == [att[0]] + att[1..];
      if OnOrBefore(start, att[0].date) then [att[0]] + From(att[1..], start)
      else From(att[1..], start)
  }

  /** The rows dated on or before `end`, in order. */
  function Until(att: seq<Attendance>, end: Date): (r: seq<Attendance>)
    ensures forall a :: a in r <==> a in att && OnOrBefore(a.date, end)
    ensures multiset(r) <= multiset(att)
    ensures |r| <= |att|
  {
    if |att| == 0 then []
    else
      assert att == [att[0]] + att[1..];
      if OnOrBefore(att[0].date, end) then [att[0]] + Until(att[1..], end)
      else Until(att[1..], end)
  }

  /** The per-employee list handler: NotFound for an unknown employee; otherwise exactly that
      employee's rows whose date lies within the supplied bounds, with their count. */
  function ListForEmployee(s: Store, employeeId: string, start: Option<Date>, end: Option<Date>): (r: Result<AttendanceList, Error>)
    ensures r.Failure? <==> !HasEmployee(s.employees, employeeId)
    ensures r.Failure? ==> r.error == NotFound(employeeId)
    ensures r.Success? ==> r.value.total == |r.value.records| <= |s.attendance|
    ensures r.Success? ==> multiset(r.value.records) <= multiset(s.attendance)
    ensures r.Success? ==> forall a :: a in r.value.records <==>
      a in s.attendance && a.employeeId == employeeId && InBounds(a.date, start, end)
  {
    if !HasEmployee(s.employees, employeeId) then Failure(NotFound(employeeId))
    else
      var all := RecordsOf(s.attendance, employeeId);
      var afterStart := if start.Some? then From(all, start.value) else all;
      var beforeEnd := if end.Some? then Until(afterStart, end.value) else afterStart;
      Success(AttendanceList(beforeEnd, |beforeEnd|))
  }

  /** Without bounds the list is every row of the employee, in table order. */
  lemma ListWithoutBoundsIsAll(s: Store, employeeId: string)
    requires HasEmployee(s.employees, employeeId)
    ensures ListForEmployee(s, employeeId, None, None).value.records == RecordsOf(s.attendance, employeeId)
  {
  }

  /** Supplying a bound only ever removes rows from the list. */
  lemma BoundsOnlyNarrow(s: Store, employeeId: string, start: Option<Date>, end: Option<Date>)
    requires HasEmployee(s.employees, employeeId)
    ensures var narrow := ListForEmployee(s, employeeId, start, end).value.records;
      && (forall a :: a in narrow ==> a in ListForEmployee(s, employeeId, None, end).value.records)
      && (forall a :: a in narrow ==> a in ListForEmployee(s, employeeId, start, None).value.records)
      && (forall a :: a in narrow ==> a in ListForEmployee(s, employeeId, None, None).value.records)
  {
  }

  /** A range that starts after it ends lists nothing. */
  lemma {:induction false} InvertedRangeIsEmpty(s: Store, employeeId: string, start: Date, end: Date)
    requires HasEmployee(s.employees, employeeId)
    requires !OnOrBefore(start, end)
    ensures ListForEmployee(s, employeeId, Some(start), Some(end)).value.records == []
  {
    var records := ListForEmployee(s, employeeId, Some(start), Some(end)).value.records;
    if records != [] {
      var d := records[0].date;
      OnOrBeforeIsTotalOrder(start, d, end);
    }
  }

  /** The summary handler: NotFound for an unknown employee; otherwise how many rows the employee has,
      how many are Present and how many Absent, and the present share as an exact percentage. */
  function Summary(s: Store, employeeId: string): (r: Result<AttendanceSummary, Error>)
    ensures r.Failure? <==> !HasEmployee(s.employees, employeeId)
    ensures r.Failure? ==> r.error == NotFound(employeeId)
    ensures r.Success? ==>
      && r.value.employeeId == employeeId
      && r.value.totalRecords == |RecordsOf(s.attendance, employeeId)|
      && r.value.present == CountStatus(RecordsOf(s.attendance, employeeId), PresentToken)
      && r.value.absent == CountStatus(RecordsOf(s.attendance, employeeId), AbsentToken)
    ensures r.Success? ==> 0.0 <= r.value.attendancePercentage <= 100.0
    ensures r.Success? && r.value.totalRecords == 0 ==> r.value.attendancePercentage == 0.0
    ensures r.Success? && Valid(s) ==> Consistent(r.value)
  {
    if !HasEmployee(s.employees, employeeId) then Failure(NotFound(employeeId))
    else
      var records := RecordsOf(s.attendance, employeeId);
      var total := |records|;
      var present := CountStatus(records, PresentToken);
      var absent := CountStatus(records, AbsentToken);
      assert Valid(s) ==> present + absent == total by {
        if Valid(s) {
          RecordsOfStatuses(s, employeeId);
          StatusCountsPartition(records);
        }
      }
      Success(AttendanceSummary(employeeId, total, present, absent, Percentage(present, total)))
  }

  /** The summary's total agrees with the unbounded list for the same employee. */
  lemma SummaryAgreesWithList(s: Store, employeeId: string)
    requires HasEmployee(s.employees, employeeId)
    ensures Summary(s, employeeId).value.totalRecords == ListForEmployee(s, employeeId, None, None).value.total
  {
  }

  /** Marking a day adds one row to the employee's summary, counted under the marked status. */
  lemma MarkThenSummary(s: Store, p: AttendanceCreate)
    requires Valid(s)
    requires MarkValidated(s, p).Success?
    ensures var before := Summary(s, p.employeeId).value;
      var after := Summary(MarkValidated(s, p).value.1, p.employeeId).value;
      && after.totalRecords == before.totalRecords + 1
      && after.present == before.present + (if p.status == Present then 1 else 0)
      && after.absent == before.absent + (if p.status == Absent then 1 else 0)
  {
    var (a, s') := MarkValidated(s, p).value;
    var mine := RecordsOf(s.attendance, p.employeeId);
    RecordsOfAppend(s.attendance, a, p.employeeId);
    assert RecordsOf(s'.attendance, p.employeeId) == mine + [a];
    CountStatusAppend(mine, a, PresentToken);
    CountStatusAppend(mine, a, AbsentToken);
    ParseStatusOfToken(p.status);
  }

  /** Marking a day for one employee leaves every other employee's summary as it was. */
  lemma MarkLeavesOtherSummaries(s: Store, p: AttendanceCreate, other: string)
    requires MarkValidated(s, p).Success?
    requires other != p.employeeId
    ensures Summary(MarkValidated(s, p).value.1, other) == Summary(s, other)
  {
    var s' := MarkValidated(s, p).value.1;
    var a := MarkValidated(s, p).value.0;
    assert s'.attendance == s.attendance + [a] && s'.employees == s.employees;
    RecordsOfAppend(s.attendance, a, other);
    assert RecordsOf(s.attendance, other) + [] == RecordsOf(s.attendance, other);
    assert RecordsOf(s'.attendance, other) == RecordsOf(s.attendance, other);
  }

  /** The list-all handler: every row of the table, in table order, with their count. */
  function ListAll(s: Store): (l: AttendanceList)
    ensures l.records == s.attendance
    ensures l.total == |l.records| == |s.attendance|
  {
    AttendanceList(s.attendance, |s.attendance|)
  }

  /** After an employee is deleted, nothing about it can be read or marked: every lookup reports NotFound
      and none of its rows remain. */
  lemma DeleteThenAttendanceLookups(s: Store, employeeId: string, start: Option<Date>, end: Option<Date>, p: AttendanceCreate)
    requires Valid(s)
    requires HasEmployee(s.employees, employeeId)
    requires p.employeeId == employeeId
    ensures var s' := EmployeeRoutes.Delete(s, employeeId).value;
      && ListForEmployee(s', employeeId, start, end) == Failure(NotFound(employeeId))
      && Summary(s', employeeId) == Failure(NotFound(employeeId))
      && MarkValidated(s', p) == Failure(NotFound(employeeId))
      && RecordsOf(s'.attendance, employeeId) == []
  {
    EmployeeRoutes.DeleteThenGet(s, employeeId);
    var s' := EmployeeRoutes.Delete(s, employeeId).value;
    forall i | 0 <= i < |s'.attendance| ensures s'.attendance[i].employeeId != employeeId {
      assert s'.attendance[i] in s'.attendance;
    }
    RecordsNotOfUnrelated(s'.attendance, employeeId);
  }
}

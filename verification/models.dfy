/** The record store: the employees and attendance tables, the constraints they declare, and the
    lookups, filters and counts the route handlers run against them. */
module Models {
  import opened Wrappers
  import opened Sequences
  import opened Dates
  import AttendanceSchema

  /** One row of the employees table; `id` is the surrogate key the table assigns. */
  datatype Employee = Employee(id: nat, employeeId: string, fullName: string, email: string, department: string)

  /** One row of the attendance table; the status column holds the status token as text. */
  datatype Attendance = Attendance(id: nat, employeeId: string, date: Date, status: string)

  /** Both tables in insertion order, and the next surrogate key each table will hand out. */
  datatype Store = Store(
    employees: seq<Employee>,
    attendance: seq<Attendance>,
    nextEmployeeKey: nat,
    nextAttendanceKey: nat)

  /** A store with no rows whose key sequences start at 1. */
  function Empty(): (s: Store)
    ensures Valid(s)
    ensures |s.employees| == 0 && |s.attendance| == 0
  {
    Store([], [], 1, 1)
  }

  function EmployeeKey(e: Employee): nat { e.id }
  function EmployeeIdOf(e: Employee): string { e.employeeId }
  function EmailOf(e: Employee): string { e.email }
  function AttendanceKey(a: Attendance): nat { a.id }
  function DayKey(a: Attendance): (string, Date) { (a.employeeId, a.date) }

  /** Some employee carries this employee_id. */
  predicate HasEmployee(emps: seq<Employee>, employeeId: string) {
    exists i :: 0 <= i < |emps| && emps[i].employeeId == employeeId
  }

  /** Position of the first employee (in table order) with this employee_id. */
  function Find(emps: seq<Employee>, employeeId: string): (r: Option<nat>)
    ensures r.None? <==> !HasEmployee(emps, employeeId)
    ensures r.Some? ==> r.value < |emps| && emps[r.value].employeeId == employeeId
    ensures r.Some? ==> forall j :: 0 <= j < r.value ==> emps[j].employeeId != employeeId
  {
    if |emps| == 0 then None
    else if emps[0].employeeId == employeeId then Some(0)
    else
      match Find(emps[1..], employeeId)
      case None =>
        assert forall j :: 0 < j < |emps| ==> emps[j] == emps[1..][j - 1];
        None
      case Some(k) => Some(k + 1)
  }

  /** Under a unique employee_id column, `Find` picks the one and only row with that id. */
  lemma FindIsUnique(emps: seq<Employee>, employeeId: string, i: nat)
    requires DistinctBy(emps, EmployeeIdOf)
    requires i < |emps| && emps[i].employeeId == employeeId
    ensures Find(emps, employeeId) == Some(i)
  {
  }

  /** Some attendance row belongs to this employee and day. */
  predicate HasDay(att: seq<Attendance>, employeeId: string, date: Date) {
    exists i :: 0 <= i < |att| && att[i].employeeId == employeeId && att[i].date == date
  }

  /** Every attendance row names an existing employee: the foreign key. */
  predicate ReferencesExist(att: seq<Attendance>, emps: seq<Employee>) {
    forall i :: 0 <= i < |att| ==> HasEmployee(emps, att[i].employeeId)
  }

  /** Dropping one employee_id's rows from attendance while keeping every other employee keeps the
      foreign key intact. */
  lemma ReferencesSurviveRemoval(att: seq<Attendance>, emps: seq<Employee>,
                                 att': seq<Attendance>, emps': seq<Employee>, employeeId: string)
    requires ReferencesExist(att, emps)
    requires forall a :: a in att' ==> a in att && a.employeeId != employeeId
    requires forall e :: e in emps && e.employeeId != employeeId ==> e in emps'
    ensures ReferencesExist(att', emps')
  {
    forall i | 0 <= i < |att'| ensures HasEmployee(emps', att'[i].employeeId) {
      var a := att'[i];
      assert a in att;
      var m :| 0 <= m < |att| && att[m] == a;
      var j :| 0 <= j < |emps| && emps[j].employeeId == a.employeeId;
      assert emps[j] in emps';
      var j' :| 0 <= j' < |emps'| && emps'[j'] == emps[j];
    }
  }

  /** What the two tables declare: primary keys, unique employee_id, unique email, one row per
      employee and day, and the foreign key from attendance to employees. */
  predicate TableConstraints(emps: seq<Employee>, att: seq<Attendance>) {
    && DistinctBy(emps, EmployeeKey)
    && DistinctBy(emps, EmployeeIdOf)
    && DistinctBy(emps, EmailOf)
    && DistinctBy(att, AttendanceKey)
    && DistinctBy(att, DayKey)
    && ReferencesExist(att, emps)
  }

  /** The store invariant: the table constraints, keys below the next key to be handed out, and only
      status tokens and calendar days in the attendance columns. */
  predicate Valid(s: Store) {
    && TableConstraints(s.employees, s.attendance)
    && (forall i :: 0 <= i < |s.employees| ==> s.employees[i].id < s.nextEmployeeKey)
    && (forall i :: 0 <= i < |s.attendance| ==> s.attendance[i].id < s.nextAttendanceKey)
    && (forall i :: 0 <= i < |s.attendance| ==> AttendanceSchema.IsStatusToken(s.attendance[i].status))
    && (forall i :: 0 <= i < |s.attendance| ==> IsValid(s.attendance[i].date))
  }

  /** The rows of one employee, in table order. */
  function RecordsOf(att: seq<Attendance>, employeeId: string): (r: seq<Attendance>)
    ensures forall a :: a in r <==> a in att && a.employeeId == employeeId
    ensures multiset(r) <= multiset(att)
    ensures |r| <= |att|
  {
    if |att| == 0 then []
    else
      assert att == [att[0]] + att[1..];
      if att[0].employeeId == employeeId then [att[0]] + RecordsOf(att[1..], employeeId)
      else RecordsOf(att[1..], employeeId)
  }

  /** The rows of every other employee, in table order. */
  function RecordsNotOf(att: seq<Attendance>, employeeId: string): (r: seq<Attendance>)
    ensures forall a :: a in r <==> a in att && a.employeeId != employeeId
    ensures |r| <= |att|
  {
    if |att| == 0 then []
    else if att[0].employeeId != employeeId then [att[0]] + RecordsNotOf(att[1..], employeeId)
    else RecordsNotOf(att[1..], employeeId)
  }

  /** Each row belongs either to the employee or to someone else. */
  lemma {:induction false} RecordsPartition(att: seq<Attendance>, employeeId: string)
    ensures |RecordsOf(att, employeeId)| + |RecordsNotOf(att, employeeId)| == |att|
  {
    if |att| > 0 {
      RecordsPartition(att[1..], employeeId);
    }
  }

  /** With no row of the employee, dropping the employee's rows changes nothing. */
  lemma {:induction false} RecordsNotOfUnrelated(att: seq<Attendance>, employeeId: string)
    requires forall i :: 0 <= i < |att| ==> att[i].employeeId != employeeId
    ensures RecordsNotOf(att, employeeId) == att
    ensures RecordsOf(att, employeeId) == []
  {
    if |att| > 0 {
      RecordsNotOfUnrelated(att[1..], employeeId);
      assert att == [att[0]] + att[1..];
    }
  }

  /** A row appended at the end of the table lands at the end of its employee's rows. */
  lemma {:induction false} RecordsOfAppend(att: seq<Attendance>, a: Attendance, employeeId: string)
    ensures RecordsOf(att + [a], employeeId)
      == RecordsOf(att, employeeId) + (if a.employeeId == employeeId then [a] else [])
  {
    if |att| == 0 {
      assert att + [a] == [a];
    } else {
      assert (att + [a])[1..] == att[1..] + [a];
      RecordsOfAppend(att[1..], a, employeeId);
    }
  }

  /** Dropping one employee's rows keeps any key of the other rows distinct. */
  lemma {:induction false} RecordsNotOfKeepsDistinct<K>(att: seq<Attendance>, employeeId: string, key: Attendance -> K)
    requires DistinctBy(att, key)
    ensures DistinctBy(RecordsNotOf(att, employeeId), key)
  {
    if |att| > 0 {
      var rest := RecordsNotOf(att[1..], employeeId);
      assert DistinctBy(att[1..], key) by {
        forall i, j | 0 <= i < j < |att[1..]| ensures key(att[1..][i]) != key(att[1..][j]) {
          assert att[1..][i] == att[i + 1] && att[1..][j] == att[j + 1];
        }
      }
      RecordsNotOfKeepsDistinct(att[1..], employeeId, key);
      if att[0].employeeId != employeeId {
        var r := [att[0]] + rest;
        forall i, j | 0 <= i < j < |r| ensures key(r[i]) != key(r[j]) {
          if i == 0 {
            assert r[j] == rest[j - 1];
            assert r[j] in att[1..];
            var m :| 0 <= m < |att[1..]| && att[1..][m] == r[j];
            assert att[m + 1] == r[j];
          } else {
            assert r[i] == rest[i - 1] && r[j] == rest[j - 1];
          }
        }
      }
    }
  }

  /** Number of rows whose status column holds `token`. */
  function CountStatus(att: seq<Attendance>, token: string): (n: nat)
    ensures n <= |att|
  {
    if |att| == 0 then 0
    else (if att[0].status == token then 1 else 0) + CountStatus(att[1..], token)
  }

  /** Where every status is one of the two tokens, the Present and Absent counts add up to the row count. */
  lemma {:induction false} StatusCountsPartition(att: seq<Attendance>)
    requires forall i :: 0 <= i < |att| ==> AttendanceSchema.IsStatusToken(att[i].status)
    ensures CountStatus(att, AttendanceSchema.PresentToken) + CountStatus(att, AttendanceSchema.AbsentToken) == |att|
  {
    if |att| > 0 {
      assert AttendanceSchema.IsStatusToken(att[0].status);
      StatusCountsPartition(att[1..]);
    }
  }

  /** Appending one row adds one to the count of its status and leaves the other counts alone. */
  lemma {:induction false} CountStatusAppend(att: seq<Attendance>, a: Attendance, token: string)
    ensures CountStatus(att + [a], token) == CountStatus(att, token) + (if a.status == token then 1 else 0)
  {
    if |att| == 0 {
      assert att + [a] == [a];
    } else {
      assert (att + [a])[1..] == att[1..] + [a];
      CountStatusAppend(att[1..], a, token);
    }
  }

  /** The employee's rows with a status token, all of which satisfy the invariant when the store does. */
  lemma RecordsOfStatuses(s: Store, employeeId: string)
    requires Valid(s)
    ensures forall i :: 0 <= i < |RecordsOf(s.attendance, employeeId)| ==>
      AttendanceSchema.IsStatusToken(RecordsOf(s.attendance, employeeId)[i].status)
  {
    var r := RecordsOf(s.attendance, employeeId);
    forall i | 0 <= i < |r| ensures AttendanceSchema.IsStatusToken(r[i].status) {
      assert r[i] in s.attendance;
    }
  }
}

/** The dashboard handler: whole-store counts, the attendance rate, and employees grouped by department. */
module DashboardRoute {
  import opened Wrappers
  import opened AttendanceSchema
  import opened Models
  import EmployeeSchema
  import EmployeeRoutes
  import AttendanceRoutes

  /** What the dashboard reports. */
  datatype DashboardSummary = DashboardSummary(
    totalEmployees: nat,
    totalAttendance: nat,
    present: nat,
    absent: nat,
    attendanceRate: real,
    totalDepartments: nat,
    employeesByDepartment: map<string, nat>)

  /** The departments that occur among the employees. */
  function Departments(emps: seq<Employee>): set<string> {
    set i | 0 <= i < |emps| :: emps[i].department
  }

  /** Number of employees in department `d`. */
  function CountDepartment(emps: seq<Employee>, d: string): (n: nat)
    ensures n <= |emps|
  {
    if |emps| == 0 then 0
    else (if emps[0].department == d then 1 else 0) + CountDepartment(emps[1..], d)
  }

  /** The sum of the values of a map, taken in any order. */
  ghost function MapSum(m: map<string, nat>): nat
    decreases |m|
  {
    if |m| == 0 then 0
    else
      var k := PickKey(m);
      m[k] + MapSum(m - {k})
  }

  ghost function PickKey(m: map<string, nat>): (k: string)
    requires |m| > 0
    ensures k in m
  {
    assert |m.Keys| > 0;
    var k :| k in m.Keys; k
  }

  /** The sum does not depend on which key is taken out first. */
  lemma {:induction false} MapSumRemove(m: map<string, nat>, k: string)
    requires k in m
    ensures MapSum(m) == m[k] + MapSum(m - {k})
    decreases |m|
  {
    var j := PickKey(m);
    if j != k {
      assert |m - {j}| == |m| - 1;
      assert |m - {k}| == |m| - 1;
      MapSumRemove(m - {j}, k);
      MapSumRemove(m - {k}, j);
      assert m - {j} - {k} == m - {k} - {j};
    }
  }

  /** Setting one key's value changes the sum by the difference. */
  lemma MapSumUpdate(m: map<string, nat>, k: string, v: nat)
    ensures MapSum(m[k := v]) + (if k in m then m[k] else 0) == MapSum(m) + v
  {
    var m' := m[k := v];
    MapSumRemove(m', k);
    if k in m {
      MapSumRemove(m, k);
      assert m' - {k} == m - {k};
    } else {
      assert m' - {k} == m;
    }
  }

  /** The group-by: every department that occurs maps to its number of employees, no other key is
      present, and the counts add up to the number of employees. */
  function GroupByDepartment(emps: seq<Employee>): (m: map<string, nat>)
    ensures GroupsCorrectly(emps, m)
    ensures MapSum(m) == |emps|
  {
    if |emps| == 0 then map[]
    else
      var rest := GroupByDepartment(emps[1..]);
      StepGroups(emps, rest);
      StepSum(rest, emps[0].department);
      Bump(rest, emps[0].department)
  }

  /** `m` holds exactly the departments of `emps`, each with its (positive) number of employees. */
  ghost predicate GroupsCorrectly(emps: seq<Employee>, m: map<string, nat>) {
    && m.Keys == Departments(emps)
    && forall d :: d in m ==> m[d] == CountDepartment(emps, d) && m[d] >= 1
  }

  /** Counting the first employee into the grouping of the others gives the grouping of all. */
  lemma StepGroups(emps: seq<Employee>, rest: map<string, nat>)
    requires |emps| > 0
    requires GroupsCorrectly(emps[1..], rest)
    ensures GroupsCorrectly(emps, Bump(rest, emps[0].department))
  {
    StepKeys(emps, rest);
    StepCounts(emps, rest);
  }

  /** Counting one more employee adds one to the sum of the counts. */
  lemma StepSum(rest: map<string, nat>, d: string)
    ensures MapSum(Bump(rest, d)) == MapSum(rest) + 1
  {
    MapSumUpdate(rest, d, (if d in rest then rest[d] else 0) + 1);
  }

  /** One more employee in department `d`. */
  function Bump(m: map<string, nat>, d: string): map<string, nat> {
    m[d := (if d in m then m[d] else 0) + 1]
  }

  lemma StepKeys(emps: seq<Employee>, rest: map<string, nat>)
    requires |emps| > 0
    requires GroupsCorrectly(emps[1..], rest)
    ensures Bump(rest, emps[0].department).Keys == Departments(emps)
  {
    DepartmentsCons(emps);
  }

  lemma StepCounts(emps: seq<Employee>, rest: map<string, nat>)
    requires |emps| > 0
    requires GroupsCorrectly(emps[1..], rest)
    ensures var m := Bump(rest, emps[0].department);
      forall x :: x in m ==> m[x] == CountDepartment(emps, x) && m[x] >= 1
  {
    var d := emps[0].department;
    if d !in rest {
      DepartmentAbsentCountsZero(emps[1..], d);
    }
  }

  lemma DepartmentsCons(emps: seq<Employee>)
    requires |emps| > 0
    ensures Departments(emps) == {emps[0].department} + Departments(emps[1..])
  {
    forall x ensures x in Departments(emps) <==> x in {emps[0].department} + Departments(emps[1..]) {
      if x in Departments(emps) {
        var i :| 0 <= i < |emps| && emps[i].department == x;
        if i > 0 { assert emps[1..][i - 1].department == x; }
      }
      if x in Departments(emps[1..]) {
        var i :| 0 <= i < |emps[1..]| && emps[1..][i].department == x;
        assert emps[i + 1].department == x;
      }
    }
  }

  /** A department that occurs nowhere has no employees. */
  lemma {:induction false} DepartmentAbsentCountsZero(emps: seq<Employee>, d: string)
    requires d !in Departments(emps)
    ensures CountDepartment(emps, d) == 0
  {
    if |emps| > 0 {
      DepartmentsCons(emps);
      DepartmentAbsentCountsZero(emps[1..], d);
    }
  }

  /** The present share of all rows as an exact percentage; 0 when there are no rows. */
  function AttendanceRate(att: seq<Attendance>): (rate: real)
    ensures |att| == 0 ==> rate == 0.0
    ensures |att| > 0 ==> rate * (|att| as real) == (CountStatus(att, PresentToken) as real) * 100.0
    ensures 0.0 <= rate <= 100.0
  {
    Percentage(CountStatus(att, PresentToken), |att|)
  }

  /** The dashboard handler. Totals are the sizes of the two tables; Present and Absent count rows by
      status and, in a valid store, add up to the total; the rate lies between 0 and 100 and is 0 with
      no rows; the department map holds exactly the departments that occur, each
      with its number of employees, and its counts add up to the number of employees. */
  function Summary(s: Store): (d: DashboardSummary)
    ensures d.totalEmployees == |s.employees|
    ensures d.totalAttendance == |s.attendance|
    ensures d.present == CountStatus(s.attendance, PresentToken)
    ensures d.absent == CountStatus(s.attendance, AbsentToken)
    ensures Valid(s) ==> d.present + d.absent == d.totalAttendance
    ensures d.totalAttendance == 0 ==> d.attendanceRate == 0.0
    ensures 0.0 <= d.attendanceRate <= 100.0
    ensures d.employeesByDepartment.Keys == Departments(s.employees)
    ensures forall k :: k in d.employeesByDepartment ==>
      d.employeesByDepartment[k] == CountDepartment(s.employees, k) >= 1
    ensures d.totalDepartments == |d.employeesByDepartment| == |Departments(s.employees)|
    ensures MapSum(d.employeesByDepartment) == d.totalEmployees
  {
    var present := CountStatus(s.attendance, PresentToken);
    var absent := CountStatus(s.attendance, AbsentToken);
    assert Valid(s) ==> present + absent == |s.attendance| by {
      if Valid(s) {
        StatusCountsPartition(s.attendance);
      }
    }
    var rate := AttendanceRate(s.attendance);
    var byDepartment := GroupByDepartment(s.employees);
    DashboardSummary(
      |s.employees|,
      |s.attendance|,
      present,
      absent,
      rate,
      |byDepartment|,
      byDepartment)
  }

  /** The dashboard rate is the same percentage the per-employee summary uses, taken over all rows:
      the present count times 100 over the number of rows. */
  lemma DashboardRateIsPresentShare(s: Store)
    ensures Summary(s).attendanceRate == Percentage(Summary(s).present, Summary(s).totalAttendance)
  {
  }

  /** On an empty store every count and the rate are zero and no department is listed. */
  lemma EmptyDashboard()
    ensures Summary(Empty()) == DashboardSummary(0, 0, 0, 0, 0.0, 0, map[])
  {
  }

  /** The dashboard's totals agree with the two list handlers. */
  lemma DashboardAgreesWithLists(s: Store)
    ensures Summary(s).totalEmployees == EmployeeRoutes.List(s).total
    ensures Summary(s).totalAttendance == AttendanceRoutes.ListAll(s).total
  {
  }

  /** Adding one employee at the end adds one to its department's count and leaves the others alone. */
  lemma {:induction false} CountDepartmentAppend(emps: seq<Employee>, e: Employee, d: string)
    ensures CountDepartment(emps + [e], d) == CountDepartment(emps, d) + (if e.department == d then 1 else 0)
  {
    if |emps| == 0 {
      assert emps + [e] == [e];
    } else {
      assert (emps + [e])[1..] == emps[1..] + [e];
      CountDepartmentAppend(emps[1..], e, d);
    }
  }

  /** The departments of a list with one more employee. */
  lemma DepartmentsSnoc(emps: seq<Employee>, e: Employee)
    ensures Departments(emps + [e]) == Departments(emps) + {e.department}
  {
    var all := emps + [e];
    forall x ensures x in Departments(all) <==> x in Departments(emps) + {e.department} {
      if x in Departments(all) {
        var i :| 0 <= i < |all| && all[i].department == x;
        if i < |emps| { assert emps[i].department == x; }
      }
      if x in Departments(emps) {
        var i :| 0 <= i < |emps| && emps[i].department == x;
        assert all[i].department == x;
      }
      assert all[|emps|] == e;
    }
  }

  /** Two correct groupings of the same employees are the same map. */
  lemma GroupingIsUnique(emps: seq<Employee>, m1: map<string, nat>, m2: map<string, nat>)
    requires GroupsCorrectly(emps, m1) && GroupsCorrectly(emps, m2)
    ensures m1 == m2
  {
  }

  /** Counting one more employee into a correct grouping keeps it correct. */
  lemma BumpGroupsAppend(emps: seq<Employee>, e: Employee, m: map<string, nat>)
    requires GroupsCorrectly(emps, m)
    ensures GroupsCorrectly(emps + [e], Bump(m, e.department))
  {
    DepartmentsSnoc(emps, e);
    var bumped := Bump(m, e.department);
    forall k | k in bumped ensures bumped[k] == CountDepartment(emps + [e], k) && bumped[k] >= 1 {
      CountDepartmentAppend(emps, e, k);
      if k !in m {
        DepartmentAbsentCountsZero(emps, k);
      }
    }
  }

  /** Grouping one more employee is counting it into the grouping of the others. */
  lemma GroupAfterAppend(emps: seq<Employee>, e: Employee)
    ensures GroupByDepartment(emps + [e]) == Bump(GroupByDepartment(emps), e.department)
  {
    var before := GroupByDepartment(emps);
    BumpGroupsAppend(emps, e, before);
    GroupingIsUnique(emps + [e], GroupByDepartment(emps + [e]), Bump(before, e.department));
  }

  /** The dashboard of a store with one more employee and the same attendance rows. */
  lemma SummaryAfterEmployeeAppend(s: Store, t: Store, e: Employee)
    requires t.employees == s.employees + [e] && t.attendance == s.attendance
    ensures var before := Summary(s);
      var after := Summary(t);
      && after.totalEmployees == before.totalEmployees + 1
      && after.employeesByDepartment == Bump(before.employeesByDepartment, e.department)
      && after.totalAttendance == before.totalAttendance
      && after.present == before.present
      && after.absent == before.absent
  {
    GroupAfterAppend(s.employees, e);
  }

  /** After a create, the dashboard counts one more employee and one more in the new employee's
      department; every other department and the attendance figures stay as they were. */
  lemma DashboardAfterCreate(s: Store, p: EmployeeSchema.EmployeeCreate, e: Employee, s': Store)
    requires EmployeeRoutes.CreateValidated(s, p) == Success((e, s'))
    ensures var before := Summary(s);
      var after := Summary(s');
      && after.totalEmployees == before.totalEmployees + 1
      && after.employeesByDepartment == Bump(before.employeesByDepartment, p.department)
      && after.totalAttendance == before.totalAttendance
      && after.present == before.present
      && after.absent == before.absent
  {
    assert s'.employees == s.employees + [e] && s'.attendance == s.attendance && e.department == p.department;
    SummaryAfterEmployeeAppend(s, s', e);
  }

  /** After a mark, the dashboard counts one more row, under the marked status; the employee figures do not move. */
  lemma DashboardAfterMark(s: Store, p: AttendanceCreate)
    requires AttendanceRoutes.MarkValidated(s, p).Success?
    ensures var before := Summary(s);
      var after := Summary(AttendanceRoutes.MarkValidated(s, p).value.1);
      && after.totalAttendance == before.totalAttendance + 1
      && after.present == before.present + (if p.status == Present then 1 else 0)
      && after.absent == before.absent + (if p.status == Absent then 1 else 0)
      && after.totalEmployees == before.totalEmployees
      && after.employeesByDepartment == before.employeesByDepartment
  {
    var (a, s') := AttendanceRoutes.MarkValidated(s, p).value;
    CountStatusAppend(s.attendance, a, PresentToken);
    CountStatusAppend(s.attendance, a, AbsentToken);
    ParseStatusOfToken(p.status);
  }
}

/** The employee handlers as store transitions: create, list, get, and delete with its cascade. */
module EmployeeRoutes {
  import opened Wrappers
  import opened Sequences
  import opened Errors
  import opened EmployeeSchema
  import opened Models

  /** What listing employees returns. */
  datatype EmployeeList = EmployeeList(employees: seq<Employee>, total: nat)

  /** An existing employee collides with the payload on employee_id or on email. */
  predicate Clashes(e: Employee, p: EmployeeCreate) {
    e.employeeId == p.employeeId || e.email == p.email
  }

  /** Position of the first employee, in table order, that collides with the payload. */
  function FirstClash(emps: seq<Employee>, p: EmployeeCreate): (r: Option<nat>)
    ensures r.None? <==> forall j :: 0 <= j < |emps| ==> !Clashes(emps[j], p)
    ensures r.Some? ==> r.value < |emps| && Clashes(emps[r.value], p)
    ensures r.Some? ==> forall j :: 0 <= j < r.value ==> !Clashes(emps[j], p)
  {
    if |emps| == 0 then None
    else if Clashes(emps[0], p) then Some(0)
    else
      match FirstClash(emps[1..], p)
      case None =>
        assert forall j :: 0 < j < |emps| ==> emps[j] == emps[1..][j - 1];
        None
      case Some(k) => Some(k + 1)
  }

  /** What the unique indexes of the employees table check when one more row is inserted. */
  predicate CanInsert(emps: seq<Employee>, e: Employee) {
    forall i :: 0 <= i < |emps| ==>
      emps[i].id != e.id && emps[i].employeeId != e.employeeId && emps[i].email != e.email
  }

  /** The row a create writes for a payload. */
  function NewEmployee(s: Store, p: EmployeeCreate): Employee {
    Employee(s.nextEmployeeKey, p.employeeId, p.fullName, p.email, p.department)
  }

  /** Create for a payload that passed validation. The first colliding employee in table order decides
      the conflict: an employee_id conflict when that employee has the payload's employee_id, an email
      conflict otherwise. Without a collision exactly one row is appended, carrying the payload's fields
      and a fresh key; if the table's unique indexes still refuse the row, the insert becomes a generic
      duplicate conflict. */
  function CreateValidated(s: Store, p: EmployeeCreate): (r: Result<(Employee, Store), Error>)
    ensures r.Failure? ==> r.error.Conflict?
    ensures (exists i :: 0 <= i < |s.employees| && Clashes(s.employees[i], p)) ==>
      r.Failure? && r.error.reason in {EmployeeIdTaken, EmailTaken}
    ensures r == Failure(Conflict(EmployeeIdTaken)) ==> HasEmployee(s.employees, p.employeeId)
    ensures r == Failure(Conflict(EmailTaken)) ==>
      exists i :: 0 <= i < |s.employees| && s.employees[i].email == p.email
    ensures r.Success? ==>
      && r.value.0 == Employee(s.nextEmployeeKey, p.employeeId, p.fullName, p.email, p.department)
      && r.value.1 == s.(employees := s.employees + [r.value.0], nextEmployeeKey := s.nextEmployeeKey + 1)
    ensures Valid(s) ==> r != Failure(Conflict(DuplicateEntry))
    ensures Valid(s) ==> (r.Success? <==> forall i :: 0 <= i < |s.employees| ==> !Clashes(s.employees[i], p))
  {
    match FirstClash(s.employees, p)
    case Some(k) =>
      Failure(Conflict(if s.employees[k].employeeId == p.employeeId then EmployeeIdTaken else EmailTaken))
    case None =>
      var e := NewEmployee(s, p);
      if !CanInsert(s.employees, e) then Failure(Conflict(DuplicateEntry))
      else Success((e, s.(employees := s.employees + [e], nextEmployeeKey := s.nextEmployeeKey + 1)))
  }

  /** The create handler: the payload is validated before the store is consulted, and the employee is
      stored with the email in its stored form (trimmed, domain in lower case). */
  function Create(s: Store, raw: RawEmployee): (r: Result<(Employee, Store), Error>)
    ensures (r.Failure? && r.error.Invalid?) <==> Validate(raw).Failure?
    ensures r.Failure? && r.error.Invalid? ==> |r.error.errors| > 0
    ensures r.Success? ==>
      && WellFormed(EmployeeCreate(r.value.0.employeeId, r.value.0.fullName, r.value.0.email, r.value.0.department))
      && Some(r.value.0.employeeId) == raw.employeeId && Some(r.value.0.fullName) == raw.fullName
      && raw.email.Some? && r.value.0.email == NormalizeEmail(Trim(raw.email.value))
      && Some(r.value.0.department) == raw.department
  {
    match Validate(raw)
    case Failure(errs) => Failure(Invalid(errs))
    case Success(p) => CreateValidated(s, p)
  }

  /** A create whose payload collides is told which field collided by the first colliding employee:
      employee_id exactly when that employee has the payload's employee_id. */
  lemma CreateReportsFirstClash(s: Store, p: EmployeeCreate, i: nat)
    requires i < |s.employees| && Clashes(s.employees[i], p)
    requires forall j :: 0 <= j < i ==> !Clashes(s.employees[j], p)
    ensures CreateValidated(s, p) ==
      Failure(Conflict(if s.employees[i].employeeId == p.employeeId then EmployeeIdTaken else EmailTaken))
  {
  }

  /** A successful create keeps the store invariant: the two unique columns stay unique, the new key is fresh. */
  lemma CreatePreservesValid(s: Store, p: EmployeeCreate)
    requires Valid(s)
    requires CreateValidated(s, p).Success?
    ensures Valid(CreateValidated(s, p).value.1)
  {
    var e := NewEmployee(s, p);
    var s' := CreateValidated(s, p).value.1;
    DistinctByAppend(s.employees, e, EmployeeKey);
    DistinctByAppend(s.employees, e, EmployeeIdOf);
    DistinctByAppend(s.employees, e, EmailOf);
    forall i | 0 <= i < |s'.attendance| ensures HasEmployee(s'.employees, s'.attendance[i].employeeId) {
      var j :| 0 <= j < |s.employees| && s.employees[j].employeeId == s.attendance[i].employeeId;
      assert s'.employees[j] == s.employees[j];
    }
  }

  /** The get handler: the employee with this employee_id, or NotFound. */
  function Get(s: Store, employeeId: string): (r: Result<Employee, Error>)
    ensures r.Failure? <==> !HasEmployee(s.employees, employeeId)
    ensures r.Failure? ==> r.error == NotFound(employeeId)
    ensures r.Success? ==> r.value in s.employees && r.value.employeeId == employeeId
    ensures r.Success? && Valid(s) ==>
      forall e :: e in s.employees && e.employeeId == employeeId ==> e == r.value
  {
    match Find(s.employees, employeeId)
    case None => Failure(NotFound(employeeId))
    case Some(k) =>
      assert Valid(s) ==> forall e :: e in s.employees && e.employeeId == employeeId ==> e == s.employees[k] by {
        if Valid(s) {
          forall e | e in s.employees && e.employeeId == employeeId ensures e == s.employees[k] {
            var j :| 0 <= j < |s.employees| && s.employees[j] == e;
            FindIsUnique(s.employees, employeeId, j);
          }
        }
      }
      Success(s.employees[k])
  }

  /** The list handler: every employee, in table order, and how many there are. */
  function List(s: Store): (l: EmployeeList)
    ensures l.employees == s.employees
    ensures l.total == |l.employees| == |s.employees|
  {
    EmployeeList(s.employees, |s.employees|)
  }

  /** The delete handler: NotFound when no employee has this employee_id; otherwise the first such
      employee is removed together with every attendance row that references its employee_id, and
      nothing else changes. */
  function Delete(s: Store, employeeId: string): (r: Result<Store, Error>)
    ensures r.Failure? <==> !HasEmployee(s.employees, employeeId)
    ensures r.Failure? ==> r.error == NotFound(employeeId)
    ensures r.Success? ==>
      && |r.value.employees| == |s.employees| - 1
      && (forall e :: e in r.value.employees ==> e in s.employees)
      && (forall a :: a in r.value.attendance <==> a in s.attendance && a.employeeId != employeeId)
      && |r.value.attendance| == |s.attendance| - |RecordsOf(s.attendance, employeeId)|
      && r.value.nextEmployeeKey == s.nextEmployeeKey
      && r.value.nextAttendanceKey == s.nextAttendanceKey
  {
    match Find(s.employees, employeeId)
    case None => Failure(NotFound(employeeId))
    case Some(k) =>
      RecordsPartition(s.attendance, employeeId);
      var emps := RemoveAt(s.employees, k);
      assert forall e :: e in emps ==> e in s.employees by {
        forall e | e in emps ensures e in s.employees {
          var j :| 0 <= j < |emps| && emps[j] == e;
          assert e == s.employees[if j < k then j else j + 1];
        }
      }
      Success(s.(employees := emps, attendance := RecordsNotOf(s.attendance, employeeId)))
  }

  /** In a valid store, delete removes exactly the employee with that employee_id: every other employee stays. */
  lemma DeleteRemovesExactly(s: Store, employeeId: string)
    requires Valid(s)
    requires HasEmployee(s.employees, employeeId)
    ensures forall e :: e in Delete(s, employeeId).value.employees <==> e in s.employees && e.employeeId != employeeId
  {
    var k := Find(s.employees, employeeId).value;
    var emps := Delete(s, employeeId).value.employees;
    assert emps == RemoveAt(s.employees, k);
    forall e ensures e in emps <==> e in s.employees && e.employeeId != employeeId {
      if e in emps {
        var j :| 0 <= j < |emps| && emps[j] == e;
        var j' := if j < k then j else j + 1;
        assert e == s.employees[j'] && j' != k;
        assert EmployeeIdOf(s.employees[j']) != EmployeeIdOf(s.employees[k]);
      }
      if e in s.employees && e.employeeId != employeeId {
        var j :| 0 <= j < |s.employees| && s.employees[j] == e;
        assert j != k;
        assert e == emps[if j < k then j else j - 1];
      }
    }
  }

  /** Delete keeps the store invariant; in particular no attendance row is left without its employee. */
  lemma DeletePreservesValid(s: Store, employeeId: string)
    requires Valid(s)
    requires HasEmployee(s.employees, employeeId)
    ensures Valid(Delete(s, employeeId).value)
  {
    var k := Find(s.employees, employeeId).value;
    var s' := Delete(s, employeeId).value;
    DistinctByRemoveAt(s.employees, k, EmployeeKey);
    DistinctByRemoveAt(s.employees, k, EmployeeIdOf);
    DistinctByRemoveAt(s.employees, k, EmailOf);
    RecordsNotOfKeepsDistinct(s.attendance, employeeId, AttendanceKey);
    RecordsNotOfKeepsDistinct(s.attendance, employeeId, DayKey);
    DeleteKeepsReferences(s, employeeId);
    forall i | 0 <= i < |s'.employees| ensures s'.employees[i].id < s'.nextEmployeeKey {
      assert s'.employees[i] in s.employees;
    }
    forall i | 0 <= i < |s'.attendance|
      ensures s'.attendance[i].id < s'.nextAttendanceKey
      ensures AttendanceSchema.IsStatusToken(s'.attendance[i].status)
      ensures Dates.IsValid(s'.attendance[i].date)
    {
      assert s'.attendance[i] in s.attendance;
    }
  }

  /** Every attendance row that survives a delete belongs to an employee that survives it too. */
  lemma DeleteKeepsReferences(s: Store, employeeId: string)
    requires Valid(s)
    requires HasEmployee(s.employees, employeeId)
    ensures ReferencesExist(Delete(s, employeeId).value.attendance, Delete(s, employeeId).value.employees)
  {
    var s' := Delete(s, employeeId).value;
    DeleteRemovesExactly(s, employeeId);
    ReferencesSurviveRemoval(s.attendance, s.employees, s'.attendance, s'.employees, employeeId);
  }

  /** Creating an employee and then fetching its employee_id returns the created row. */
  lemma CreateThenGet(s: Store, p: EmployeeCreate)
    requires Valid(s)
    requires CreateValidated(s, p).Success?
    ensures Get(CreateValidated(s, p).value.1, p.employeeId) == Success(CreateValidated(s, p).value.0)
  {
    var (e, s') := CreateValidated(s, p).value;
    CreatePreservesValid(s, p);
    FindIsUnique(s'.employees, p.employeeId, |s.employees|);
  }

  /** Creating an employee and then deleting it gives back both tables as they were; only the key
      sequence has moved on. */
  lemma CreateThenDelete(s: Store, p: EmployeeCreate, e: Employee, s': Store)
    requires Valid(s)
    requires CreateValidated(s, p) == Success((e, s'))
    ensures Delete(s', p.employeeId) == Success(s.(nextEmployeeKey := s.nextEmployeeKey + 1))
  {
    CreatePreservesValid(s, p);
    FindIsUnique(s'.employees, p.employeeId, |s.employees|);
    assert RemoveAt(s'.employees, |s.employees|) == s.employees;
    NoRowsForUnknownEmployee(s, p.employeeId);
  }

  /** In a valid store, an employee_id nobody has owns no attendance row, so a cascade on it removes nothing. */
  lemma NoRowsForUnknownEmployee(s: Store, employeeId: string)
    requires Valid(s)
    requires !HasEmployee(s.employees, employeeId)
    ensures RecordsNotOf(s.attendance, employeeId) == s.attendance
  {
    forall i | 0 <= i < |s.attendance| ensures s.attendance[i].employeeId != employeeId {
      assert HasEmployee(s.employees, s.attendance[i].employeeId);
    }
    RecordsNotOfUnrelated(s.attendance, employeeId);
  }

  /** After a delete, the employee_id is gone: fetching it and deleting it again both report NotFound. */
  lemma DeleteThenGet(s: Store, employeeId: string)
    requires Valid(s)
    requires HasEmployee(s.employees, employeeId)
    ensures Get(Delete(s, employeeId).value, employeeId) == Failure(NotFound(employeeId))
    ensures Delete(Delete(s, employeeId).value, employeeId) == Failure(NotFound(employeeId))
  {
    DeleteRemovesExactly(s, employeeId);
  }

  /** In this model table order decides the conflict reason even when both fields collide with
      different employees (the query leaves that order to the database): here the payload's
      employee_id belongs to the second employee, yet the first employee's email match is reported. */
  lemma EmailReportedBeforeLaterIdClash()
    ensures var s := Store([Employee(1, "EMP001", "Ann", "ann@example.com", "HR"),
                            Employee(2, "EMP002", "Bob", "bob@example.com", "Sales")], [], 3, 1);
      CreateValidated(s, EmployeeCreate("EMP002", "Eve", "ann@example.com", "HR")) == Failure(Conflict(EmailTaken))
  {
    var s := Store([Employee(1, "EMP001", "Ann", "ann@example.com", "HR"),
                    Employee(2, "EMP002", "Bob", "bob@example.com", "Sales")], [], 3, 1);
    var p := EmployeeCreate("EMP002", "Eve", "ann@example.com", "HR");
    assert "EMP001" != "EMP002" by { assert "EMP001"[5] != "EMP002"[5]; }
    CreateReportsFirstClash(s, p, 0);
  }

  /** An email is compared in its stored form: a payload whose email, once trimmed and with its domain
      lowered, is some employee's email is refused with a conflict. */
  lemma CreateComparesStoredEmail(s: Store, raw: RawEmployee, i: nat)
    ensures Validate(raw).Success? && i < |s.employees| && s.employees[i].email == Validate(raw).value.email ==>
      Create(s, raw).Failure? && Create(s, raw).error.Conflict?
  {
    if Validate(raw).Success? && i < |s.employees| && s.employees[i].email == Validate(raw).value.email {
      var p := Validate(raw).value;
      assert Clashes(s.employees[i], p);
      match FirstClash(s.employees, p)
      case Some(k) =>
      case None =>
    }
  }

  /** An address that differs from a stored one only in the case of its domain is taken. */
  lemma DomainCaseVariantTaken(s: Store)
    requires |s.employees| > 0 && s.employees[0].email == "ann@example.com"
    requires s.employees[0].employeeId != "EMP002"
    ensures Create(s, RawEmployee(Some("EMP002"), Some("Ann Lee"), Some("ann@EXAMPLE.com"), Some("Sales")))
      == Failure(Conflict(EmailTaken))
  {
    var raw := RawEmployee(Some("EMP002"), Some("Ann Lee"), Some("ann@EXAMPLE.com"), Some("Sales"));
    UpperAnnIsEmail();
    TrimEmail("ann@EXAMPLE.com");
    UpperAnnNormalized();
    assert AcceptsAll(raw);
    var p := EmployeeCreate("EMP002", "Ann Lee", "ann@example.com", "Sales");
    assert Validate(raw) == Success(p);
    CreateReportsFirstClash(s, p, 0);
  }

  /** An address written with blanks around it, here a vertical tab in front, is stripped before the
      duplicate check, so a stored address written that way is taken. */
  lemma BlankPrefixedEmailTaken(s: Store)
    requires |s.employees| > 0 && s.employees[0].email == "ann@example.com"
    requires s.employees[0].employeeId != "EMP002"
    ensures Create(s, RawEmployee(Some("EMP002"), Some("Ann Lee"), Some("\U{B}ann@example.com"), Some("Sales")))
      == Failure(Conflict(EmailTaken))
  {
    VerticalTabStripped();
    CreateReportsFirstClash(s, EmployeeCreate("EMP002", "Ann Lee", "ann@example.com", "Sales"), 0);
  }
}

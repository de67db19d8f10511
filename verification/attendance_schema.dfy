/** The attendance payload, its closed status set, and the shape of a per-employee summary. */
module AttendanceSchema {
  import opened Wrappers
  import opened Validation
  import opened Dates

  /** The two attendance statuses; no other value exists. */
  datatype Status = Present | Absent

  const PresentToken: string := "Present"
  const AbsentToken: string := "Absent"

  /** The string a status is written as, in payloads and in the table. */
  function Token(s: Status): string {
    match s
    case Present => PresentToken
    case Absent => AbsentToken
  }

  predicate IsStatusToken(t: string) {
    t == PresentToken || t == AbsentToken
  }

  /** Reads a status token; only the two exact, case-sensitive spellings are accepted. */
  function ParseStatus(t: string): (r: Option<Status>)
    ensures r.Some? <==> IsStatusToken(t)
    ensures r.Some? ==> Token(r.value) == t
  {
    if t == PresentToken then Some(Present)
    else if t == AbsentToken then Some(Absent)
    else None
  }

  /** Writing a status and reading it back gives the same status, and the two statuses are written differently. */
  lemma ParseStatusOfToken(s: Status)
    ensures ParseStatus(Token(s)) == Some(s)
    ensures IsStatusToken(Token(s))
    ensures Token(Present) != Token(Absent)
  {
  }

  /** Tokens other than the two spellings are refused, whatever their case. */
  lemma OtherTokensRejected()
    ensures ParseStatus("Maybe").None?
    ensures ParseStatus("present").None?
    ensures ParseStatus("ABSENT").None?
  {
    assert "Maybe" != PresentToken && "Maybe" != AbsentToken;
    assert "present"[0] != PresentToken[0];
    assert "ABSENT"[1] != AbsentToken[1];
  }

  /** The payload as it arrives: any field may be missing; the date is still text. */
  datatype RawAttendance = RawAttendance(employeeId: Option<string>, date: Option<string>, status: Option<string>)

  /** A payload that passed validation. */
  datatype AttendanceCreate = AttendanceCreate(employeeId: string, date: Date, status: Status)

  /** Every field of a validated payload holds a legal value. */
  predicate WellFormed(p: AttendanceCreate) {
    IsValid(p.date)
  }

  /** Whether the raw payload satisfies the rule of one field (fields of other payloads always pass). */
  predicate Accepts(raw: RawAttendance, field: Field) {
    match field
    case EmployeeIdField => raw.employeeId.Some?
    case DateField => raw.date.Some? && ParseIso(raw.date.value).Some?
    case StatusField => raw.status.Some? && ParseStatus(raw.status.value).Some?
    case _ => true
  }

  function EmployeeIdErrors(v: Option<string>): (errs: seq<FieldError>)
    ensures errs == [] <==> v.Some?
    ensures forall i :: 0 <= i < |errs| ==> errs[i].field == EmployeeIdField
  {
    if v.None? then [FieldError(EmployeeIdField, Missing)] else []
  }

  function DateErrors(v: Option<string>): (errs: seq<FieldError>)
    ensures errs == [] <==> v.Some? && ParseIso(v.value).Some?
    ensures forall i :: 0 <= i < |errs| ==> errs[i].field == DateField
  {
    match v
    case None => [FieldError(DateField, Missing)]
    case Some(s) => if ParseIso(s).Some? then [] else [FieldError(DateField, NotADate)]
  }

  function StatusErrors(v: Option<string>): (errs: seq<FieldError>)
    ensures errs == [] <==> v.Some? && IsStatusToken(v.value)
    ensures forall i :: 0 <= i < |errs| ==> errs[i].field == StatusField
  {
    match v
    case None => [FieldError(StatusField, Missing)]
    case Some(t) => if ParseStatus(t).Some? then [] else [FieldError(StatusField, NotAStatus)]
  }

  /** Validation of an attendance payload: it succeeds exactly when the employee_id is present, the
      date reads as a calendar day and the status is one of the two tokens; the validated payload then
      spells back to the given date and status. Otherwise the errors name exactly the failing fields. */
  function Validate(raw: RawAttendance): (r: Result<AttendanceCreate, seq<FieldError>>)
    ensures r.Success? <==> Accepts(raw, EmployeeIdField) && Accepts(raw, DateField) && Accepts(raw, StatusField)
    ensures r.Success? ==>
      && WellFormed(r.value)
      && r.value.employeeId == raw.employeeId.value
      && ToIso(r.value.date) == raw.date.value
      && Token(r.value.status) == raw.status.value
    ensures r.Failure? ==> forall f :: Reported(r.error, f) <==> !Accepts(raw, f)
  {
    var e1 := EmployeeIdErrors(raw.employeeId);
    var e2 := DateErrors(raw.date);
    var e3 := StatusErrors(raw.status);
    var errs := e1 + e2 + e3;
    if errs == [] then
      Success(AttendanceCreate(raw.employeeId.value, ParseIso(raw.date.value).value, ParseStatus(raw.status.value).value))
    else
      assert forall f :: Reported(errs, f) <==> !Accepts(raw, f) by {
        forall f ensures Reported(errs, f) <==> !Accepts(raw, f) {
          if !Accepts(raw, f) {
            var k := if f == EmployeeIdField then 0 else if f == DateField then |e1| else |e1| + |e2|;
            assert errs[k].field == f;
          }
        }
      }
      Failure(errs)
  }

  /** The raw form of an already-typed payload, every field present. */
  function Raw(p: AttendanceCreate): RawAttendance
    requires WellFormed(p)
  {
    RawAttendance(Some(p.employeeId), Some(ToIso(p.date)), Some(Token(p.status)))
  }

  /** Every well-formed payload survives being written out and validated again. */
  lemma ValidateOfRaw(p: AttendanceCreate)
    requires WellFormed(p)
    ensures Validate(Raw(p)) == Success(p)
  {
    ParseIsoOfToIso(p.date);
    ParseStatusOfToken(p.status);
  }

  /** The documented payloads: EMP001 on 2026-02-06 is valid as Present and as Absent, and "Maybe" is refused. */
  lemma DocumentedPayloads()
    ensures Validate(RawAttendance(Some("EMP001"), Some("2026-02-06"), Some("Present")))
      == Success(AttendanceCreate("EMP001", Date(2026, 2, 6), Present))
    ensures Validate(RawAttendance(Some("EMP001"), Some("2026-02-06"), Some("Absent")))
      == Success(AttendanceCreate("EMP001", Date(2026, 2, 6), Absent))
    ensures Validate(RawAttendance(Some("EMP001"), Some("2026-02-06"), Some("Maybe")))
      == Failure([FieldError(StatusField, NotAStatus)])
  {
    var d := Date(2026, 2, 6);
    ParseIsoOfToIso(d);
    assert ToIso(d) == "2026-02-06";
    OtherTokensRejected();
    var raw := RawAttendance(Some("EMP001"), Some("2026-02-06"), Some("Maybe"));
    assert EmployeeIdErrors(raw.employeeId) == [] && DateErrors(raw.date) == [];
    assert StatusErrors(raw.status) == [FieldError(StatusField, NotAStatus)];
    assert [] + [] + [FieldError(StatusField, NotAStatus)] == [FieldError(StatusField, NotAStatus)];
  }

  /** What a per-employee summary reports. */
  datatype AttendanceSummary = AttendanceSummary(
    employeeId: string,
    totalRecords: nat,
    present: nat,
    absent: nat,
    attendancePercentage: real)

  /** `part` out of `whole` as an exact percentage; 0 when there is nothing to divide by. */
  function Percentage(part: nat, whole: nat): (p: real)
    ensures whole == 0 ==> p == 0.0
    ensures whole > 0 ==> p * (whole as real) == (part as real) * 100.0
    ensures part <= whole ==> 0.0 <= p <= 100.0
    ensures whole > 0 && part <= whole ==> (p == 100.0 <==> part == whole) && (p == 0.0 <==> part == 0)
  {
    if whole > 0 then (part as real) / (whole as real) * 100.0 else 0.0
  }

  /** A summary whose counts add up and whose percentage is the present share of the total. */
  predicate Consistent(s: AttendanceSummary) {
    && s.present + s.absent == s.totalRecords
    && s.attendancePercentage == Percentage(s.present, s.totalRecords)
  }

  /** The documented example summary (18 present, 2 absent, 20 records, 90.0 percent) is consistent. */
  lemma DocumentedSummaryConsistent()
    ensures Consistent(AttendanceSummary("EMP001", 20, 18, 2, 90.0))
  {
    assert Percentage(18, 20) * 20.0 == 1800.0;
  }
}

/** The employee create payload: four required string fields with length bounds and an email syntax rule. */
module EmployeeSchema {
  import opened Wrappers
  import opened Validation

  const EmployeeIdMaxLength: nat := 20
  const FullNameMaxLength: nat := 100
  const DepartmentMaxLength: nat := 50

  /** The payload as it arrives: any field may be missing. */
  datatype RawEmployee = RawEmployee(
    employeeId: Option<string>,
    fullName: Option<string>,
    email: Option<string>,
    department: Option<string>)

  /** A payload that passed validation. */
  datatype EmployeeCreate = EmployeeCreate(employeeId: string, fullName: string, email: string, department: string)

  /** Position of the first `c` in `s`, or `|s|` when there is none. */
  function IndexOf(s: string, c: char): (i: nat)
    ensures i <= |s|
    ensures i < |s| ==> s[i] == c
    ensures forall j :: 0 <= j < i ==> s[j] != c
  {
    if |s| == 0 then 0
    else if s[0] == c then 0
    else 1 + IndexOf(s[1..], c)
  }

  /** The characters stripped from both ends of an email before it is checked: Python's whitespace,
      that is tab to carriage return, the four separators U+001C to U+001F, the space, U+0085, the
      no-break space and the Unicode space separators, line and paragraph separators. */
  predicate IsBlank(c: char) {
    || '\U{9}' <= c <= '\U{D}'
    || '\U{1C}' <= c <= '\U{20}'
    || c == '\U{85}' || c == '\U{A0}' || c == '\U{1680}'
    || '\U{2000}' <= c <= '\U{200A}'
    || c == '\U{2028}' || c == '\U{2029}' || c == '\U{202F}' || c == '\U{205F}' || c == '\U{3000}'
  }

  /** No character of `s` is blank. */
  predicate NoBlank(s: string) {
    forall i :: 0 <= i < |s| ==> !IsBlank(s[i])
  }

  /** How many blanks `s` starts with. */
  function LeadingBlanks(s: string): (n: nat)
    ensures n <= |s|
    ensures forall i :: 0 <= i < n ==> IsBlank(s[i])
    ensures n < |s| ==> !IsBlank(s[n])
  {
    if |s| > 0 && IsBlank(s[0]) then 1 + LeadingBlanks(s[1..]) else 0
  }

  /** How many blanks `s` ends with. */
  function TrailingBlanks(s: string): (n: nat)
    ensures n <= |s|
    ensures forall i :: |s| - n <= i < |s| ==> IsBlank(s[i])
    ensures n < |s| ==> !IsBlank(s[|s| - 1 - n])
  {
    if |s| > 0 && IsBlank(s[|s| - 1]) then 1 + TrailingBlanks(s[..|s| - 1]) else 0
  }

  /** `s` without its leading and trailing blanks: the slice after the leading blanks, of which
      only blanks are cut off at the end, and which starts and ends with a non-blank. */
  function Trim(s: string): (r: string)
    ensures LeadingBlanks(s) + |r| <= |s|
    ensures r == s[LeadingBlanks(s)..LeadingBlanks(s) + |r|]
    ensures forall k :: LeadingBlanks(s) + |r| <= k < |s| ==> IsBlank(s[k])
    ensures |r| > 0 ==> !IsBlank(r[0]) && !IsBlank(r[|r| - 1])
  {
    var i := LeadingBlanks(s);
    var j := |s| - TrailingBlanks(s[i..]);
    s[i..j]
  }

  /** A string with a non-blank at both ends is its own trim. */
  lemma TrimNonBlankEnds(s: string)
    requires |s| > 0 && !IsBlank(s[0]) && !IsBlank(s[|s| - 1])
    ensures Trim(s) == s
  {
    var r := Trim(s);
    assert LeadingBlanks(s) == 0;
  }

  /** The part after the `@`: no further `@`, at least three characters, a dot but not at either end,
      and no blanks. */
  predicate IsDomain(d: string) {
    && '@' !in d
    && |d| >= 3
    && '.' in d
    && d[0] != '.'
    && d[|d| - 1] != '.'
    && NoBlank(d)
  }

  /** Email syntax, approximated: a non-empty local part without blanks, then the first `@`, then a
      domain. */
  predicate IsEmail(s: string) {
    var at := IndexOf(s, '@');
    0 < at < |s| && NoBlank(s[..at]) && IsDomain(s[at + 1..])
  }

  /** An address has no blank at either end, so trimming leaves it as it is. */
  lemma TrimEmail(s: string)
    requires IsEmail(s)
    ensures Trim(s) == s
  {
    var at := IndexOf(s, '@');
    assert s[0] == s[..at][0];
    assert s[|s| - 1] == s[at + 1..][|s| - at - 2];
    TrimNonBlankEnds(s);
  }

  /** A blank in front of a string with a non-blank at both ends is stripped. */
  lemma TrimBlankPrefix(c: char, s: string)
    requires IsBlank(c) && |s| > 0 && !IsBlank(s[0]) && !IsBlank(s[|s| - 1])
    ensures Trim([c] + s) == s
  {
    var t := [c] + s;
    assert t[1..] == s;
    assert LeadingBlanks(t) == 1;
    var r := Trim(t);
    assert !IsBlank(t[|t| - 1]);
  }

  /** A blank in front of an address, such as a vertical tab or a no-break space, is stripped before
      the address is checked and stored. */
  lemma BlankBeforeEmailStripped(c: char, s: string)
    requires IsBlank(c) && IsEmail(s)
    ensures Trim([c] + s) == s
  {
    var at := IndexOf(s, '@');
    assert s[0] == s[..at][0];
    assert s[|s| - 1] == s[at + 1..][|s| - at - 2];
    TrimBlankPrefix(c, s);
  }

  /** ASCII upper-case letters in lower case; every other character as it is. */
  function LowerChar(c: char): (d: char)
    ensures 'A' <= c <= 'Z' ==> 'a' <= d <= 'z' && d as int == c as int + 32
    ensures !('A' <= c <= 'Z') ==> d == c
  {
    if 'A' <= c <= 'Z' then (c as int + 32) as char else c
  }

  /** `s` with every ASCII upper-case letter lowered. */
  function Lower(s: string): (r: string)
    ensures |r| == |s|
    ensures forall i :: 0 <= i < |s| ==> r[i] == LowerChar(s[i])
  {
    seq(|s|, i requires 0 <= i < |s| => LowerChar(s[i]))
  }

  /** Lowering twice is lowering once. */
  lemma LowerIdempotent(s: string)
    ensures Lower(Lower(s)) == Lower(s)
  {
  }

  /** Lowering a domain keeps it a domain: `@`, `.` and blanks are not letters. */
  lemma LowerKeepsDomain(d: string)
    requires IsDomain(d)
    ensures IsDomain(Lower(d))
  {
    var l := Lower(d);
    var k :| 0 <= k < |d| && d[k] == '.';
    assert l[k] == '.';
    forall i | 0 <= i < |d| ensures l[i] != '@' {
      assert d[i] != '@';
    }
  }

  /** The first `@` of `local + "@" + rest` is the one after `local`, when `local` has none. */
  lemma IndexOfAfter(local: string, rest: string)
    requires '@' !in local
    ensures IndexOf(local + ['@'] + rest, '@') == |local|
  {
    var s := local + ['@'] + rest;
    var i := IndexOf(s, '@');
    assert s[|local|] == '@';
  }

  /** The address as it is stored and compared: everything up to the first `@` as written, the part
      after it in lower case. */
  function NormalizeEmail(s: string): (r: string)
    ensures |r| == |s|
    ensures IndexOf(r, '@') == IndexOf(s, '@')
    ensures r[..IndexOf(s, '@')] == s[..IndexOf(s, '@')]
    ensures IndexOf(s, '@') < |s| ==> r[IndexOf(s, '@') + 1..] == Lower(s[IndexOf(s, '@') + 1..])
  {
    var at := IndexOf(s, '@');
    if at < |s| then
      var r := s[..at] + ['@'] + Lower(s[at + 1..]);
      IndexOfAfter(s[..at], Lower(s[at + 1..]));
      assert r[..at] == s[..at] && r[at + 1..] == Lower(s[at + 1..]);
      r
    else
      s
  }

  /** The stored form of an address is an address. */
  lemma NormalizeKeepsEmail(s: string)
    requires IsEmail(s)
    ensures IsEmail(NormalizeEmail(s))
  {
    var at := IndexOf(s, '@');
    LowerKeepsDomain(s[at + 1..]);
  }

  /** Normalising twice is normalising once. */
  lemma NormalizeEmailIdempotent(s: string)
    ensures NormalizeEmail(NormalizeEmail(s)) == NormalizeEmail(s)
  {
    var at := IndexOf(s, '@');
    var r := NormalizeEmail(s);
    var rr := NormalizeEmail(r);
    if at < |s| {
      LowerIdempotent(s[at + 1..]);
      assert rr[at] == '@' == r[at];
      assert rr == rr[..at] + [rr[at]] + rr[at + 1..];
      assert r == r[..at] + [r[at]] + r[at + 1..];
    }
  }

  /** The documented examples: one address accepted, one string rejected. */
  lemma EmailExamples()
    ensures IsEmail("john@example.com")
    ensures !IsEmail("not-an-email")
  {
    ExampleAddressAccepted();
    NonAddressRejected();
  }

  /** Every field constraint of the create payload holds, and the email is in its stored form. */
  predicate WellFormed(p: EmployeeCreate) {
    && 1 <= |p.employeeId| <= EmployeeIdMaxLength
    && 1 <= |p.fullName| <= FullNameMaxLength
    && IsEmail(p.email) && NormalizeEmail(p.email) == p.email
    && 1 <= |p.department| <= DepartmentMaxLength
  }

  /** Whether the raw payload satisfies the rule of one field (fields of other payloads always pass);
      the email rule applies to the email with its surrounding blanks removed. */
  predicate Accepts(raw: RawEmployee, field: Field) {
    match field
    case EmployeeIdField => raw.employeeId.Some? && 1 <= |raw.employeeId.value| <= EmployeeIdMaxLength
    case FullNameField => raw.fullName.Some? && 1 <= |raw.fullName.value| <= FullNameMaxLength
    case EmailField => raw.email.Some? && IsEmail(Trim(raw.email.value))
    case DepartmentField => raw.department.Some? && 1 <= |raw.department.value| <= DepartmentMaxLength
    case _ => true
  }

  function BoundedField(field: Field, v: Option<string>, max: nat): (errs: seq<FieldError>)
    requires 1 <= max
    ensures errs == [] <==> v.Some? && 1 <= |v.value| <= max
    ensures forall i :: 0 <= i < |errs| ==> errs[i].field == field
  {
    match v
    case None => [FieldError(field, Missing)]
    case Some(s) => LengthErrors(field, s, 1, max)
  }

  function EmailErrors(v: Option<string>): (errs: seq<FieldError>)
    ensures errs == [] <==> v.Some? && IsEmail(Trim(v.value))
    ensures forall i :: 0 <= i < |errs| ==> errs[i].field == EmailField
  {
    match v
    case None => [FieldError(EmailField, Missing)]
    case Some(s) => if IsEmail(Trim(s)) then [] else [FieldError(EmailField, NotAnEmail)]
  }

  /** Every rule of the create payload holds. */
  predicate AcceptsAll(raw: RawEmployee) {
    Accepts(raw, EmployeeIdField) && Accepts(raw, FullNameField) && Accepts(raw, EmailField) && Accepts(raw, DepartmentField)
  }

  /** The payload an accepted raw payload stands for: the fields as given, the email in stored form. */
  function Accepted(raw: RawEmployee): (p: EmployeeCreate)
    requires AcceptsAll(raw)
    ensures WellFormed(p)
    ensures p == EmployeeCreate(raw.employeeId.value, raw.fullName.value,
                                NormalizeEmail(Trim(raw.email.value)), raw.department.value)
  {
    var email := Trim(raw.email.value);
    NormalizeKeepsEmail(email);
    NormalizeEmailIdempotent(email);
    EmployeeCreate(raw.employeeId.value, raw.fullName.value, NormalizeEmail(email), raw.department.value)
  }

  /** The errors of all four fields, in the order the fields are declared: they name exactly the
      fields whose rule fails, so there are none exactly when every rule holds. */
  function Errors(raw: RawEmployee): (errs: seq<FieldError>)
    ensures forall f :: Reported(errs, f) <==> !Accepts(raw, f)
    ensures errs == [] <==> AcceptsAll(raw)
  {
    var e1 := BoundedField(EmployeeIdField, raw.employeeId, EmployeeIdMaxLength);
    var e2 := BoundedField(FullNameField, raw.fullName, FullNameMaxLength);
    var e3 := EmailErrors(raw.email);
    var e4 := BoundedField(DepartmentField, raw.department, DepartmentMaxLength);
    var errs := e1 + e2 + e3 + e4;
    assert forall f :: Reported(errs, f) <==> !Accepts(raw, f) by {
      forall f ensures Reported(errs, f) <==> !Accepts(raw, f) {
        if !Accepts(raw, f) {
          var k :=
            if f == EmployeeIdField then 0
            else if f == FullNameField then |e1|
            else if f == EmailField then |e1| + |e2|
            else |e1| + |e2| + |e3|;
          assert errs[k].field == f;
        }
      }
    }
    errs
  }

  /** Validation of a create payload: either all four fields pass and the payload is returned with the
      email in its stored form (trimmed, domain in lower case) and the other fields as given, or the
      errors name exactly the fields that fail. */
  function Validate(raw: RawEmployee): (r: Result<EmployeeCreate, seq<FieldError>>)
    ensures r.Success? <==> AcceptsAll(raw)
    ensures r.Success? ==>
      && WellFormed(r.value)
      && r.value == EmployeeCreate(raw.employeeId.value, raw.fullName.value,
                                   NormalizeEmail(Trim(raw.email.value)), raw.department.value)
    ensures r.Failure? ==> forall f :: Reported(r.error, f) <==> !Accepts(raw, f)
  {
    var errs := Errors(raw);
    if errs == [] then Success(Accepted(raw)) else Failure(errs)
  }

  /** The raw form of an already-typed payload, every field present. */
  function Raw(p: EmployeeCreate): RawEmployee {
    RawEmployee(Some(p.employeeId), Some(p.fullName), Some(p.email), Some(p.department))
  }

  /** Validation returns every payload already in stored form unchanged. */
  lemma ValidateKeepsWellFormed(p: EmployeeCreate)
    ensures WellFormed(p) ==> Validate(Raw(p)) == Success(p)
  {
    if WellFormed(p) {
      TrimEmail(p.email);
      assert AcceptsAll(Raw(p));
    }
  }

  /** Validation is idempotent: its output is in stored form, so validating it again gives it back. */
  lemma ValidateIdempotent(p: EmployeeCreate)
    ensures Validate(Raw(p)).Success? ==> Validate(Raw(Validate(Raw(p)).value)) == Validate(Raw(p))
  {
    if Validate(Raw(p)).Success? {
      ValidateKeepsWellFormed(Validate(Raw(p)).value);
    }
  }

  /** A payload that breaks a length bound, or whose email is no address even after trimming, is rejected. */
  lemma ValidateRejectsMalformed(p: EmployeeCreate)
    ensures Validate(Raw(p)).Success? <==>
      && 1 <= |p.employeeId| <= EmployeeIdMaxLength
      && 1 <= |p.fullName| <= FullNameMaxLength
      && IsEmail(Trim(p.email))
      && 1 <= |p.department| <= DepartmentMaxLength
  {
  }

  /** The stored form of `local@domain`, when `local` has no `@`, is `local@` and the domain lowered. */
  lemma NormalizeParts(local: string, domain: string)
    requires '@' !in local
    ensures NormalizeEmail(local + ['@'] + domain) == local + ['@'] + Lower(domain)
  {
    var s := local + ['@'] + domain;
    IndexOfAfter(local, domain);
    assert s[..|local|] == local;
    assert s[|local| + 1..] == domain;
  }

  /** The domain is compared without regard to case: an address whose domain differs only in case is
      stored as the same address. */
  lemma DomainCaseIgnored()
    ensures IsEmail("ann@EXAMPLE.com") && IsEmail("ann@example.com")
    ensures NormalizeEmail("ann@EXAMPLE.com") == NormalizeEmail("ann@example.com") == "ann@example.com"
  {
    UpperAnnIsEmail();
    LowerAnnIsEmail();
    UpperAnnNormalized();
    LowerAnnNormalized();
  }

  /** A vertical tab in front of the email is stripped: the payload is accepted with the bare address. */
  lemma VerticalTabStripped()
    ensures Validate(RawEmployee(Some("EMP002"), Some("Ann Lee"), Some("\U{B}ann@example.com"), Some("Sales")))
      == Success(EmployeeCreate("EMP002", "Ann Lee", "ann@example.com", "Sales"))
  {
    var raw := RawEmployee(Some("EMP002"), Some("Ann Lee"), Some("\U{B}ann@example.com"), Some("Sales"));
    LowerAnnIsEmail();
    Spellings();
    BlankBeforeEmailStripped('\U{B}', "ann@example.com");
    LowerAnnNormalized();
    assert AcceptsAll(raw);
  }

  /** The documented address is in stored form. */
  lemma ExampleNormalized()
    ensures IsEmail("john@example.com") && NormalizeEmail("john@example.com") == "john@example.com"
  {
    ExampleAddressAccepted();
    JohnNormalized();
  }

  /** The documented payload is accepted as it is: its email is already in stored form. */
  lemma ExamplePayloadAccepted()
    ensures var p := EmployeeCreate("EMP001", "John Doe", "john@example.com", "Engineering");
      Validate(Raw(p)) == Success(p)
  {
    var p := EmployeeCreate("EMP001", "John Doe", "john@example.com", "Engineering");
    ExampleNormalized();
    assert WellFormed(p);
    ValidateKeepsWellFormed(p);
  }

  /** The errors of a payload's fields, in the order the fields are declared. */
  function FieldErrors(p: EmployeeCreate): (errs: seq<FieldError>)
    ensures errs != [] ==> Validate(Raw(p)) == Failure(errs)
  {
    BoundedField(EmployeeIdField, Some(p.employeeId), EmployeeIdMaxLength)
      + BoundedField(FullNameField, Some(p.fullName), FullNameMaxLength)
      + EmailErrors(Some(p.email))
      + BoundedField(DepartmentField, Some(p.department), DepartmentMaxLength)
  }

  /** A payload whose only fault is its employee_id (empty, or one character or more over 20) is
      rejected with that single error. */
  lemma EmployeeIdFaultRejected(p: EmployeeCreate)
    requires 1 <= |p.fullName| <= 100 && IsEmail(Trim(p.email)) && 1 <= |p.department| <= 50
    ensures |p.employeeId| > 20 ==> Validate(Raw(p)) == Failure([FieldError(EmployeeIdField, TooLong(20))])
    ensures |p.employeeId| == 0 ==> Validate(Raw(p)) == Failure([FieldError(EmployeeIdField, TooShort(1))])
  {
    var e1 := BoundedField(EmployeeIdField, Some(p.employeeId), EmployeeIdMaxLength);
    var e2 := BoundedField(FullNameField, Some(p.fullName), FullNameMaxLength);
    var e3 := EmailErrors(Some(p.email));
    var e4 := BoundedField(DepartmentField, Some(p.department), DepartmentMaxLength);
    assert e2 == [] && e3 == [] && e4 == [];
    assert FieldErrors(p) == e1 + e2 + e3 + e4 == e1;
  }

  /** A payload whose only fault is its full_name (over 100 characters, or absent) is rejected with
      that single error. */
  lemma FullNameFaultRejected(p: EmployeeCreate)
    requires 1 <= |p.employeeId| <= 20 && IsEmail(Trim(p.email)) && 1 <= |p.department| <= 50
    ensures |p.fullName| > 100 ==> Validate(Raw(p)) == Failure([FieldError(FullNameField, TooLong(100))])
    ensures Validate(RawEmployee(Some(p.employeeId), None, Some(p.email), Some(p.department)))
      == Failure([FieldError(FullNameField, Missing)])
  {
    var e1 := BoundedField(EmployeeIdField, Some(p.employeeId), EmployeeIdMaxLength);
    var e2 := BoundedField(FullNameField, Some(p.fullName), FullNameMaxLength);
    var e3 := EmailErrors(Some(p.email));
    var e4 := BoundedField(DepartmentField, Some(p.department), DepartmentMaxLength);
    assert e1 == [] && e3 == [] && e4 == [];
    assert FieldErrors(p) == e1 + e2 + e3 + e4 == e2;
    var missing := BoundedField(FullNameField, None, FullNameMaxLength);
    assert e1 + missing + e3 + e4 == missing;
  }

  /** A payload whose only fault is a department over 50 characters is rejected with that single error. */
  lemma DepartmentFaultRejected(p: EmployeeCreate)
    requires 1 <= |p.employeeId| <= 20 && 1 <= |p.fullName| <= 100 && IsEmail(Trim(p.email))
    ensures |p.department| > 50 ==> Validate(Raw(p)) == Failure([FieldError(DepartmentField, TooLong(50))])
  {
    var e1 := BoundedField(EmployeeIdField, Some(p.employeeId), EmployeeIdMaxLength);
    var e2 := BoundedField(FullNameField, Some(p.fullName), FullNameMaxLength);
    var e3 := EmailErrors(Some(p.email));
    var e4 := BoundedField(DepartmentField, Some(p.department), DepartmentMaxLength);
    assert e1 == [] && e2 == [] && e3 == [];
    assert FieldErrors(p) == e1 + e2 + e3 + e4 == e4;
  }

  /** A payload whose only fault is an email that is no address, even with its surrounding blanks
      removed, is rejected with that single error. */
  lemma EmailFaultRejected(p: EmployeeCreate)
    requires 1 <= |p.employeeId| <= 20 && 1 <= |p.fullName| <= 100 && 1 <= |p.department| <= 50
    ensures !IsEmail(Trim(p.email)) ==> Validate(Raw(p)) == Failure([FieldError(EmailField, NotAnEmail)])
  {
    var e1 := BoundedField(EmployeeIdField, Some(p.employeeId), EmployeeIdMaxLength);
    var e2 := BoundedField(FullNameField, Some(p.fullName), FullNameMaxLength);
    var e3 := EmailErrors(Some(p.email));
    var e4 := BoundedField(DepartmentField, Some(p.department), DepartmentMaxLength);
    assert e1 == [] && e2 == [] && e4 == [];
    assert FieldErrors(p) == e1 + e2 + e3 + e4 == e3;
  }

  /** The documented rejection of the example payload with a 21-character employee_id. */
  lemma LongIdRejected()
    ensures Validate(Raw(EmployeeCreate(seq(21, _ => 'A'), "John Doe", "john@example.com", "Engineering")))
      == Failure([FieldError(EmployeeIdField, TooLong(20))])
  {
    ExampleAddressAccepted();
    TrimEmail("john@example.com");
    EmployeeIdFaultRejected(EmployeeCreate(seq(21, _ => 'A'), "John Doe", "john@example.com", "Engineering"));
  }

  /** The documented rejection of the example payload with "not-an-email" as its email. */
  lemma NotAnEmailRejected()
    ensures Validate(Raw(EmployeeCreate("EMP001", "John Doe", "not-an-email", "Engineering")))
      == Failure([FieldError(EmailField, NotAnEmail)])
  {
    NonAddressRejected();
    TrimNonBlankEnds("not-an-email");
    EmailFaultRejected(EmployeeCreate("EMP001", "John Doe", "not-an-email", "Engineering"));
  }

  // Facts about the literal addresses of the examples above, each kept small so that the solver
  // checks it on its own.

  /** How the example addresses are spelt from their parts. */
  lemma Spellings()
    ensures "ann" + ['@'] + "EXAMPLE.com" == "ann@EXAMPLE.com"
    ensures "ann" + ['@'] + "example.com" == "ann@example.com"
    ensures "john" + ['@'] + "example.com" == "john@example.com"
    ensures "\U{B}ann@example.com" == ['\U{B}'] + "ann@example.com"
    ensures '@' !in "ann" && '@' !in "john"
  {
  }

  /** Both spellings of the example domain lower to the lower-case one. */
  lemma DomainsLowered()
    ensures Lower("example.com") == "example.com"
    ensures Lower("EXAMPLE.com") == "example.com"
  {
  }

  lemma NonAddressRejected()
    ensures !IsEmail("not-an-email")
  {
    assert '@' !in "not-an-email";
  }

  lemma ExampleAddressAccepted()
    ensures IsEmail("john@example.com")
  {
    var s := "john@example.com";
    ExampleAt();
    ExampleHasNoSpace();
    ExampleDomain();
    assert s[5..] == "example.com";
  }

  lemma ExampleAt()
    ensures IndexOf("john@example.com", '@') == 4
  {
  }

  lemma ExampleHasNoSpace()
    ensures NoBlank("john@example.com")
  {
  }

  lemma ExampleDomain()
    ensures '@' !in "example.com" && '.' in "example.com"
  {
    assert "example.com"[7] == '.';
  }

  lemma UpperAnnAt()
    ensures IndexOf("ann@EXAMPLE.com", '@') == 3
  {
  }

  lemma LowerAnnAt()
    ensures IndexOf("ann@example.com", '@') == 3
  {
  }

  lemma DomainsAreDomains()
    ensures IsDomain("EXAMPLE.com") && IsDomain("example.com")
  {
    assert "EXAMPLE.com"[7] == '.' && "example.com"[7] == '.';
  }

  lemma UpperAnnIsEmail()
    ensures IsEmail("ann@EXAMPLE.com")
  {
    UpperAnnAt();
    DomainsAreDomains();
    assert "ann@EXAMPLE.com"[4..] == "EXAMPLE.com";
  }

  lemma LowerAnnIsEmail()
    ensures IsEmail("ann@example.com")
  {
    LowerAnnAt();
    DomainsAreDomains();
    assert "ann@example.com"[4..] == "example.com";
  }

  /** Lowering the domain of the upper-case spelling gives the lower-case one. */
  lemma UpperAnnNormalized()
    ensures NormalizeEmail("ann@EXAMPLE.com") == "ann@example.com"
  {
    Spellings();
    NormalizeParts("ann", "EXAMPLE.com");
    DomainsLowered();
  }

  lemma LowerAnnNormalized()
    ensures NormalizeEmail("ann@example.com") == "ann@example.com"
  {
    Spellings();
    NormalizeParts("ann", "example.com");
    DomainsLowered();
  }

  lemma JohnNormalized()
    ensures NormalizeEmail("john@example.com") == "john@example.com"
  {
    Spellings();
    NormalizeParts("john", "example.com");
    DomainsLowered();
  }
}

# hrms-lite backend, modelled in Dafny

This project models the backend of hrms-lite, a small HR service. The backend keeps two tables:

- **employees**: a surrogate `id`, a unique `employee_id`, `full_name`, a unique `email` and `department`.
- **attendance**: a surrogate `id`, the `employee_id` it belongs to, a `date` and a status of
  `Present` or `Absent`. There is at most one row per employee and day.

It serves four groups of handlers:

- employees: create, list, get, delete (delete cascades to attendance);
- attendance: mark a day, list one employee's days within optional date bounds, a per-employee
  summary, list all;
- a dashboard summary over the whole store;
- validation of the two request payloads.

The model treats the database as an immutable value, `Models.Store`. It holds both tables in
insertion order and the next surrogate key of each table. Every handler is a pure function from a
store (and a request) to either an error or a result together with the new store. A failure carries
no store, so every error path leaves the store as it was by construction. `Models.Valid` is the store
invariant. It holds the table constraints the two models declare:

- primary keys are distinct;
- `employee_id` is unique and `email` is unique;
- there is one attendance row per (employee_id, date);
- every attendance row references an existing employee.

It also requires every stored status to be one of the two tokens and every stored date to be a real
calendar day. Each mutating handler is proved to preserve the invariant.

Modules, one per concern of the backend:

| file | module | models |
|---|---|---|
| wrappers.dfy | Wrappers | `Option`, `Result` |
| sequences.dfy | Sequences | pairwise-distinct keys, removal at an index |
| validation.dfy | Validation | the field errors a payload validation reports |
| errors.dfy | Errors | the handler errors: invalid payload, not found, conflict (with its reason) |
| dates.dfy | Dates | calendar dates, their order, and the `YYYY-MM-DD` spelling |
| employee_schema.dfy | EmployeeSchema | the employee create payload and its field rules |
| attendance_schema.dfy | AttendanceSchema | the status enum, the attendance payload, the summary shape, percentages |
| models.dfy | Models | the two tables, their constraints, the store invariant, per-employee row filters, status counts |
| employees.dfy | EmployeeRoutes | create, list, get, delete |
| attendance.dfy | AttendanceRoutes | mark, per-employee list with date bounds, summary, list all |
| dashboard.dfy | DashboardRoute | the dashboard summary, including the group-by-department map |

Percentages are exact `real` numbers: `present * 100 / total`, or 0 when there are no rows.

## Model

| member | source | states |
|---|---|---|
| EmployeeSchema.Validate | backend/schemas/employee.py:5-9 | A create payload is accepted exactly when all four fields are present and within their rules (employee_id 1..20 characters, full_name 1..100, an email address once surrounding whitespace is stripped, department 1..50); the accepted payload is well-formed and carries the other three fields unchanged and the email in its normalised form; on rejection, a field is reported exactly when it breaks its rule |
| EmployeeSchema.ValidateKeepsWellFormed | backend/schemas/employee.py:5-9 | A payload that already satisfies every rule, with its email in normalised form, is accepted and returned as given |
| EmployeeSchema.ValidateIdempotent | backend/schemas/employee.py:5-9 | Validating an accepted payload again accepts it and gives it back unchanged |
| EmployeeSchema.ValidateRejectsMalformed | backend/schemas/employee.py:5-9 | A fully present payload is accepted exactly when its three lengths are in bounds and its email, trimmed, is an address |
| EmployeeSchema.Trim | backend/schemas/employee.py:8 | Trimming drops exactly the leading and trailing whitespace, with whitespace meaning every character Python's `str.strip` removes (tab to carriage return, U+001C to U+0020, U+0085, U+00A0 and the Unicode space, line and paragraph separators): the result is the slice after the leading whitespace, only whitespace follows it, and it neither starts nor ends with whitespace |
| EmployeeSchema.TrimEmail | backend/schemas/employee.py:8 | An address has no surrounding whitespace, so trimming leaves it unchanged |
| EmployeeSchema.TrimBlankPrefix | backend/schemas/employee.py:8 | One whitespace character in front of a string that neither starts nor ends with whitespace is removed by trimming |
| EmployeeSchema.BlankBeforeEmailStripped | backend/schemas/employee.py:8 | Any whitespace character in front of an address, a vertical tab or a no-break space included, is stripped and the bare address remains |
| EmployeeSchema.VerticalTabStripped | backend/schemas/employee.py:8 | A payload whose email is "ann@example.com" preceded by a vertical tab is accepted with the email "ann@example.com" |
| EmployeeSchema.NormalizeEmail | backend/schemas/employee.py:8 | Normalising keeps the length, the position of the first `@` and everything before it; the part after it is lowered |
| EmployeeSchema.NormalizeKeepsEmail | backend/schemas/employee.py:8 | The normalised form of an address is an address |
| EmployeeSchema.NormalizeEmailIdempotent | backend/schemas/employee.py:8 | Normalising twice gives the same as normalising once |
| EmployeeSchema.LowerIdempotent | backend/schemas/employee.py:8 | Lowering twice gives the same as lowering once |
| EmployeeSchema.DomainCaseIgnored | backend/schemas/employee.py:8 | "ann@EXAMPLE.com" and "ann@example.com" are both addresses and normalise to the same stored form, "ann@example.com" |
| EmployeeSchema.ExamplePayloadAccepted | backend/schemas/employee.py:11-20 | The documented example payload (EMP001, John Doe, john@example.com, Engineering) is accepted and returned unchanged |
| EmployeeSchema.EmployeeIdFaultRejected | backend/schemas/employee.py:6 | With every other field valid (the email an address once trimmed), an employee_id longer than 20 characters is rejected with the single error TooLong(20), and an empty one with TooShort(1) |
| EmployeeSchema.FullNameFaultRejected | backend/schemas/employee.py:7 | With every other field valid (the email an address once trimmed), a full_name longer than 100 characters is rejected with the single error TooLong(100); a missing full_name is reported as Missing |
| EmployeeSchema.DepartmentFaultRejected | backend/schemas/employee.py:9 | With every other field valid (the email an address once trimmed), a department longer than 50 characters is rejected with the single error TooLong(50) |
| EmployeeSchema.EmailFaultRejected | backend/schemas/employee.py:8 | With every other field valid, an email that is not an address even once trimmed is rejected with the single error NotAnEmail |
| EmployeeSchema.LongIdRejected | backend/test_validation.py:28-39 | The example payload with a 21-character employee_id is rejected with the single error TooLong(20) |
| EmployeeSchema.NotAnEmailRejected | backend/test_validation.py:67-78 | The example payload with "not-an-email" as its email is rejected with the single error NotAnEmail |
| EmployeeSchema.EmailExamples | backend/test_validation.py:67-78 | "john@example.com" is an email address and "not-an-email" is not |
| Validation.LengthErrors | backend/schemas/employee.py:6-9 | A length rule reports no error exactly when the length is within the bounds; otherwise one error for that field, TooLong(max) when the value is too long |
| AttendanceSchema.ParseStatus | backend/schemas/attendance.py:7-9 | A status token is accepted exactly when it is "Present" or "Absent", and reading it back gives the same token |
| AttendanceSchema.ParseStatusOfToken | backend/schemas/attendance.py:7-9 | Both statuses round-trip through their token |
| AttendanceSchema.OtherTokensRejected | backend/test_validation.py:104-114 | "Maybe", "present" and "ABSENT" are not statuses |
| AttendanceSchema.Validate | backend/schemas/attendance.py:12-15 | An attendance payload is accepted exactly when employee_id is present, the date is a real `YYYY-MM-DD` day and the status is one of the two tokens; the accepted payload carries those values; on rejection, a field is reported exactly when it breaks its rule |
| AttendanceSchema.ValidateOfRaw | backend/schemas/attendance.py:12-15 | Every well-formed payload, written out as a request, is accepted and read back unchanged |
| AttendanceSchema.DocumentedPayloads | backend/test_validation.py:80-114 | EMP001 on 2026-02-06 is accepted as Present and as Absent; the same payload with status "Maybe" is rejected with a single NotAStatus error |
| AttendanceSchema.Percentage | backend/routes/attendance.py:119-121 | The percentage is 0 with no rows, otherwise it times the row count equals present times 100; it lies in [0, 100], is 100 exactly when every row counts and 0 exactly when none does |
| AttendanceSchema.DocumentedSummaryConsistent | backend/schemas/attendance.py:87-101 | The documented summary (20 rows, 18 present, 2 absent, 90.0) adds up and has the right percentage |
| Dates.ParseIso | backend/schemas/attendance.py:14 | A date string is read only when it names a real calendar day, and it is then exactly that day's `YYYY-MM-DD` spelling |
| Dates.ParseIsoOfToIso | backend/schemas/attendance.py:14 | Every valid date reads back from its `YYYY-MM-DD` spelling |
| Dates.OnOrBeforeIsTotalOrder | backend/routes/attendance.py:82-86 | The date order the range filters use is reflexive, antisymmetric, transitive and total |
| Dates.DaysInMonth | backend/models/attendance.py:12 | A month has 28 to 31 days, and 29 exactly for February of a leap year |
| Models.Empty | backend/models/employee.py:7-18 | The empty store satisfies every table constraint |
| Models.Find | backend/routes/employees.py:66 | The lookup finds nothing exactly when no employee has the employee_id; otherwise it finds the first such employee in table order |
| Models.FindIsUnique | backend/models/employee.py:11 | Under the unique employee_id column, the lookup finds the one row with that employee_id |
| Models.RecordsOf | backend/routes/attendance.py:80 | A row is among an employee's rows exactly when it is in the table and names that employee, and no row appears more often than in the table |
| Models.RecordsNotOf | backend/models/employee.py:18 | A row survives a cascade exactly when it is in the table and names another employee |
| Models.RecordsPartition | backend/models/employee.py:18 | An employee's rows and everybody else's rows together account for the whole table |
| Models.RecordsNotOfKeepsDistinct | backend/models/attendance.py:17-19 | Dropping one employee's rows keeps the primary key and the (employee_id, date) pair unique |
| Models.ReferencesSurviveRemoval | backend/models/attendance.py:11 | Dropping an employee together with all rows that reference it keeps every remaining row's reference valid |
| Models.StatusCountsPartition | backend/models/attendance.py:13 | Where every status is Present or Absent, the Present and Absent counts add up to the row count |
| Models.CountStatusAppend | backend/routes/dashboard.py:25-30 | One more row adds one to the count of its own status and nothing to the other |
| EmployeeRoutes.FirstClash | backend/routes/employees.py:18-20 | The duplicate query finds nothing exactly when no employee shares the payload's employee_id or email; otherwise it finds the first such employee in table order |
| EmployeeRoutes.CreateValidated | backend/routes/employees.py:18-45 | A payload whose employee_id or email is taken is refused with a conflict; an employee_id conflict means the employee_id is taken, an email conflict means the email is; otherwise exactly one row is appended with the payload's fields and the next key, and the key sequence moves on. In a valid store the generic duplicate conflict cannot happen, and the create succeeds exactly when nothing collides |
| EmployeeRoutes.CreateReportsFirstClash | backend/routes/employees.py:22-32 | The conflict reason is decided by the first colliding employee: employee_id exactly when that employee has the payload's employee_id, email otherwise |
| EmployeeRoutes.EmailReportedBeforeLaterIdClash | backend/routes/employees.py:18-32 | With the email matching an earlier employee and the employee_id a later one, the create reports the email conflict |
| EmployeeRoutes.Create | backend/routes/employees.py:11-12 | The payload is validated before the store is looked at: an invalid payload is refused with its (non-empty) field errors; a created employee carries the raw employee_id, full_name and department and the email in normalised form (trimmed, domain lowered) |
| EmployeeRoutes.CreateComparesStoredEmail | backend/routes/employees.py:18-20 | The duplicate check compares the normalised email: a valid payload whose normalised email some employee already has is refused with a conflict |
| EmployeeRoutes.DomainCaseVariantTaken | backend/routes/employees.py:18-32 | With "ann@example.com" stored for another employee_id, a create with "ann@EXAMPLE.com" is refused because the email is taken |
| EmployeeRoutes.BlankPrefixedEmailTaken | backend/routes/employees.py:18-32 | With "ann@example.com" stored for another employee_id, a create with that address preceded by a vertical tab is refused because the email is taken |
| EmployeeRoutes.CreatePreservesValid | backend/routes/employees.py:34-39 | A successful create keeps every table constraint and the key invariant |
| EmployeeRoutes.Get | backend/routes/employees.py:66-72 | Get fails with NotFound exactly when no employee has the employee_id; otherwise it returns an employee with that employee_id, the only one in a valid store |
| EmployeeRoutes.List | backend/routes/employees.py:53-57 | The list is the whole table in table order, and the total is its length |
| EmployeeRoutes.Delete | backend/routes/employees.py:81-90 | Delete fails with NotFound exactly when no employee has the employee_id; otherwise one employee goes, the surviving attendance rows are exactly those of other employees, and the key sequences do not move |
| EmployeeRoutes.DeleteRemovesExactly | backend/routes/employees.py:88-89 | In a valid store, the employees left after a delete are exactly the employees with another employee_id |
| EmployeeRoutes.DeletePreservesValid | backend/models/employee.py:18 | A delete, with its cascade, keeps every table constraint and the key invariant |
| EmployeeRoutes.DeleteKeepsReferences | backend/models/attendance.py:11 | After a delete every remaining attendance row still references an existing employee |
| EmployeeRoutes.CreateThenGet | backend/routes/employees.py:34-39 | Get after a create returns the created employee |
| EmployeeRoutes.CreateThenDelete | backend/routes/employees.py:81-90 | Deleting a just-created employee gives back both tables as they were; only the key sequence has moved |
| EmployeeRoutes.NoRowsForUnknownEmployee | backend/models/attendance.py:11 | In a valid store, an employee_id nobody has owns no attendance row, so a cascade on it removes nothing |
| EmployeeRoutes.DeleteThenGet | backend/routes/employees.py:81-86 | After a delete, a get and a second delete of the same employee_id both report NotFound |
| AttendanceRoutes.MarkValidated | backend/routes/attendance.py:22-55 | Mark fails with NotFound exactly when the employee does not exist, and with an existing-day conflict exactly when the employee exists and already has a row for that date; otherwise exactly one row is appended carrying the payload's employee_id, date and status token. In a valid store the generic duplicate conflict cannot happen |
| AttendanceRoutes.Mark | backend/routes/attendance.py:15-16 | The payload is validated before the store is looked at; an invalid payload is refused with its (non-empty) field errors |
| AttendanceRoutes.MarkPreservesValid | backend/routes/attendance.py:40-49 | A successful mark keeps one row per employee and day, the foreign key, and every other table constraint |
| AttendanceRoutes.From | backend/routes/attendance.py:82-83 | The rows kept by a start bound are exactly those dated on or after it, none more often than in the input |
| AttendanceRoutes.Until | backend/routes/attendance.py:85-86 | The rows kept by an end bound are exactly those dated on or before it, none more often than in the input |
| AttendanceRoutes.ListForEmployee | backend/routes/attendance.py:72-92 | The list fails with NotFound exactly when the employee does not exist; otherwise it holds exactly the employee's rows within the supplied bounds, no row more often than in the table, and the total is its length |
| AttendanceRoutes.ListWithoutBoundsIsAll | backend/routes/attendance.py:80-88 | Without bounds the list is every row of the employee, in table order |
| AttendanceRoutes.BoundsOnlyNarrow | backend/routes/attendance.py:82-86 | Every row listed with bounds is also listed without them |
| AttendanceRoutes.InvertedRangeIsEmpty | backend/routes/attendance.py:82-86 | A start bound after the end bound lists nothing |
| AttendanceRoutes.Summary | backend/routes/attendance.py:102-129 | The summary fails with NotFound exactly when the employee does not exist; otherwise it counts the employee's rows and those marked Present and Absent, with a percentage in [0, 100] that is 0 without rows; in a valid store present + absent = total and the percentage is the present share |
| AttendanceRoutes.SummaryAgreesWithList | backend/routes/attendance.py:110 | The summary's total equals the total of the unbounded list for the same employee |
| AttendanceRoutes.MarkThenSummary | backend/routes/attendance.py:40-49 | Marking a day adds one row to that employee's summary, counted under the marked status |
| AttendanceRoutes.MarkLeavesOtherSummaries | backend/routes/attendance.py:40-49 | Marking a day for one employee leaves every other employee's summary unchanged |
| AttendanceRoutes.ListAll | backend/routes/attendance.py:137-141 | The list is the whole attendance table, and the total is its length |
| AttendanceRoutes.DeleteThenAttendanceLookups | backend/models/employee.py:18 | After an employee is deleted, its list and summary report NotFound, marking a day for it reports NotFound, and no row references it |
| DashboardRoute.GroupByDepartment | backend/routes/dashboard.py:38-45 | The map's keys are exactly the departments that occur; each maps to its number of employees, at least 1; the counts add up to the number of employees |
| DashboardRoute.CountDepartmentAppend | backend/routes/dashboard.py:38-41 | One more employee adds one to its own department's count and nothing to any other |
| DashboardRoute.GroupAfterAppend | backend/routes/dashboard.py:38-45 | Grouping one more employee is the grouping of the others with that employee's department counted once more |
| DashboardRoute.MapSumUpdate | backend/routes/dashboard.py:43-45 | Setting one department's count changes the sum of the counts by the difference |
| DashboardRoute.AttendanceRate | backend/routes/dashboard.py:33-35 | The rate is 0 without rows, otherwise it times the row count equals present times 100, and it lies in [0, 100] |
| DashboardRoute.Summary | backend/routes/dashboard.py:19-55 | The totals are the sizes of the two tables; present and absent count rows by status and, in a valid store, add up to the attendance total; the rate is in [0, 100] and 0 without rows; the department map holds exactly the departments that occur, each with its count; total_departments is the number of departments; the counts add up to the employee total |
| DashboardRoute.DashboardRateIsPresentShare | backend/routes/dashboard.py:33-35 | The dashboard rate is the same percentage the per-employee summary uses, over all rows |
| DashboardRoute.EmptyDashboard | backend/routes/dashboard.py:19-55 | On an empty store every count and the rate are 0 and the department map is empty |
| DashboardRoute.DashboardAgreesWithLists | backend/routes/dashboard.py:19-22 | The dashboard's totals equal the totals of the employee list and the attendance list |
| DashboardRoute.DashboardAfterCreate | backend/routes/dashboard.py:19-45 | After a create the dashboard counts one more employee, and one more in that employee's department only; the attendance figures do not move |
| DashboardRoute.DashboardAfterMark | backend/routes/dashboard.py:22-30 | After a mark the dashboard counts one more row, under the marked status; the employee figures do not move |

## Left out

- The frontend (React pages, fetch calls, configuration): user interface, not backend logic.
- Application setup, CORS, logging and the catch-all 500 handler in `backend/main.py`: framework wiring.
- The engine, pool and session handling in `backend/database.py`, and the table drop-and-recreate in
  `backend/migrate.py`: database I/O.
- HTTP status codes and error message texts: errors are a datatype (`Invalid`, `NotFound`, `Conflict`
  with a reason) instead.
- The `created_at` server timestamps: they come from the database clock and no handler reads them.
- `round(x, 2)` on the two percentages: binary floating point. The model keeps the exact rational value.
- Email syntax: the real check comes from a validation library whose code is not part of this model.
  `EmployeeSchema.IsEmail` is a stated approximation. It needs a non-empty local part, a single `@`,
  no whitespace, and a domain of at least three characters that contains a dot, but not at either end.
  The two documented examples are proved against it.
- EmployeeSchema.Validate: the library also normalises the address, and the normalised value is what
  is stored and compared. The model covers the part of that normalisation which matters for the
  uniqueness check: surrounding whitespace (the characters Python's `str.strip` removes) is removed
  and ASCII letters of the domain are lowered. It does not model the display-name form `Name <addr>`
  (cut down to `addr`), or internationalised domains (IDNA encoding, Unicode normalisation, lowering
  of non-ASCII letters), whose code is not part of this model.
- EmployeeSchema.ValidateKeepsWellFormed: its stored form is the model's normalisation above, so the
  same limits apply.
- EmployeeRoutes.Create: it stores the email in the model's normalised form, so the same limits apply.
- AttendanceSchema.Validate: only the `YYYY-MM-DD` date string is read. Date objects, and other
  spellings the framework might accept, are not modelled.
- Malformed `start_date`/`end_date` query parameters (backend/routes/attendance.py:61-62) are refused
  by the framework before the handler runs. The model's bounds are already dates, so that error path
  is absent.
- The `EmployeeUpdate` schema: no handler uses it.
- Concurrency. The `IntegrityError` fallbacks (backend/routes/employees.py:40-45,
  backend/routes/attendance.py:50-55) are modelled as an insert-time check of the table constraints.
  That check refuses with `DuplicateEntry` or `DuplicateAttendance`, and it is proved unreachable in a
  valid store. Races between two requests are not modelled.
- Row order: the queries have no ORDER BY. The model returns rows in insertion order, and "first"
  means first in that order.
- AttendanceSchema.Validate: the attendance payload's `employee_id` has no length rule in
  backend/schemas/attendance.py:13. The model follows the code and accepts the empty string. An
  unknown employee_id is caught by the handler's NotFound.
- EmployeeRoutes.CreateValidated: when the payload's employee_id and email collide with two different
  employees, the code (backend/routes/employees.py:18-32) takes the reason from whichever colliding
  row the database returns first. The query has no ORDER BY, so that order is left to the database:
  SQLite, for one, may answer the OR of two indexed equalities through the employee_id index and so
  return the employee_id match first. The model fixes the order to table order.
  `EmployeeRoutes.EmailReportedBeforeLaterIdClash` shows the consequence within the model, not a
  promise of the program.
- EmployeeRoutes.CreateValidated: the new surrogate key comes from a sequence that only moves forward
  (`nextEmployeeKey`). With the default SQLite database (backend/database.py:16-19) the key column is a
  rowid without AUTOINCREMENT, which takes the largest key in use plus one and so can reuse the key of
  a deleted row. The model follows sequence behaviour.
- AttendanceRoutes.MarkValidated: the same holds for attendance keys (`nextAttendanceKey`); SQLite may
  reuse the key of a row removed by a cascade.
- EmployeeRoutes.CreateThenDelete: it states that only the key sequence moves after a create and a
  delete. That is sequence behaviour; under SQLite's rowid the next key would fall back as well.
- DashboardRoute.Summary: its contract states the rate's bounds and zero case. The rate's defining
  product is in `DashboardRoute.AttendanceRate` and `DashboardRoute.DashboardRateIsPresentShare`.
- DashboardRoute.DashboardAfterCreate: it states the new department map as `Bump` of the old one,
  that is, the old map with that department's count (0 if absent) raised by one.

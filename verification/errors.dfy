/** The typed failures an operation reports instead of a result. */
module Errors {
  import opened Validation

  /** Which uniqueness rule a rejected write would have broken. */
  datatype ConflictReason =
    | EmployeeIdTaken      // an employee with the payload's employee_id exists
    | EmailTaken           // an employee with the payload's email exists
    | AttendanceExists     // the employee already has a record for that day
    | DuplicateEntry       // the employees table refused the insert
    | DuplicateAttendance  // the attendance table refused the insert

  datatype Error =
    | Invalid(errors: seq<FieldError>)  // the payload broke a field rule; the store was not consulted
    | NotFound(employeeId: string)      // no employee carries this employee_id
    | Conflict(reason: ConflictReason)  // the write would break a uniqueness rule
}

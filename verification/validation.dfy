/** Field-level validation shared by the two create payloads: which field failed and which rule it broke. */
module Validation {

  datatype Field =
    | EmployeeIdField
    | FullNameField
    | EmailField
    | DepartmentField
    | DateField
    | StatusField

  datatype Rule =
    | Missing            // a required field was not supplied
    | TooShort(min: nat) // fewer characters than the lower bound
    | TooLong(max: nat)  // more characters than the upper bound
    | NotAnEmail
    | NotADate
    | NotAStatus

  datatype FieldError = FieldError(field: Field, rule: Rule)

  /** Some error in `errs` names `field`. */
  predicate Reported(errs: seq<FieldError>, field: Field) {
    exists i :: 0 <= i < |errs| && errs[i].field == field
  }

  /** A `min_length`/`max_length` constraint on a string field: at most one error, and none exactly when the length is in bounds. */
  function LengthErrors(field: Field, value: string, min: nat, max: nat): (errs: seq<FieldError>)
    ensures errs == [] <==> min <= |value| <= max
    ensures forall i :: 0 <= i < |errs| ==> errs[i].field == field
    ensures |errs| <= 1
    ensures |value| > max >= min ==> errs == [FieldError(field, TooLong(max))]
  {
    if |value| < min then [FieldError(field, TooShort(min))]
    else if |value| > max then [FieldError(field, TooLong(max))]
    else []
  }
}

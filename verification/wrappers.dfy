/** Failure-carrying wrappers used by every operation of the model. */
module Wrappers {

  /** An optional value: a lookup that may find nothing, a bound that may be absent. */
  datatype Option<+T> = None | Some(value: T)

  /** The outcome of an operation: a value, or a typed error. */
  datatype Result<+T, +E> = Success(value: T) | Failure(error: E)
}

/** Failure-compatible wrappers shared by the model: an optional value, a value or an error,
    and the outcome of an operation that returns nothing on success. */
module Wrappers {

  datatype Option<+T> = None | Some(value: T)

  datatype Result<+T, +E> = Success(value: T) | Failure(error: E)

  datatype Outcome<+E> = Pass | Fail(error: E)
}

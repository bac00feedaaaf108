/** Failure-compatible wrappers used across the model: an optional value and
    a value-or-error result (the thrown `Error` of the source). */
module Wrappers {

  datatype Option<+T> = None | Some(value: T)

  datatype Result<+R, +E> = Success(value: R) | Failure(error: E)
}

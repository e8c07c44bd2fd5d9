/** Failure-carrying values used across the model: an optional value and a
    success-or-error result, standing in for JavaScript's `undefined` and
    for exceptions thrown by the source. */
module Wrappers {

  datatype Option<+T> = None | Some(value: T)

  datatype Result<+R, +E> = Success(value: R) | Failure(error: E)
}

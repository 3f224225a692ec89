/** Failure-carrying values used across the model: a possibly missing value
    (JavaScript's `null`) and the outcome of a check that may fail. */
module Wrappers {

  datatype Option<+T> = None | Some(value: T)

  datatype Result<+R, +E> = Success(value: R) | Failure(error: E)
}

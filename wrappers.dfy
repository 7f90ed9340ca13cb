/** Failure-carrying result types shared by the pipeline modules. */
module Wrappers {

  /** A value that may be absent: a missing cell, a date that did not parse. */
  datatype Option<+T> = None | Some(value: T)

  /** A computation that either succeeds with a value or reports an error. */
  datatype Result<+T, +E> = Success(value: T) | Failure(error: E)
}

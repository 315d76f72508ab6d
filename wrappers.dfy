/** Failure-carrying result types used by the filters. */
module Wrappers {

  datatype Option<+T> = None | Some(value: T)

  /** A value, or the error a Python expression would raise instead. */
  datatype Result<+T, +E> = Success(value: T) | Failure(error: E)

  /** Whether an in-place operation ran to completion or raised part-way. */
  datatype Outcome<+E> = Pass | Fail(error: E)
}

/** Failure-carrying result types shared by the whole model. */
module Wrappers {

  /** Python's `None` or a present value. */
  datatype Option<+T> = None | Some(value: T)

  /** A value, or the exception that aborted the computation. */
  datatype Result<+T, +E> = Success(value: T) | Failure(error: E)

  /** An operation without a result value that either returns or raises. */
  datatype Outcome<+E> = Pass | Fail(error: E)
}

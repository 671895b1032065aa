/** Failure-compatible wrappers used for the absent values and error paths of the workflow. */
module Wrappers {

  /** A value that may be absent: the model of a nullable reference or a nullable column. */
  datatype Option<+T> = None | Some(value: T)

  /** The result of an operation that either produces a value or fails with an error. */
  datatype Result<+R, +E> = Success(value: R) | Failure(error: E)

  /** The result of an operation that produces no value but may fail with an error. */
  datatype Outcome<+E> = Pass | Fail(error: E)
}

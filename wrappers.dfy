/** Option, result and outcome datatypes shared by the store's modules. */
module Wrappers {

  /** A value that may be absent: a lookup that can fail. */
  datatype Option<+T> = None | Some(value: T)

  /** The answer of an operation that either produces a value or fails with an error. */
  datatype Result<+R, +E> = Success(value: R) | Failure(error: E)

  /** The answer of an operation that produces nothing but may fail. */
  datatype Outcome<+E> = Pass | Fail(error: E)
}

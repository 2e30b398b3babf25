/** Failure-compatible wrappers used across the token lifecycle model. */
module Wrappers {

  /** A value that may be missing; stands for a JavaScript `null`/`undefined`. */
  datatype Option<+T> = None | Some(value: T)

  /** The outcome of an operation that either yields a value or raises an error. */
  datatype Result<+R, +E> = Success(value: R) | Failure(error: E)
}

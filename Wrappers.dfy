/** Option and Result datatypes for absent values and error returns. */
module Wrappers {

  /** A value that may be absent: JavaScript's `undefined`/`null`. */
  datatype Option<+T> = None | Some(value: T)

  /** The outcome of an operation that can fail instead of throwing. */
  datatype Result<+R, +E> = Success(value: R) | Failure(error: E)
}

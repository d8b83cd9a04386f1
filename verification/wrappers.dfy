/** Failure-carrying result types shared by every module of the model. */
module Wrappers {

  /** A value that may be absent: JavaScript's `undefined` (or `null`) result. */
  datatype Option<+T> = None | Some(value: T)

  /** The outcome of an operation that can throw: the value it returns, or the error it throws. */
  datatype Result<+R, +E> = Success(value: R) | Failure(error: E)
}

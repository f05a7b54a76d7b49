/** Failure-compatible result types shared by every module of the model. */
module Wrappers {

  /** A value that may be absent: the model's rendering of `null` / `undefined`. */
  datatype Option<+T> = None | Some(value: T)

  /** The outcome of an operation that can be refused with a typed error. */
  datatype Result<+T, +E> = Success(value: T) | Failure(error: E)
}

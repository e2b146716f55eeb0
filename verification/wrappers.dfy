/** Failure-compatible wrappers shared by every module of the model. */
module Wrappers {

  /** A value that may be missing: the source's `null` / `undefined`. */
  datatype Option<+T> = None | Some(value: T)

  /** The outcome of a call that either returns a value or throws an error. */
  datatype Result<+R, +E> = Success(value: R) | Failure(error: E)
}

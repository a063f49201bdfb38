/** Failure-carrying results shared by the modules of this model. */
module Wrappers {

  /** A value that may be absent: a possibly-null reference, or an empty slot. */
  datatype Option<+T> = None | Some(value: T)

  /** The outcome of an operation that can throw: its value, or the error it throws. */
  datatype Result<+R, +E> = Success(value: R) | Failure(error: E)
}

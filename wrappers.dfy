/** Failure-carrying values used by the action model. */
module Wrappers {

  datatype Option<+T> = None | Some(value: T)

  /** The outcome of an awaited remote call: a value, or the message of the error it threw. */
  datatype Result<+R, +E> = Success(value: R) | Failure(error: E)
}

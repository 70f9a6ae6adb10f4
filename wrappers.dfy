/** Option and Result values used for the solver's nullable fields and its error path. */
module Wrappers {

  datatype Option<+T> = None | Some(value: T)

  /** The outcome of a solve: a value, or the message of the error it throws. */
  datatype Result<+R, +E> = Success(value: R) | Failure(error: E)
}

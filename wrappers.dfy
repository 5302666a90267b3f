/** Failure-carrying results shared by the other modules. */
module Wrappers {

  /** A value that may be absent: an attribute that is not there, a parse that throws. */
  datatype Option<+T> = None | Some(value: T)

  /** The outcome of a step that can reject with an error message. */
  datatype Result<+R, +E> = Success(value: R) | Failure(error: E)
}

/** Failure-compatible wrappers shared by the other modules. */
module Wrappers {

  /** A value that may be absent: a file that could not be opened, a missing key. */
  datatype Option<+T> = None | Some(value: T)

  /** Either a value or the error that replaced it (the source throws instead). */
  datatype Result<+T, +E> = Success(value: T) | Failure(error: E)
}

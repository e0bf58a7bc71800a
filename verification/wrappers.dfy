/** Absent values and error results: the model's stand-ins for Java's `null`
    returns and thrown exceptions. */
module Wrappers {

  /** A value that may be absent (a Java reference that may be null). */
  datatype Option<+T> = None | Some(value: T)

  /** Either a value or an error message (a call that may throw). */
  datatype Result<+T, +E> = Success(value: T) | Failure(error: E)
}

/** Wrappers for values that the Java code returns as null or throws for. */
module Wrappers {
  /** A Java reference that may be null. */
  datatype Option<+T> = None | Some(value: T)

  /** A value, or the message of the exception the Java code throws instead. */
  datatype Result<+T, +E> = Success(value: T) | Failure(error: E)
}

/** Failure-carrying results used in place of Java's null returns and exceptions. */
module Wrappers {

  /** A value that may be absent (Java's `null`). */
  datatype Option<T> = None | Some(value: T)

  /** A value, or the exception that the Java code would throw instead. */
  datatype Result<T, E> = Ok(value: T) | Err(error: E)
}

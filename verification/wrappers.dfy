/** Failure-carrying wrappers used in place of Java's nulls and exceptions. */
module Wrappers {

  /** A value that may be absent (a Java reference that may be null). */
  datatype Option<+T> = None | Some(value: T)

  /** Either a computed value or the error the Java code would throw. */
  datatype Result<+R, +E> = Success(value: R) | Failure(error: E)
}

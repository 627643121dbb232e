/** Option and Result: Java's nullable references and thrown exceptions, as values. */
module Wrappers {

  /** A Java reference that may be null. */
  datatype Option<+T> = None | Some(value: T)

  /** A value, or the exception that a Java method would have thrown instead. */
  datatype Result<+R, +E> = Success(value: R) | Failure(error: E)
}

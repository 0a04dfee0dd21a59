/** Wrappers for Java's nullable references and for constructors that
    throw. */
module Wrappers {

  /** A Java reference that may be `null`. */
  datatype Option<+T> = None | Some(value: T)

  /** The outcome of a Java constructor: the constructed object, or the
      exception it throws. */
  datatype Result<+T, +E> = Success(value: T) | Failure(error: E)
}

/** Stand-ins for Java's `null` results and thrown exceptions. */
module Wrappers {

  /** A possibly absent value: `None` plays the part of Java's `null`. */
  datatype Option<+T> = None | Some(value: T)

  /** A value, or the error the Java code would throw instead of returning. */
  datatype Result<+R, +E> = Success(value: R) | Failure(error: E)

  /** The outcome of a `void` Java method: it returns normally, or it throws. */
  datatype Outcome<+E> = Pass | Fail(error: E)
}

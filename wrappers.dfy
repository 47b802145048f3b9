/** Small value wrappers shared by every module: a nullable reference, the
    outcome of an operation that may throw, and the Java exceptions the core
    raises. */
module Wrappers {

  /** A Java reference that may be null. */
  datatype Option<+T> = None | Some(value: T)

  /** The outcome of a call that either returns normally or throws. */
  datatype Result<+T, +E> = Ok(value: T) | Err(error: E)

  /** The exceptions thrown synchronously by the registry and its nodes. */
  datatype JavaException =
    | NullPointerException
    | IllegalArgumentException(message: string)
    | ArrayIndexOutOfBoundsException

  /** Unit value, for Java methods that return `this` or nothing. */
  datatype Unit = Unit
}

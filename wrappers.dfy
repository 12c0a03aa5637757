/** Values that stand for Java's null references and thrown exceptions. */
module Wrappers {

  /** A Java reference: `None` is `null`. */
  datatype Option<+T> = None | Some(value: T)

  /** The unchecked exceptions the collections throw. */
  datatype Exception =
    | IndexOutOfBounds
    | NoSuchElement
    | NullPointer

  /** The outcome of a Java method that returns a value or throws. */
  datatype Result<+T> = Ok(value: T) | Throws(error: Exception)

  /** The outcome of a `void` Java method that may throw. */
  datatype Outcome = Done | Raised(error: Exception)
}

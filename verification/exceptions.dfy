/**
 * The Java exceptions thrown by the modelled classes, as values.  An operation
 * that throws returns `Err(e)` (or `Fail(e)` when it returns nothing) and leaves
 * the state as the Java code leaves it at the throw.
 */
module Exceptions {

  datatype Exception =
    | NoSuchElement     // java.util.NoSuchElementException
    | IllegalArgument   // java.lang.IllegalArgumentException
    | IllegalState      // java.lang.IllegalStateException

  /** The outcome of an operation that returns a value or throws. */
  datatype Result<T> = Ok(value: T) | Err(error: Exception)

  /** The outcome of a `void` operation that may throw. */
  datatype Outcome = Pass | Fail(error: Exception)
}

/** Option and Result values that stand for the source's null returns and thrown exceptions. */
module Wrappers {

  datatype Option<+T> = None | Some(value: T)

  /** A computation that yields a value or fails with an error. */
  datatype Result<+R, +E> = Success(value: R) | Failure(error: E)

  /** A computation that yields nothing or fails with an error (a Java `void` method that may throw). */
  datatype Outcome<+E> = Pass | Fail(error: E)
}

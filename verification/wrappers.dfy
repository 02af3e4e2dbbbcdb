/** Failure-compatible result types and the kinds of failure the cache reports. */
module Wrappers {

  /** A present or absent value; stands for `java.util.Optional`. */
  datatype Option<+T> = None | Some(value: T)

  /** The value of an operation that returns one, or the failure it raised. */
  datatype Result<+R, +E> = Success(value: R) | Failure(error: E)

  /** The outcome of an operation that returns nothing, or the failure it raised. */
  datatype Outcome<+E> = Pass | Fail(error: E)

  /**
   * The exceptions the cache and its list throw:
   * IllegalArgumentException, NoSuchElementException and NullPointerException.
   */
  datatype Error = IllegalArgument | NoSuchElement | NullPointer
}

/** Failure-carrying results used throughout the model. */
module Wrappers {

  /** A value that may be absent; `None` stands for Java's `null`. */
  datatype Option<+T> = None | Some(value: T)

  /** The value of an expression that either returns normally or throws. */
  datatype Result<+T, +E> = Success(value: T) | Failure(error: E)

  /** The outcome of a `void` call that either returns normally or throws. */
  datatype Outcome<+E> = Pass | Fail(error: E)
}

/** Failure-carrying results, used where the source throws. */
module Wrappers {

  datatype Option<+T> = None | Some(value: T)

  /** The outcome of an operation that either returns a value or throws an Error with a message. */
  datatype Result<+T, +E> = Success(value: T) | Failure(error: E)
}

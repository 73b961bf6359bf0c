/** Option and Result, the two failure-carrying datatypes the model uses. */
module Wrappers {

  /** A value that may be absent: an unreadable file, a missing state key, no regex match. */
  datatype Option<+T> = None | Some(value: T)

  /** The outcome of an operation that can raise: Failure carries str() of the exception. */
  datatype Result<+R, +E> = Success(value: R) | Failure(error: E)
}

/** Failure-carrying values shared by the parsers and the idle tracker. */
module Wrappers {

  /** A value that may be absent. */
  datatype Option<+T> = None | Some(value: T)

  /** The outcome of an operation that may raise an error instead of returning. */
  datatype Result<+R, +E> = Success(value: R) | Failure(error: E)
}

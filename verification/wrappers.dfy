/** Failure-carrying result types shared by the loader and the writers. */
module Wrappers {

  /** A value that may be absent, standing for Python's `None`. */
  datatype Option<+T> = None | Some(value: T)

  /** The outcome of an operation that either returns a value or raises. */
  datatype Result<+R, +E> = Success(value: R) | Failure(error: E)
}

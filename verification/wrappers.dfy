/** Failure-carrying result types shared by every component of the loader. */
module Wrappers {

  /** A value that may be absent: the loader's null marker. */
  datatype Option<+T> = None | Some(value: T)

  /** The outcome of a step that either produces a value or raises an error. */
  datatype Result<+R, +E> = Success(value: R) | Failure(error: E)

  /** The outcome of a step that produces nothing but may raise an error. */
  datatype Outcome<+E> = Pass | Fail(error: E)
}

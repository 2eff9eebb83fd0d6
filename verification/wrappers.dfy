/** Failure-carrying return types shared by the model. */
module Wrappers {

  /** A value that may be absent (Python's `None`). */
  datatype Option<+T> = None | Some(value: T)

  /** The outcome of a step that either produces a value or aborts the build. */
  datatype Result<+T, +E> = Success(value: T) | Failure(error: E)
}

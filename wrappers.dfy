/** Failure-carrying return types: the model's replacement for Python's
    `None` results and raised exceptions. */
module Wrappers {

  /** A value or nothing (Python's `Optional[...]`). */
  datatype Option<+T> = None | Some(value: T)

  /** A value or an error (a function that either returns or raises). */
  datatype Result<+R, +E> = Success(value: R) | Failure(error: E)
}

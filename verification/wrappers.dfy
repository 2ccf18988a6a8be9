/** Failure-carrying values used to model Python's `None` and raised exceptions. */
module Wrappers {

  /** `None` stands for Python's `None`, `Some(v)` for a real value. */
  datatype Option<+T> = None | Some(value: T)

  /** `Failure(e)` stands for an exception `e` raised out of the call. */
  datatype Result<+R, +E> = Success(value: R) | Failure(error: E)
}

/** Failure-carrying result types shared by the codec and the store. */
module Wrappers {

  /** An optional value: Python's `Optional[...]`, `None` on absence. */
  datatype Option<+T> = None | Some(value: T)

  /** A value or the exception the Python code would raise instead. */
  datatype Result<+T, +E> = Success(value: T) | Failure(error: E)
}

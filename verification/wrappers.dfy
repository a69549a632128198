/** Failure-carrying result types shared by every module of the model. */
module Wrappers {

  /** A value that may be missing: a failed lookup, a walk that raised, no match. */
  datatype Option<+T> = None | Some(value: T)

  /** Either a computed value or the error the Python function raises instead. */
  datatype Result<+T, +E> = Success(value: T) | Failure(error: E)
}

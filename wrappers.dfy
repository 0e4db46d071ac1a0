/** Return values for the cases where the pool throws an exception or returns null. */
module Wrappers {

  datatype Option<T> = None | Some(value: T)

  /** Pass, or the reason a check failed. */
  datatype Outcome<E> = Pass | Fail(error: E)

  datatype Result<T, E> = Success(value: T) | Failure(error: E)
}

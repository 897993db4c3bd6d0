/** Optional values and the outcome of operations that can raise an exception. */
module Wrappers {
  /** A Java reference that may be null. */
  datatype Option<T> = None | Some(value: T)

  /** A value, or the exception that was raised instead. */
  datatype Result<T, E> = Ok(value: T) | Err(error: E)

  /** Completion of a `void` Java method: normal return, or the exception raised. */
  datatype Outcome<E> = Pass | Fail(error: E)
}

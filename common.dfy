/** Failure-carrying values shared by the other modules. */
module Common {

  /** Python's `Optional[T]`: `None` or a value. */
  datatype Option<T> = None | Some(value: T)

  /** An operation that either produces a value or fails with an error
      (a Python exception the caller does not catch). */
  datatype Result<T, E> = Ok(value: T) | Err(error: E)
}

/** Optional values and error results shared by every component of the model. */
module Wrappers {
  /** A value that may be absent: a NULL pointer in the C code. */
  datatype Option<T> = None | Some(value: T)

  /** Either a value or the error the C code would return through svn_error_t. */
  datatype Result<T, E> = Ok(value: T) | Err(error: E)
  {
    predicate IsFailure() { Err? }
  }
}

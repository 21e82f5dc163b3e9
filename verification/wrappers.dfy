/** Optional values and error results, shared by the rest of the model. */
module Wrappers {

  /** A value that may be absent: Python's `None` or an empty result. */
  datatype Option<+T> = None | Some(value: T)

  /** Either a value or an error, for operations whose failure is a value and not an exception. */
  datatype Result<+T, +E> = Ok(value: T) | Err(error: E)
}

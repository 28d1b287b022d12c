/** Failure-carrying values shared by the item store and its properties. */
module Wrappers {

  /** A value that may be absent: Python's `Optional[...]` and `next(..., None)`. */
  datatype Option<+T> = None | Some(value: T)

  /** The outcome of a handler: a value, or the error it raises. */
  datatype Result<+T, +E> = Ok(value: T) | Err(error: E)
}

/** Optional values and error results shared by the other modules. */
module Options {

  /** A value that may be absent (Python's `None`). */
  datatype Option<+T> = None | Some(value: T)

  /** The outcome of an operation that can fail instead of returning. */
  datatype Result<+T, +E> = Ok(value: T) | Err(error: E)
}

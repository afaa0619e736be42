/** Optional values and results with an error path. */
module Wrappers {

  /** A value that may be absent (JavaScript's `null`/`undefined`). */
  datatype Option<+T> = None | Some(value: T)

  /** The outcome of an operation that can fail instead of throwing. */
  datatype Result<+T, +E> = Ok(value: T) | Err(error: E)
}

/** Optional values and results with an error. */
module Wrappers {

  /** A value that may be absent; `None` plays the role of a missing cell. */
  datatype Option<+T> = None | Some(value: T)

  /** The outcome of an operation that can fail. */
  datatype Result<+R, +E> = Ok(value: R) | Err(error: E)
}

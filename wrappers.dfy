/** Optional values and results with an error, shared by the other modules. */
module Wrappers {

  /** A value that may be absent (a missing cell, or no selection). */
  datatype Option<+T> = None | Some(value: T)

  /** The outcome of an operation that may fail. */
  datatype Result<+T, +E> = Ok(value: T) | Err(error: E)
}

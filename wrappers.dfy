/** Optional values and results with an error branch, shared by the other modules. */
module Wrappers {

  /** A value that may be absent (Java's `null` / `Optional.empty()`). */
  datatype Option<+T> = None | Some(value: T)

  /** The outcome of an operation that may fail with an exception. */
  datatype Result<+T, +E> = Ok(value: T) | Err(error: E)
}

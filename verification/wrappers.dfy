/** Optional values and fallible results, shared by both tools. */
module Wrappers {

  /** A value that may be absent: Python's `X | None`. */
  datatype Option<+T> = None | Some(value: T)

  /** The outcome of an operation that may raise: `Err` carries the exception. */
  datatype Result<+T, +E> = Ok(value: T) | Err(error: E)
}

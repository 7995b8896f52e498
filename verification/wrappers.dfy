/** Option and Result, used wherever the original code returns None or raises. */
module Wrappers {

  datatype Option<+T> = None | Some(value: T)

  /** `Err` carries the exception the original code would raise. */
  datatype Result<+T, +E> = Ok(value: T) | Err(error: E)
}

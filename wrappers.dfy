/** Optional values and results with an error branch, shared by every module. */
module Wrappers {

  datatype Option<+T> = None | Some(value: T)

  /** A computation that either produces a value or raises an error. */
  datatype Result<+T, +E> = Ok(value: T) | Err(error: E)
}

/** Optional values and results with an error, for the source's `null` and early returns. */
module Wrappers {

  /** `null`/`undefined` versus a present value. */
  datatype Option<+T> = None | Some(value: T)

  /** A computation that either produces a value or stops with an error. */
  datatype Result<+R, +E> = Ok(value: R) | Err(error: E)
}

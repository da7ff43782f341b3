/** Optional values and results with an error, standing for Python's `None` and for raised exceptions. */
module Wrappers {

  /** `None` is Python's `None`; `Some(v)` is a present value. */
  datatype Option<+T> = None | Some(value: T)

  /** `Err(e)` is an exception the source raises (and does not catch) instead of returning. */
  datatype Result<+T, +E> = Ok(value: T) | Err(error: E)
}

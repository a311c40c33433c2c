/** Error results for operations whose source raises instead of returning. */
module Wrappers {

  /** The only error the core raises itself: `x / 0` on floats in Python. */
  datatype Error = ZeroDivisionError

  datatype Result<T> = Ok(value: T) | Err(error: Error)
}

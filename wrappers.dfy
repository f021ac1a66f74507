/** Option and Result, the two wrappers the model uses. */
module Wrappers {

  /** `None` stands for a missing value (a null in polars, NaN in pandas). */
  datatype Option<+T> = None | Some(value: T)

  /** The outcome of a Python function: it returns a value or raises an exception. */
  datatype Result<+T, +E> = Ok(value: T) | Err(error: E)
}

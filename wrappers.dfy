/** Failure-compatible wrappers shared by the modules of the model. */
module Wrappers {

  /** A value that may be absent; pandas' NaN / None in a nullable column. */
  datatype Option<+T> = None | Some(value: T)

  /** The outcome of an operation that can raise. */
  datatype Result<+T, +E> = Ok(value: T) | Err(error: E)
}

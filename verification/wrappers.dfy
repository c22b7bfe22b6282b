/** Failure-carrying results used across the model. */
module Wrappers {

  /** A value that may be absent: JavaScript's `undefined`, Swift's `nil`. */
  datatype Option<+T> = None | Some(value: T)

  /** The outcome of an operation that can throw. */
  datatype Result<+T, +E> = Ok(value: T) | Err(error: E)
}

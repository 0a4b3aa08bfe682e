/** Option and Result values standing in for JavaScript's null and thrown exceptions. */
module Wrappers {

  /** `None` plays the part of a JavaScript `null`. */
  datatype Option<+T> = None | Some(value: T)

  /** `Err` plays the part of an exception that aborts the computation. */
  datatype Result<+T, +E> = Ok(value: T) | Err(error: E)
}

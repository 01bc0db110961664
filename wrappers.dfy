/** Optional values and results with an error, as used by the rest of the model. */
module Wrappers {

  /** `None` plays the part of Python's `None`. */
  datatype Option<+T> = None | Some(value: T)

  /** `Err` plays the part of an exception that leaves the request handler. */
  datatype Result<+T, +E> = Ok(value: T) | Err(error: E)
}

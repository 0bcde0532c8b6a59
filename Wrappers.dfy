/** Option and Result values used across the model. */
module Wrappers {

  /** A value that may be absent: a missing key, a falsy JavaScript value, a thrown resolver error. */
  datatype Option<+T> = None | Some(value: T)

  /** The outcome of an operation that may throw: `Err` carries the name of the JavaScript error. */
  datatype Result<+T> = Ok(value: T) | Err(error: string)
}

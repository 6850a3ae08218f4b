/** The `Option` and `Result` datatypes used by the session coordinator. */
module Wrappers {

  /** A value that may be absent: JavaScript's `undefined` / `null`. */
  datatype Option<+T> = None | Some(value: T)

  /** The outcome of a request-style handler: a success value or an error. */
  datatype Result<+R, +E> = Ok(value: R) | Err(error: E)
}

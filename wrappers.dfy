/** Failure-carrying result types shared by the modules of this project. */
module Wrappers {

  /** An optional value; `None` plays the part of Go's nil error. */
  datatype Option<+T> = None | Some(value: T)

  /** Either a value or an error, for Go's `(value, error)` return pairs. */
  datatype Result<+R, +E> = Ok(value: R) | Err(error: E)
}

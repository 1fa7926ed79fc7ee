/** The option and result shapes the other modules share. */
module Wrappers {

  datatype Option<+T> = None | Some(value: T)

  /** A Go `(value, error)` pair: either a value or the reason there is none. */
  datatype Result<+T, +E> = Ok(value: T) | Err(error: E)

}

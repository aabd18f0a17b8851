/** The two result shapes the modelled code returns. */
module Wrappers {
  /** A value or JavaScript's `undefined`. */
  datatype Option<+T> = None | Some(value: T)

  /** The repository's `Result`: data on success, an error text otherwise. */
  datatype Result<+T> = Ok(data: T) | Err(message: string)
}

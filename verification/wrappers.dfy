/** The two failure-carrying datatypes the model uses in place of Rust's
    `Option` and `Result`. */
module Wrappers {

  /** An optional value. */
  datatype Option<+T> = None | Some(value: T)

  /** Either a success value or an error value. */
  datatype Result<+T, +E> = Ok(value: T) | Err(error: E)
}

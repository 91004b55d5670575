/** The Option and Result shapes of the Rust code. */
module Wrappers {

  datatype Option<T> = None | Some(value: T)

  /** A fallible result carrying the Rust code's error message. */
  datatype Result<T> = Ok(value: T) | Err(error: string)
}

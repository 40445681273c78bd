/** Option and Result values: the Rust `Option` and `Result` types that every
    operation of the service returns. */
module Wrappers {

  datatype Option<+T> = None | Some(value: T)

  datatype Result<+T, +E> = Ok(value: T) | Err(error: E)

  /** The unit value `()` that `Ok(())` carries. */
  datatype Unit = Unit
}

/** Option and Result, the two failure-carrying shapes the pipeline uses. */
module Base {

  datatype Option<+T> = None | Some(value: T)

  datatype Result<+T, +E> = Ok(value: T) | Err(error: E)

  /** Rust's `()`. */
  datatype Unit = Unit
}

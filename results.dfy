/** Failure-carrying wrappers shared by the modules of the model: the Rust
    `Option`, `Result<T>` and `Result<()>` of the original. */
module Results {

  datatype Option<+T> = None | Some(value: T)

  datatype Result<+T, +E> = Ok(value: T) | Err(error: E)

  /** A `Result<()>`: success carries nothing. */
  datatype Outcome<+E> = Pass | Fail(error: E)
}

/** Small failure-carrying datatypes shared by every module of the model. */
module Common {

  datatype Option<+T> = None | Some(value: T)

  /** Rust's `Result`: a value or an error. */
  datatype Result<+T, +E> = Ok(value: T) | Err(error: E)

  /** A byte of a stream (the bridge's stdin/stdout). */
  newtype byte = x: int | 0 <= x < 256
}

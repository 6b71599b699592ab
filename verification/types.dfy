/** Failure-carrying wrappers shared by every module of the model. */
module Types {

  /** An optional value; `None` is also how a parser reports failure. */
  datatype Option<+T> = None | Some(value: T)

  /** Rust's `Result<T, E>`. */
  datatype Result<+T, +E> = Ok(value: T) | Err(error: E)

  /** Which reading of a routine with a known defect a member follows:
      the code as it stands, or the evident intent. */
  datatype Variant = AsWritten | Corrected
}

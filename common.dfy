/** Failure-carrying wrappers shared by every module of the model. */
module Common {

  /** Python's `X | None`. */
  datatype Option<+T> = None | Some(value: T)

  /** A return value or the exception a Python operation raises instead. */
  datatype Result<+T, +E> = Ok(value: T) | Err(error: E)
}

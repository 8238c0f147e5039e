/** Failure-carrying values shared by the modules of the model. */
module Results {

  /** A value that may be absent. */
  datatype Option<+T> = None | Some(value: T)

  /** Either a computed value or the error that replaced it. */
  datatype Result<+T, +E> = Ok(value: T) | Err(error: E)
}

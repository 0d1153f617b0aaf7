/** Failure-carrying values: the model's stand-in for Python's exceptions. */
module Results {

  datatype Option<+T> = None | Some(value: T)

  /** `Ok(value)` is a normal return, `Err(error)` a raised exception. */
  datatype Result<+T, +E> = Ok(value: T) | Err(error: E)
}

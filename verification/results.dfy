/** Failure-carrying values used across the model, in place of Python's
    exceptions: a parse that raises ValueError becomes an Err. */
module Results {

  datatype Result<+T, +E> = Ok(value: T) | Err(error: E)

  datatype Option<+T> = None | Some(value: T)
}

/** The error-or-value shapes shared by every module: each Go function that
    returns `(value, error)` returns a `Result`. */
module Results {
  datatype Result<+T, +E> = Ok(value: T) | Err(error: E)

  datatype Option<+T> = None | Some(value: T)
}

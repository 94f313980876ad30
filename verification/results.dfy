/** Failure-carrying values shared by the backfill scripts' models. */
module Results {

  /** A value that may be absent, as a Python variable that may be unbound. */
  datatype Option<+T> = None | Some(value: T)

  /** The outcome of a step that can raise: a value, or the error it raised. */
  datatype Result<+T, +E> = Ok(value: T) | Err(error: E)
}

/** The result types shared by the models. */
module Results {

  datatype Option<+T> = None | Some(value: T)

  /** A returned value, or the exception raised instead. */
  datatype Result<+T, +E> = Ok(value: T) | Err(error: E)
}

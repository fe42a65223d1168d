/** Option, Result and Outcome: the model's stand-ins for Ruby's nil and its raised exceptions. */
module Results {

  datatype Option<+T> = None | Some(value: T)

  /** A value, or the kind of exception the Ruby code raises instead. */
  datatype Result<+T, +E> = Ok(value: T) | Err(error: E)

  /** Success without a value, or the kind of exception raised. */
  datatype Outcome<+E> = Pass | Fail(error: E)
}

/** Failure-compatible values shared by the modules of the model. */
module Results {

  /** A value that may be absent (Python's `None`). */
  datatype Option<T> = None | Some(value: T)

  /** The outcome of an operation that either completes or raises an exception
      carrying a message. */
  datatype Outcome = Pass | Fail(message: string)

  /** A value, or the message of the exception raised instead of producing it. */
  datatype Result<T> = Ok(value: T) | Err(message: string)
}

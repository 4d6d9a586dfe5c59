/** Failure-carrying values used in place of the exceptions and null references of the source. */
module Results {

  /** An absent reference (`None`) or a present value. */
  datatype Option<+T> = None | Some(value: T)

  /** The value an operation returns, or the error it would throw instead. */
  datatype Result<+T, +E> = Ok(value: T) | Err(error: E)
}

/** Values that cross the boundary of the list operations: optional node
    values and the success-or-error results that replace Python exceptions. */
module Results {
  /** A node value; the sentinel nodes hold `None`. */
  datatype Option<T> = None | Some(value: T)

  /** The exceptions the list operations raise, each with its message. */
  datatype Error = IndexError(message: string)

  /** The value an operation returns, or the exception it raises. */
  datatype Result<T> = Ok(value: T) | Err(error: Error)

  /** The outcome of an operation that returns `None` or raises. */
  datatype Outcome = Done | Failed(error: Error)
}

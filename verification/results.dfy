/** The outcome of a Python call that either returns a value or raises an
    exception, and Python's optional values. Exceptions are abstracted to an
    error kind `E`; the model never looks at an exception's message. */
module Results {

  datatype Result<+V, +E> = Ok(value: V) | Err(error: E)

  /** A value that may be None. */
  datatype Option<+T> = None | Some(value: T)
}

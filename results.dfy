/** Failure-carrying values shared by the image and the video models. */
module Results {

  /** A value that may be missing, as Python's `None` or a failed lookup. */
  datatype Option<+T> = None | Some(value: T)

  /** The outcome of an operation that either returns a value or raises. */
  datatype Result<+T, +E> = Ok(value: T) | Err(error: E)
}

/** Small result types shared by the modules of the trial-trimming model. */
module Common {

  /** A value that may be missing: an empty table cell, a `None` field, a failed parse. */
  datatype Option<+T> = None | Some(value: T)

  /** The outcome of an operation that the source can abort with an exception. */
  datatype Result<+T, +E> = Ok(value: T) | Err(error: E)
}

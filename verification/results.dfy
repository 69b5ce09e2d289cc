/** Failure-carrying values shared by the entry and collection modules. */
module Results {

  /** An optional value: the model of Python's `None`-or-value returns. */
  datatype Option<+T> = None | Some(value: T)

  /** A value or the reason it could not be produced (an exception in the original). */
  datatype Result<+T, +E> = Ok(value: T) | Err(error: E)
}

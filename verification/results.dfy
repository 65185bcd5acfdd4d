/** Failure-carrying values shared by every part of the model. */
module Results {

  /** A value that may be missing: Python's `None`, or pandas' NaN cell. */
  datatype Option<+T> = None | Some(value: T)

  /** The two exception kinds the store can raise.
      `MovieDbError` is the store's own exception class; `UnpackError` is the
      plain `ValueError` Python raises when a director name yields fewer than
      two parts to unpack into last and given name. */
  datatype Error = MovieDbError | UnpackError

  /** The outcome of an operation that may raise. */
  datatype Result<+T> = Ok(value: T) | Err(error: Error)
}

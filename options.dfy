/** Optional values and results with an error, as the ring operations return them. */
module Options {

  /** Python's `None` or a value. */
  datatype Option<+T> = None | Some(value: T)

  /** A value, or the exception the Python code raises instead. */
  datatype Result<+T, +E> = Success(value: T) | Failure(error: E)
}

/** Optional values and success/failure results used across the model. */
module Results {

  /** A value that may be missing (a PHP `null`/`false` lookup result). */
  datatype Option<+T> = None | Some(value: T)

  /** The outcome of an operation that can fail with an error of type `E`. */
  datatype Result<+T, +E> = Success(value: T) | Failure(error: E)
}

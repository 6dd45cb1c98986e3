/** Failure-carrying values used where the Go code returns `nil` or an `error`. */
module Results {

  /** A value that may be absent (a Go nil pointer or a nil slice). */
  datatype Option<+T> = None | Some(value: T)

  /** The outcome of an operation that can fail with an error of type E. */
  datatype Result<+T, +E> = Ok(value: T) | Err(error: E)
}

/** Optional values and error-carrying results shared by the draft model. */
module Maybe {

  /** A JSON field that may be absent (`undefined` or `null`) or present. */
  datatype Option<+T> = None | Some(value: T)

  /** The outcome of a computation that can throw. */
  datatype Result<+T, +E> = Success(value: T) | Failure(error: E)
}

/** Value wrappers shared by the model: an optional pulled element and a
    settled promise (fulfilled with a value or rejected with an error). */
module Results {

  /** The outcome of one pull: an element, or the end of the sequence. */
  datatype Option<+T> = None | Some(value: T)

  /** A settled promise: `Success` is a fulfilled one, `Failure` a rejected one. */
  datatype Result<+T, +E> = Success(value: T) | Failure(error: E)
}

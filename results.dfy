/** Failure-carrying wrappers shared by the modules of this model. */
module Results {

  /** A value that may be absent (a lookup that found nothing). */
  datatype Option<T> = None | Some(value: T)

  /** The outcome of a call that returns normally or raises an exception. */
  datatype Result<T, E> = Success(value: T) | Failure(error: E)
}

/** Failure-carrying values used for the commands' error paths. */
module Results {

  /** A value that may be absent, such as an unset command-line option. */
  datatype Option<+T> = None | Some(value: T)

  /** Either the value an operation produced or the error it stopped with. */
  datatype Result<+T, +E> = Success(value: T) | Failure(error: E)
}

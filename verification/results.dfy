/** Failure-carrying result types shared by the writer and the lookups. */
module Results {

  /** An optional value. */
  datatype Option<+T> = None | Some(value: T)

  /** Either a value or the error that replaced it (an HTTP error in the service). */
  datatype Result<+R, +E> = Success(value: R) | Failure(error: E)
}

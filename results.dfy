/** Failure-compatible values used in place of the source's exceptions and
    process exits. */
module Results {

  datatype Option<+T> = None | Some(value: T)

  datatype Result<+T, +E> = Success(value: T) | Failure(error: E)
}

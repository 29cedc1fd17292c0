/** Success/failure values standing in for the source's `error(...)` calls,
    which abort the current operation with a message. */
module Results {

  datatype Option<+T> = None | Some(value: T)

  datatype Result<+T, +E> = Success(value: T) | Failure(error: E)
}

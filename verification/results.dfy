/** The outcome of an operation that the source can leave undefined or fail. */
module Results {

  datatype Result<+T, +E> = Success(value: T) | Failure(error: E)
}

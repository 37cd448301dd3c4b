/** The success-or-error value that the model returns where the source raises an exception. */
module Results {

  datatype Result<+T, +E> = Success(value: T) | Failure(error: E)
}

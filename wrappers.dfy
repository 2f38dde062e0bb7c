/** The value of an operation that can fail, or the error it fails with. */
module Wrappers {

  datatype Result<T, E> = Success(value: T) | Failure(error: E)
}

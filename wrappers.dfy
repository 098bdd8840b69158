// Failure-carrying results: the engine's exceptions become values of these types.
module Wrappers {

  /** The outcome of an operation that yields a value or throws. */
  datatype Result<+T, +E> = Success(value: T) | Failure(error: E)

  /** The outcome of an operation that yields nothing or throws. */
  datatype Outcome<+E> = Pass | Fail(error: E)
}

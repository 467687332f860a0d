/** Java's Optional / OptionalDouble and thrown exceptions, as values. */
module Options {

  /** `Optional<T>` and `OptionalDouble`: a value or nothing. */
  datatype Option<T> = None | Some(value: T)

  /** A method that may throw: its result, or the kind of exception it threw. */
  datatype Result<T, E> = Success(value: T) | Failure(error: E)
}

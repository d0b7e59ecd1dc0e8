/** An optional value, the model of `undefined`/`null` and of lookups that
    may find nothing, and the outcome of a validation that either yields a
    value or fails with an error. */
module Wrappers {
  datatype Option<T> = None | Some(value: T)

  datatype Result<T, E> = Success(value: T) | Failure(error: E)
}

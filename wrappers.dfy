/** Failure-carrying results, standing for Go's `(value, error)` return pairs. */
module Wrappers {

  datatype Option<T> = None | Some(value: T)

  datatype Result<T, E> = Ok(value: T) | Err(error: E)

  /** The outcome of a Go function that returns only an `error`. */
  datatype Outcome<E> = Pass | Fail(error: E)
}

/** Failure-carrying return values: Go's `(value, error)` pairs become `Result`,
    and a lone `error` return becomes an `Option` of the error. */
module Wrappers {

  datatype Option<+T> = None | Some(value: T)

  datatype Result<+R, +E> = Ok(value: R) | Err(error: E)
}

/** Option and Result: a Go nil pointer becomes `None`, a Go `error` return becomes `Failure`. */
module Wrappers {

  datatype Option<+T> = None | Some(value: T)

  datatype Result<+R, +E> = Success(value: R) | Failure(error: E)
}

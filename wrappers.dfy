/** Option and Result values standing for JavaScript's `null`/`undefined`
    and for the error-first callbacks of the modelled handlers. */
module Wrappers {

  datatype Option<+T> = None | Some(value: T)

  datatype Result<+R, +E> = Success(value: R) | Failure(error: E)
}

/** Option and Result values used for the source's "maybe absent" values
    and for its HTTP errors. */
module Wrappers {

  datatype Option<+T> = None | Some(value: T)

  datatype Result<+R, +E> = Success(value: R) | Failure(error: E)
}

/** Option and Result, the shapes used for values that may be missing and for
    operations that raise an exception in the modelled program. */
module Wrappers {

  datatype Option<+T> = None | Some(value: T)

  datatype Result<+R, +E> = Success(value: R) | Failure(error: E)
}

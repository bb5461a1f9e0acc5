/** Option and Result, used for values the source leaves undefined and for
    the runs that the source aborts with an exception. */
module Wrappers {

  datatype Option<+T> = None | Some(value: T)

  datatype Result<+R, +E> = Success(value: R) | Failure(error: E)
}

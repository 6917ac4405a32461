/** Option and Result: the absent value (a Java `null`) and the success-or-exception
    outcome of an operation. */
module Wrappers {

  datatype Option<+T> = None | Some(value: T)

  /** Either a value or the failure that stopped the operation */
  datatype Result<+R, +E> = Success(value: R) | Failure(error: E)
}

/** Option and Result values shared by every module of the model. */
module Wrappers {

  /** A value that may be absent (Python's `None`). */
  datatype Option<+T> = None | Some(value: T)

  /** The outcome of a computation that may raise instead of returning. */
  datatype Result<+R, +E> = Success(value: R) | Failure(error: E)

  /** The Python exceptions the modelled code can raise. */
  datatype Exception =
    | ValueError        // an impossible calendar value
    | OverflowError     // a date past 9999-12-31 or a number wider than a C int
    | ZeroDivisionError // a division by zero
    | AttributeError    // `.group` called on a failed regular-expression search
}

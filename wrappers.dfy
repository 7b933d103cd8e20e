/** Option and Result, used for pandas' NaN results and for Python exceptions. */
module Wrappers {

  /** `None` stands for a value pandas reports as NaN (or an absent cell). */
  datatype Option<+T> = None | Some(value: T)

  /** `Failure` stands for a Python exception escaping the modelled function. */
  datatype Result<+R, +E> = Success(value: R) | Failure(error: E)
}

/** Option and Result, used for pandas' missing cells (NaN) and for raised errors. */
module Wrappers {

  /** A cell that may be missing: `None` stands for pandas' NaN. */
  datatype Option<+T> = None | Some(value: T)

  /** The outcome of an operation that may raise. */
  datatype Result<+R, +E> = Success(value: R) | Failure(error: E)
}

/** Failure-compatible result types used across the model. A Python function
    that ends the program with `sys.exit(1)` or raises becomes a `Fail` or
    `Failure` value here. */
module Wrappers {

  /** A value that may be missing; for table cells, `None` is pandas' null. */
  datatype Option<+T> = None | Some(value: T)

  /** A computation that either yields a value or fails with an error. */
  datatype Result<+R, +E> = Success(value: R) | Failure(error: E)

  /** A check that either passes or fails with an error. */
  datatype Outcome<+E> = Pass | Fail(error: E)
}

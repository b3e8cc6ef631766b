/** Failure-carrying result types shared by the pipeline stages. */
module Wrappers {

  /** A value that may be absent (Python's `None`). */
  datatype Option<+T> = None | Some(value: T)

  /** Either a computed value or the error that aborted the computation
      (the exception Python would raise). */
  datatype Result<+R, +E> = Success(value: R) | Failure(error: E)
}

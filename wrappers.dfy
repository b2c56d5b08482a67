/** Option and Result, the usual failure-carrying wrappers. */
module Wrappers {

  datatype Option<+T> = None | Some(value: T)

  /** Failure(msg) stands for an error the source returns, or for a panic. */
  datatype Result<+T> = Success(value: T) | Failure(msg: string)
}

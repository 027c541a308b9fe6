/** Failure-compatible result types used by the spawn-point model. */
module Wrappers {

  /** A value that may be absent: the per-pair step either keeps a point or not. */
  datatype Option<+T> = None | Some(value: T)

  /** The outcome of an operation that may throw instead of returning. */
  datatype Result<+T, +E> = Success(value: T) | Failure(error: E)
}

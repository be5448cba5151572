/** Failure-compatible result types used by every catalog operation. */
module Wrappers {

  /** An optional value: the absent search criteria, a missing index. */
  datatype Option<+T> = None | Some(value: T)

  /** Either a value or the error a call raised. Supports `:-` propagation. */
  datatype Result<+R, +E> = Success(value: R) | Failure(error: E) {

    predicate IsFailure() {
      Failure?
    }

    function PropagateFailure<U>(): Result<U, E>
      requires Failure?
    {
      Failure(error)
    }

    function Extract(): R
      requires Success?
    {
      value
    }
  }
}

/** Failure-compatible Option and Result types used throughout the model. */
module Wrappers {

  /** A value that may be absent (a Python `None` or a missing key). */
  datatype Option<+T> = None | Some(value: T) {

    predicate IsFailure() {
      None?
    }

    function PropagateFailure<U>(): Option<U>
      requires None?
    {
      None
    }

    function Extract(): T
      requires Some?
    {
      value
    }
  }

  /** The outcome of an operation that either returns a value or raises an error. */
  datatype Result<+R, +E> = Success(value: R) | Failure(error: E) {

    predicate IsFailure() {
      Failure?
    }

    function PropagateFailure<U>(): Result<U, E>
      requires Failure?
    {
      Failure(error)
    }

    function Extract(): R
      requires Success?
    {
      value
    }

    /** Re-labels the error of a failure; a success is kept as it is. */
    function MapFailure<E2>(relabel: E -> E2): Result<R, E2> {
      match this
      case Success(v) => Success(v)
      case Failure(e) => Failure(relabel(e))
    }
  }
}

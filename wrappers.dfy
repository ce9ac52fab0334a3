/** Optional values and results with an error, the shapes used for the
    source's nullable references and its exceptions. */
module Wrappers {

  /** A nullable reference: `None` plays `null`. */
  datatype Option<+T> = None | Some(value: T)

  /** The value of an operation, or the kind of exception it throws. */
  datatype Result<+T, +E> = Success(value: T) | Failure(error: E) {
    predicate IsFailure() {
      Failure?
    }

    function PropagateFailure<U>(): Result<U, E>
      requires Failure?
    {
      Failure(error)
    }

    function Extract(): T
      requires Success?
    {
      value
    }
  }
}

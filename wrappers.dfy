/** Option and Result: the "null or a value" and "exception or a value"
    outcomes of the repository's queries. */
module Wrappers {

  /** `FirstOrDefault` on a reference type: the element, or null. */
  datatype Option<+T> = None | Some(value: T)

  /** The exceptions the modelled queries can throw: the repository's
      unchecked null dereference and `DateTime.AddYears` out of range. */
  datatype Exception = NullReferenceException | ArgumentOutOfRangeException

  /** A query that either completes with a value or throws. */
  datatype Result<+T, +E> = Success(value: T) | Failure(error: E) {
    predicate IsFailure() {
      Failure?
    }

    function PropagateFailure<U>(): Result<U, E>
      requires Failure?
    {
      Failure(error)
    }

    function Extract(): T
      requires Success?
    {
      value
    }
  }
}

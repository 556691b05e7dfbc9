/** The value-or-error types of the generator model.

    - Option<T>: Rust's `Option`, for an attribute or a list that may be absent.
    - Result<T, E>: a value, or the diagnostic that ends generation for the type
      (the source's `abort!`). It supports `:-`, which the attribute parser uses
      to pass a parse error on unchanged.
    - Outcome<E>: the verdict of a check that produces no value: it passes or it
      fails with a diagnostic.
 */
module Wrappers {

  datatype Option<+T> = None | Some(value: T)

  datatype Result<+T, +E> = Success(value: T) | Failure(error: E) {

    predicate IsFailure() {
      Failure?
    }

    function PropagateFailure<U>(): Result<U, E>
      requires Failure?
    {
      Failure(error)
    }

    function Extract(): T
      requires Success?
    {
      value
    }
  }

  datatype Outcome<+E> = Pass | Fail(error: E)
}

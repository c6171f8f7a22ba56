/** Optional values and the outcome of operations that can raise an exception. */
module Wrappers {
  /** A value that may be absent (a C# nullable field or reference). */
  datatype Option<T> = None | Some(value: T)

  /** Either a value or the exception that replaced it. */
  datatype Result<T, E> = Success(value: T) | Failure(error: E) {
    predicate IsFailure() { Failure? }

    function PropagateFailure<U>(): Result<U, E>
      requires Failure?
    {
      Failure(error)
    }

    function Extract(): T
      requires Success?
    {
      value
    }
  }

  /** The outcome of an operation that returns nothing but can raise an exception. */
  datatype Outcome<E> = Pass | Fail(error: E) {
    predicate IsFailure() { Fail? }

    function PropagateFailure(): Outcome<E>
      requires Fail?
    {
      this
    }
  }
}

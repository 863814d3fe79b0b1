/** Failure-compatible result types shared by every module of the model. */
module Wrappers {

  /** An optional value: `None` stands for "no such value". */
  datatype Option<+T> = None | Some(value: T)

  /**
   * The outcome of an operation that can fail: the raised exception of the
   * Python code becomes a `Failure` carrying an error value.
   */
  datatype Result<+R, +E> = Success(value: R) | Failure(error: E) {
    predicate IsFailure() {
      Failure?
    }

    function PropagateFailure<U>(): Result<U, E>
      requires Failure?
    {
      Failure(error)
    }

    function Extract(): R
      requires Success?
    {
      value
    }
  }
}

/** Failure-compatible wrappers: `Option` stands for a JavaScript value that may be
    `undefined`, `Result` for a computation that may throw. */
module Results {

  datatype Option<+T> = None | Some(value: T)

  /** `Failure(e)` is an exception `e` thrown out of the computation. Usable with `:-`. */
  datatype Result<+T, +E> = Success(value: T) | Failure(error: E) {

    predicate IsFailure() {
      Failure?
    }

    function PropagateFailure<U>(): Result<U, E>
      requires Failure?
    {
      Failure(error)
    }

    function Extract(): T
      requires Success?
    {
      value
    }
  }
}

/** The two failure-compatible results shared by the modules of this project. */
module Wrappers {

  datatype Option<+T> = None | Some(value: T)

  /** The value if there is one. */
  function Or<T>(o: Option<T>, default: T): T {
    if o.Some? then o.value else default
  }

  /** A thrown error is a Failure; everything after the throw is skipped, as `:-` does. */
  datatype Result<+T, +E> = Success(value: T) | Failure(error: E) {
    predicate IsFailure() {
      Failure?
    }

    function PropagateFailure<U>(): Result<U, E>
      requires Failure?
    {
      Failure(error)
    }

    function GetOr(default: T): T {
      if Success? then value else default
    }

    function Extract(): T
      requires Success?
    {
      value
    }
  }
}

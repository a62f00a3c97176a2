/** Failure-carrying outcomes. A Go function that returns `(T, error)` or panics
    is modelled as a function returning a `Result`; an optional value (such as
    a nil-able error) is an `Option`. */
module Results {

  datatype Option<+T> = None | Some(value: T)

  datatype Result<+T, +E> = Success(value: T) | Failure(error: E) {

    predicate IsFailure() {
      Failure?
    }

    function PropagateFailure<U>(): Result<U, E>
      requires Failure?
    {
      Failure(error)
    }

    function Extract(): T
      requires Success?
    {
      value
    }

    /** Applies `f` to the success value; a failure is kept as it is. */
    function MapValue<U>(f: T -> U): Result<U, E> {
      match this
      case Success(v) => Success(f(v))
      case Failure(e) => Failure(e)
    }
  }
}

/** Outcome of a cipher operation, standing in for the `cipher_error`
    exception: either the computed value, or the reason the input was
    rejected. A rejected call yields no partial value. */
module Results {

  datatype Result<+T, +E> = Success(value: T) | Failure(error: E) {

    /** The operation rejected its input; `:-` stops here */
    predicate IsFailure() {
      Failure?
    }

    /** The same rejection, carried on as the result of the enclosing
        operation */
    function PropagateFailure<U>(): Result<U, E>
      requires Failure?
    {
      Failure(error)
    }

    /** The computed value, what `:-` binds on success */
    function Extract(): T
      requires Success?
    {
      value
    }
  }
}

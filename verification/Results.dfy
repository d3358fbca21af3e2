/** The outcomes the Python code expresses with exceptions. */
module Results {

  /** `IndexError` of a read past the last byte, and `ValueError("invalid exp-golomb")`. */
  datatype BitError = OutOfData | InvalidCode

  datatype Result<+T> = Success(value: T) | Failure(error: BitError) {
    predicate IsFailure() {
      Failure?
    }

    function PropagateFailure<U>(): Result<U>
      requires Failure?
    {
      Failure(error)
    }

    function Extract(): T
      requires Success?
    {
      value
    }
  }

  datatype Option<+T> = None | Some(value: T)
}

/** The two failure-carrying types every other module shares. */
module Results {
  datatype Option<+T> = None | Some(value: T)

  /** Usable with `:-`, which returns the error and otherwise extracts the value. */
  datatype Result<+T, +E> = Ok(value: T) | Err(error: E) {
    predicate IsFailure() {
      Err?
    }

    function PropagateFailure<U>(): Result<U, E>
      requires Err?
    {
      Err(error)
    }

    function Extract(): T
      requires Ok?
    {
      value
    }
  }
}

/** Failure-compatible wrappers used for the exceptions the pipeline raises. */
module Results {

  datatype Option<+T> = None | Some(value: T)

  /** `Err` stands for a raised exception; `Ok` for a normal return. */
  datatype Result<+T, +E> = Ok(value: T) | Err(error: E) {
    predicate IsFailure() {
      Err?
    }

    function PropagateFailure<U>(): Result<U, E>
      requires Err?
    {
      Err(error)
    }

    function Extract(): T
      requires Ok?
    {
      value
    }
  }
}

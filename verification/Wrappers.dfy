/** Failure types shared by every model. */
module Wrappers {

  datatype Option<+T> = None | Some(value: T)

  /** `E` stands for the diagnostic a caller receives. */
  datatype Result<+T, +E> = Ok(value: T) | Err(error: E) {

    predicate IsFailure() {
      Err?
    }

    function PropagateFailure<U>(): Result<U, E>
      requires Err?
    {
      Err(error)
    }

    function Extract(): T
      requires Ok?
    {
      value
    }
  }
}

/** Option and Result, the failure-carrying values used throughout the model. */
module Wrappers {

  datatype Option<T> = None | Some(value: T)

  /** `Err` stands for the fatal `internal_error!`, `user_error!` and `panic!`
      exits of the linker and for a parser's failure value. */
  datatype Result<T, E> = Ok(value: T) | Err(error: E) {
    predicate IsFailure() { Err? }

    function PropagateFailure<U>(): Result<U, E>
      requires Err?
    {
      Err(error)
    }

    function Extract(): T
      requires Ok?
    {
      value
    }
  }
}

/** Option and Result types shared by the importer model. */
module Wrappers {

  datatype Option<+T> = None | Some(value: T)

  /**
   * The outcome of an import step: a value, or the failure that aborts the
   * whole import. Failure-compatible, so `:-` propagates the failure.
   */
  datatype Result<+T, +E> = Ok(value: T) | Err(failure: E) {

    predicate IsFailure()
    {
      Err?
    }

    function PropagateFailure<U>(): Result<U, E>
      requires Err?
    {
      Err(failure)
    }

    function Extract(): T
      requires Ok?
    {
      value
    }
  }
}

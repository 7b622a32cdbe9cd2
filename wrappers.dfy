/** Option and Result, used for the values pandas leaves missing (NaN) and
    for the errors that end an import run (a KeyError on a column that is not
    there, a ValueError on text that float() cannot read). */
module Wrappers {

  datatype Option<+T> = None | Some(value: T)

  datatype Result<+T> = Success(value: T) | Failure(error: string) {

    predicate IsFailure() {
      Failure?
    }

    function PropagateFailure<U>(): Result<U>
      requires Failure?
    {
      Failure(error)
    }

    function Extract(): T
      requires Success?
    {
      value
    }
  }

  /** An Outcome-like check usable with `:-` in a function returning Result. */
  datatype Check = Pass | Fail(error: string) {

    predicate IsFailure() {
      Fail?
    }

    function PropagateFailure<U>(): Result<U>
      requires Fail?
    {
      Failure(error)
    }
  }

  function Need(condition: bool, error: string): Check {
    if condition then Pass else Fail(error)
  }
}

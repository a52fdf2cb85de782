/** Failure values for the exceptions the valuation and update code can raise.
    Each constructor of `Fault` names the Python exception it stands for. */
module Results {

  datatype Fault =
    | DivisionByZero       // ZeroDivisionError from a float division
    | EmptyArgmax          // ValueError from `idxmax` on an empty column
    | PositionOutOfBounds  // IndexError from `iloc[-1]` on an empty frame

  /** Either a computed value or the exception that aborted the computation. */
  datatype Result<+T> = Ok(value: T) | Err(error: Fault) {

    predicate IsFailure() {
      Err?
    }

    function PropagateFailure<U>(): Result<U>
      requires Err?
    {
      Err(error)
    }

    function Extract(): T
      requires Ok?
    {
      value
    }
  }
}

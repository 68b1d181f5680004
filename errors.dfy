/** The failures the swap-math engine reports, and the result type that carries them. */
module Errors {

  /** The named errors of the quoting code. Every one of them aborts the computation. */
  datatype Error =
    | DivisionByZero
    | AmountOverflow
    | AmountUnderflow
    | PriceOverflow
    | AmountInOverflow
    | AmountOutOverflow
    | FeeAmountOverflow

  /** A value, or the error that aborted its computation. `:-` propagates an `Err` the way
      Rust's `?` does. */
  datatype Result<+T> = Ok(value: T) | Err(error: Error) {

    predicate IsFailure() {
      Err?
    }

    function PropagateFailure<U>(): Result<U>
      requires Err?
    {
      Err(error)
    }

    function Extract(): T
      requires Ok?
    {
      value
    }
  }
}

/** Failure-compatible wrappers shared by every module of the model.
    `Option` stands for the source's `undefined`/`null` results and
    `Result` for an operation that either yields a value or throws. */
module Wrappers {

  datatype Option<+T> = None | Some(value: T) {

    predicate IsFailure() {
      None?
    }

    function PropagateFailure<U>(): Option<U>
      requires None?
    {
      None
    }

    function Extract(): T
      requires Some?
    {
      value
    }

    /** The value, or `default` when absent (the source's `??`). */
    function GetOr(default: T): T {
      match this
      case Some(v) => v
      case None => default
    }
  }

  /** A thrown error carries the message the source would show. */
  datatype Result<+T> = Ok(value: T) | Err(message: string) {

    predicate IsFailure() {
      Err?
    }

    function PropagateFailure<U>(): Result<U>
      requires Err?
    {
      Err(message)
    }

    function Extract(): T
      requires Ok?
    {
      value
    }
  }

  /** A check that either passes or fails with a message. */
  datatype Outcome = Pass | Fail(message: string) {

    predicate IsFailure() {
      Fail?
    }

    function PropagateFailure<U>(): Result<U>
      requires Fail?
    {
      Err(message)
    }
  }

  function Need(condition: bool, message: string): (r: Outcome)
  {
    if condition then Pass else Fail(message)
  }
}

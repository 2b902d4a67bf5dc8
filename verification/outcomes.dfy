/** Failure-compatible result types shared by every service of the model.

    The services signal failure by throwing one of five HTTP exceptions;
    the model returns the matching `Error` instead. */
module Outcomes {

  /** The exception kinds the services throw. */
  datatype Error = NotFound | Conflict | BadRequest | Forbidden | Unauthorized

  /** A value that may be absent (`undefined` / `null` in the source). */
  datatype Option<+T> = None | Some(value: T) {

    function GetOr(default: T): T {
      match this
      case Some(v) => v
      case None => default
    }
  }

  /** The outcome of a service call: a value, or the error it throws. */
  datatype Result<+T> = Ok(value: T) | Err(error: Error) {

    predicate IsFailure() {
      Err?
    }

    function PropagateFailure<U>(): Result<U>
      requires Err?
    {
      Err(error)
    }

    function Extract(): T
      requires Ok?
    {
      value
    }
  }

  /** `Ok(())` when `condition` holds, the given error otherwise; used with `:-`. */
  function Need(condition: bool, error: Error): (r: Result<()>)
    ensures r.Ok? <==> condition
    ensures r.Err? ==> r.error == error
  {
    if condition then Ok(()) else Err(error)
  }
}

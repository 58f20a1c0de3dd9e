/** Failure-compatible wrappers shared by every module of the model. The C++
    layer reports failures by throwing; the model returns `Err` with the
    message instead, so every error path is an ordinary value. */
module Wrappers {

  datatype Option<+T> = None | Some(value: T) {
    predicate IsFailure() { None? }
    function PropagateFailure<U>(): Option<U>
    {
      None
    }
    function Extract(): T
      requires Some?
    {
      value
    }
    /** The value, or `default` when absent: dict.get(key, default). */
    function UnwrapOr(default: T): (r: T)
      ensures Some? ==> r == value
      ensures None? ==> r == default
    {
      if Some? then value else default
    }
  }

  /** A thrown exception becomes `Err(message)`. */
  datatype Result<+T> = Ok(value: T) | Err(error: string) {
    predicate IsFailure() { Err? }
    function PropagateFailure<U>(): Result<U>
    {
      match this
      case Err(e) => Err(e)
      case Ok(_) => Err("")
    }
    function Extract(): T
      requires Ok?
    {
      value
    }
  }

  /** The value of the last successful parse, or the current value when the
      parse failed: the effect of assigning inside try/catch. */
  function KeepLast<T>(current: Option<T>, parsed: Result<T>): (r: Option<T>)
    ensures parsed.Ok? ==> r == Some(parsed.value)
    ensures parsed.Err? ==> r == current
  {
    if parsed.Ok? then Some(parsed.value) else current
  }
}

/** Optional values and the success-or-exception outcome of an operation.
    A JavaScript `throw new Error(msg)` becomes `Err(msg)`; `undefined` or
    `null` becomes `None`. */
module Outcomes {

  datatype Option<+T> = None | Some(value: T) {
    function GetOr(default: T): T {
      match this
      case Some(v) => v
      case None => default
    }
  }

  datatype Result<+T> = Ok(value: T) | Err(message: string) {
    predicate IsFailure() {
      Err?
    }

    function PropagateFailure<U>(): Result<U>
      requires Err?
    {
      Err(message)
    }

    function Extract(): T
      requires Ok?
    {
      value
    }
  }

  /** The `RangeError` a recursion deeper than the fuel ends in: the stack
      depth of the engine, which the models bound by an explicit fuel. */
  const DepthError: string := "Maximum call stack size exceeded"
}

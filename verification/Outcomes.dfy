/** Optional values and the outcome of an operation that may raise. */
module Outcomes {

  datatype Option<+T> = None | Some(value: T) {

    function GetOr(default: T): T {
      match this
      case Some(v) => v
      case None => default
    }
  }

  /** Why an operation raised. */
  datatype Fault =
    | Truncated
    | BadHeader
    | BadTagType
    | BadText
    | BadAichBlob
    | TrailingBytes
    | ImplausibleCount
    | OutOfRange
    | BadHex
    | MissingKey
    | CommandFailed
    | TooFewAddresses

  datatype Result<+T> = Ok(value: T) | Err(fault: Fault) {

    predicate IsFailure() {
      Err?
    }

    function PropagateFailure<U>(): Result<U>
      requires Err?
    {
      Err(fault)
    }

    function Extract(): T
      requires Ok?
    {
      value
    }
  }
}

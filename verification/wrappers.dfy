/** Failure-carrying datatypes shared by every module of the model.

    Python signals failure by raising; the model returns a `Result` whose
    error names the exception class the source raises. */
module Wrappers {

  /** Some value or nothing; stands for Python's `Optional[...]` (`None`). */
  datatype Option<+T> = None | Some(value: T) {
    function GetOr(default: T): T {
      match this
      case Some(v) => v
      case None => default
    }
  }

  /** The Python exception classes that the modelled code raises or propagates. */
  datatype PyError =
    | ValueError(message: string)
    | TypeError(message: string)
    | IndexError
    | AttributeError(attribute: string)
    | ZeroDivisionError
    | OverflowError(message: string)
    | RecursionError
      /** an exception raised by a wrapped routine and propagated unchanged */
    | Raised(tag: nat)

  /** Normal return or raised exception. */
  datatype Result<+T> = Ok(value: T) | Err(error: PyError) {
    predicate IsFailure() {
      Err?
    }

    function PropagateFailure<U>(): Result<U>
      requires Err?
    {
      Err(error)
    }

    function Extract(): T
      requires Ok?
    {
      value
    }
  }

  /** A Python value, or the `MISSING` sentinel of a `_Sentinel` enum. The
      sentinel is an ordinary object, so a routine may return it as well. */
  datatype MaybeMissing<+V> = MISSING | Present(value: V)
}

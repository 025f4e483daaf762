/** Failure-compatible carriers used throughout the model.
    `Option` stands for Python's `None`-or-value, and `Result` for a value
    or a raised exception. */
module Wrappers {

  /** A value that may be absent (Python `None`). */
  datatype Option<+T> = None | Some(value: T) {
    predicate IsFailure() { None? }

    function PropagateFailure<U>(): Option<U>
      requires None?
    {
      None
    }

    function Extract(): T
      requires Some?
    {
      value
    }

    function GetOr(default: T): T {
      match this
      case Some(v) => v
      case None => default
    }
  }

  /** Either a computed value or the exception the source raises. */
  datatype Result<+R, +E> = Success(value: R) | Failure(error: E) {
    predicate IsFailure() { Failure? }

    function PropagateFailure<U>(): Result<U, E>
      requires Failure?
    {
      Failure(error)
    }

    function Extract(): R
      requires Success?
    {
      value
    }
  }

  /** The Python exception classes the modelled code can raise. */
  datatype PyError =
    | ValueError
    | IndexError
    | KeyError
    | TypeError
    | NameError
    | AttributeError
    | OSError
    | RuntimeError
    | GenericException(message: seq<char>)
}

/**
 Failure-compatible wrappers shared by every module of the model.

 Python raises exceptions where this model returns `Err`: a missing dictionary
 key is a `KeyError`, a failed `str.index`, a failed tuple unpacking or a failed
 `int()` is a `ValueError`, reading past the end of a list is an `IndexError`,
 and `sys.exit(code)` is a `SystemExit`.
 */
module Outcomes {

  /** An optional value, the model of Python's `Optional[T]`. */
  datatype Option<+T> = None | Some(value: T)

  /** The exception a Python operation would raise. */
  datatype Failure =
    | KeyError(key: string)
    | ValueError(reason: string)
    | IndexError
    | SystemExit(code: int)

  /** Either the value a Python call returns or the exception it raises. */
  datatype Result<+T> = Ok(value: T) | Err(error: Failure) {

    predicate IsFailure() {
      Err?
    }

    function PropagateFailure<U>(): Result<U>
      requires Err?
    {
      Err(error)
    }

    function Extract(): T
      requires Ok?
    {
      value
    }
  }
}

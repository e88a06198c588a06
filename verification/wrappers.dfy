/**
 * Small value types shared by the model: nullable values, call outcomes and
 * JavaScript properties that may be missing.
 */
module Wrappers {

  /** A value that may be absent: SQL NULL in a column, `null` in a JavaScript result. */
  datatype Option<+T> = None | Some(value: T)

  /** The outcome of one adapter call: the value it resolves to, or the error it throws. */
  datatype Result<+T, +E> = Ok(value: T) | Err(error: E)

  /** A JavaScript property of type `T | null | undefined`: missing, explicitly null, or set. */
  datatype Field<+T> = Undefined | Null | Defined(value: T)

  /** `f ?? null`: a missing property and an explicit null are both stored as NULL. */
  function OrNull<T>(f: Field<T>): Option<T>
  {
    match f
    case Defined(v) => Some(v)
    case _ => None
  }
}

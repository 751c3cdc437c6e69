/** Shared value types. */
module Basics {

  type byte = b: nat | b < 256

  datatype Option<+T> = None | Some(value: T)

  /** The outcome of a tool step: a value, or the exception the tool raises. */
  datatype Result<+T> = Ok(value: T) | Err

  function Min(a: int, b: int): int { if a <= b then a else b }

  function Max(a: int, b: int): int { if a <= b then b else a }
}

/**
 Failure-compatible wrappers for the decoder. Every exception the reader can
 raise on malformed input becomes one `Error` case; decoding either yields a
 value or exactly one error, never a partial value.
 */
module Outcome {
  import opened ByteOrder

  /** Why a decode failed. */
  datatype Error =
      /** The 4-byte header does not hold version 2 (the header's `assert`). */
    | UnsupportedVersion(version: nat)
      /** A fixed-width field or a string body runs past the end of the input. */
    | UnexpectedEof
      /** A tag byte the reader does not decode (the dispatchers' `assert(0)`). */
    | UnsupportedType(tag: byte)
      /** A string back-reference past the end of the string table. */
    | OutOfRange(index: nat, size: nat)
      /** An integer key that addresses no slot of a list of `count` slots. */
    | KeyOutOfBounds(key: int, count: nat)
      /** A list or map used as a key of an associative array. */
    | UnhashableKey

  datatype Option<+T> = None | Some(value: T) {
    function GetOr(default: T): T {
      match this
      case Some(v) => v
      case None => default
    }
  }

  datatype Result<+T> = Ok(value: T) | Err(error: Error) {
    predicate IsFailure() {
      Err?
    }

    function PropagateFailure<U>(): Result<U>
      requires Err?
    {
      Err(error)
    }

    function Extract(): T
      requires Ok?
    {
      value
    }
  }
}

/** Small shared vocabulary: bytes, the newline byte, an optional value, min and max. */
module Basics {

  /** One octet of a byte string (Python `bytes`, JavaScript `Uint8Array`). */
  newtype byte = x: int | 0 <= x < 256

  /** The byte `\n`, which separates log entries and the fields of a sync response. */
  const NL: byte := 10

  datatype Option<+T> = None | Some(value: T)

  function Min(a: int, b: int): int { if a <= b then a else b }

  function Max(a: int, b: int): int { if a >= b then a else b }
}

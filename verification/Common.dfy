/** Small types and constants used throughout. */
module Common {
  datatype Option<+T> = None | Some(value: T)

  type Byte = b: nat | b < 256

  /** Bytes of one retained text, including the terminator. */
  const TEXT_CAPACITY: nat := 256

  function Min(a: nat, b: nat): nat { if a < b then a else b }
}

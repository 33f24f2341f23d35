/** Small shared vocabulary: optional values, results, and the fixed-width integers of the source. */
module Common {

  datatype Option<+T> = None | Some(value: T)

  datatype Result<+T, +E> = Ok(value: T) | Err(error: E)

  /** An 8-bit byte, as in Go's `byte` and Rust's `u8`. */
  newtype byte = x: int | 0 <= x < 0x100

  /** Go's `uint64`, the type of slot numbers and constraint indices. */
  newtype uint64 = x: int | 0 <= x < 0x1_0000_0000_0000_0000
}

/** Shared vocabulary: bytes, fixed-width integers and the Option/Result wrappers. */
module Common {

  /** One octet, as the wire and the database store it. */
  type Byte = b: int | 0 <= b < 256

  type Bytes = seq<Byte>

  const U64_LIMIT: nat := 0x1_0000_0000_0000_0000

  /** Rust's `u64`, and `usize` on a 64-bit target. */
  type U64 = n: nat | n < U64_LIMIT

  datatype Option<+T> = None | Some(value: T)

  datatype Result<+T, +E> = Ok(value: T) | Err(error: E)
}

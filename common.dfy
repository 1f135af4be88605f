/** Small shared vocabulary: bytes, optional values and error-carrying results. */
module Common {

  /** An unsigned 8-bit value, as read from a socket or a std::string. */
  type byte = x: int | 0 <= x < 256

  datatype Option<+T> = None | Some(value: T)

  /** The outcome of an operation that can fail with an error of type E. */
  datatype Result<+T, +E> = Ok(value: T) | Err(error: E)

  const TwoTo32: nat := 0x1_0000_0000
  const TwoTo64: nat := 0x1_0000_0000_0000_0000
}

/** Fixed-width integer types and the failure-carrying datatypes shared by the model. */
module Common {

  /** Unsigned machine integers, as the C code's `uint8_t`, `uint16_t` and `uint32_t`. */
  type uint8 = x: int | 0 <= x < 0x100
  type uint16 = x: int | 0 <= x < 0x1_0000
  type uint32 = x: int | 0 <= x < 0x1_0000_0000

  /** A value that may be absent, standing for a NULL pointer. */
  datatype Option<+T> = None | Some(value: T)

  /** The outcome of an operation that can fail with an error of type `E`. */
  datatype Result<+T, +E> = Ok(value: T) | Err(error: E)
}

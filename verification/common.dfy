/** Machine integer widths and the result shapes the driver code returns. */
module Common {

  /** Rust `u8`. */
  newtype u8 = x: int | 0 <= x < 0x100

  /** Rust `u32` (also the C `uint32_t` of the vendor headers). */
  newtype u32 = x: int | 0 <= x < 0x1_0000_0000

  /** Rust `i32` (the C `int` transfer count of the vendor SPI driver). */
  newtype i32 = x: int | -0x8000_0000 <= x < 0x8000_0000

  /** `i32::max_value()`. */
  const I32Max: int := 0x7FFF_FFFF

  /** Rust `Option<T>`. */
  datatype Option<+T> = None | Some(value: T)

  /** Rust `Result<T, E>`. */
  datatype Result<+T, +E> = Ok(value: T) | Err(error: E)

  /** `nb::Error<E>`: a non-blocking call either would block or failed with `E`.
      An `nb::Result<T, E>` is `Result<T, NbError<E>>`. */
  datatype NbError<+E> = WouldBlock | Other(error: E)
}

/** Small value types shared by every module of the model: the Rust `Option`,
    `Result` and unit-error outcome, and the fixed-width unsigned integers the
    source uses. */
module Common {

  datatype Option<+T> = None | Some(value: T)

  datatype Result<+T, +E> = Ok(value: T) | Err(error: E)

  /** What a Rust panic inside an operation stands for, when the model makes
      the panic an explicit outcome. */
  datatype Panic =
    | IndexOutOfBounds   // `Vec::remove` with an index not below the length

  const U8_LIMIT: int := 0x100
  const U16_LIMIT: int := 0x1_0000
  const U32_LIMIT: int := 0x1_0000_0000
  const U64_LIMIT: int := 0x1_0000_0000_0000_0000

  type u8 = x: int | 0 <= x < U8_LIMIT
  type u16 = x: int | 0 <= x < U16_LIMIT
  type u32 = x: int | 0 <= x < U32_LIMIT
  type u64 = x: int | 0 <= x < U64_LIMIT
}

/** Integer widths and failure-carrying datatypes shared by the whole model. */
module Base {

  /** One octet of a byte stream. */
  type Byte = b: int | 0 <= b < 0x100

  /** Rust's `u8`. */
  type U8 = x: int | 0 <= x < 0x100

  /** Rust's `u32`. */
  type U32 = x: int | 0 <= x < 0x1_0000_0000

  datatype Option<+T> = None | Some(value: T)

  datatype Result<+T, +E> = Ok(value: T) | Err(error: E)

  /** The failures an exchange on the transport can report (the boxed `dyn Error` of the source). */
  datatype IoError =
    | UnexpectedEof   // `read_u32` ran out of input
    | InvalidUtf8     // `read_to_string` met bytes that are not UTF-8
    | WriteFailed     // `write_all` on the transport failed
    | ReadFailed      // `read` on the transport failed
    | MalformedJson   // the reply body is not a JSON document

  /** The one error `connect` reports. */
  datatype ConnectError = DiscordNotFound
}

/** Shared vocabulary: bytes and the Option/Result shapes used for the
    Rust code's `Option`, `Result` and early `return Err(..)` paths. */
module Base {

  /** An unsigned 8-bit value (`u8`). */
  type Byte = b: int | 0 <= b < 256

  /** A byte string. Rust `&str`/`String` values are modelled by their UTF-8 bytes. */
  type Bytes = seq<Byte>

  datatype Option<+T> = None | Some(value: T)

  datatype Result<+T, +E> = Ok(value: T) | Err(error: E)
}

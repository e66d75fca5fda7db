/** Machine integers and the small result types that every other module uses. */
module Types {

  const TWO_31: int := 0x8000_0000
  const TWO_32: int := 0x1_0000_0000
  const TWO_63: int := 0x8000_0000_0000_0000
  const TWO_64: int := 0x1_0000_0000_0000_0000

  type u64 = x: int | 0 <= x < TWO_64
  /** A signed 64-bit column that starts at 0 and is only ever incremented. */
  type u63 = x: int | 0 <= x < TWO_63
  type i32 = x: int | -TWO_31 <= x < TWO_31
  type byte = x: int | 0 <= x < 256
  type Bytes = seq<byte>

  datatype Option<+T> = None | Some(value: T)

  datatype Result<+T, +E> = Ok(value: T) | Err(error: E)

  /** Which side an error is blamed on. */
  datatype ErrorSource = Upstream | Downstream | Internal
}

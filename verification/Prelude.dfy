/** Small shared vocabulary: optional values, fixed-width unsigned integers and big-endian fields. */
module Prelude {

  datatype Option<+T> = None | Some(value: T)

  datatype Result<+T, +E> = Ok(value: T) | Err(error: E)

  type u8 = x: int | 0 <= x < 0x100 witness 0
  type u16 = x: int | 0 <= x < 0x1_0000 witness 0
  type u32 = x: int | 0 <= x < 0x1_0000_0000 witness 0
  type u64 = x: int | 0 <= x < 0x1_0000_0000_0000_0000 witness 0

  type Bytes = seq<u8>

  /** Capacity of each counting map. */
  const MAX_DST_ENTRIES := 16384

  /** Length of a process name field, its NUL included. */
  const MAX_COMM_LEN := 16

  /** `u16::from_be_bytes([hi, lo])`. */
  function BeU16(hi: u8, lo: u8): u16 { hi * 0x100 + lo }

  /** `u32::from_be_bytes([a, b, c, d])`. */
  function BeU32(a: u8, b: u8, c: u8, d: u8): u32
  {
    ((a * 0x100 + b) * 0x100 + c) * 0x100 + d
  }

  /** `(n as u16).to_be_bytes()`: the cast keeps the low sixteen bits. */
  function U16Bytes(n: nat): Bytes { [n / 0x100 % 0x100, n % 0x100] }

  /** `n.to_be_bytes()` of a 32-bit word. */
  function U32Bytes(n: u32): Bytes
  {
    [n / 0x100 / 0x100 / 0x100, n / 0x100 / 0x100 % 0x100, n / 0x100 % 0x100, n % 0x100]
  }

  /** `n.to_le_bytes()`: the bytes of a 32-bit word in the memory of a little-endian machine. */
  function LeU32Bytes(n: u32): Bytes
  {
    [n % 0x100, n / 0x100 % 0x100, n / 0x100 / 0x100 % 0x100, n / 0x100 / 0x100 / 0x100]
  }

  lemma U16BytesRoundTrip(n: nat)
    requires n < 0x1_0000
    ensures BeU16(U16Bytes(n)[0], U16Bytes(n)[1]) == n
  {
  }

  lemma BeU16Bytes(hi: u8, lo: u8)
    ensures U16Bytes(BeU16(hi, lo)) == [hi, lo]
  {
  }
}

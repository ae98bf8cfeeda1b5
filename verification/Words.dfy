/** Machine words as bounded integers, and little-endian words inside a byte string. */
module Words {
  type byte = x: int | 0 <= x < 0x100
  type u32 = x: int | 0 <= x < 0x1_0000_0000

  /** Limits of the 32-bit client. */
  const USIZE_MAX: nat := 0xFFFF_FFFF
  const I32_MAX: nat := 0x7FFF_FFFF

  function WordAt(bytes: seq<byte>, offset: nat): u32
    requires offset + 4 <= |bytes|
  {
    var lowest: int := bytes[offset];
    var low: int, high: int, highest: int := bytes[offset + 1], bytes[offset + 2], bytes[offset + 3];
    lowest + 0x100 * low + 0x1_0000 * high + 0x100_0000 * highest
  }
}

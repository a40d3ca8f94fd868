/** The machine integer types of the driver: bytes on the wire and the 16-bit
    words used for addresses, lengths and checksums. */
module Bytes {

  type u8 = x: int | 0 <= x < 0x100

  type u16 = x: int | 0 <= x < 0x1_0000
}

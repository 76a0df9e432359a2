/** The C integer types the library computes with, and the conversions between them.
    A conversion to an unsigned type reduces modulo the number of its values; a conversion
    to a signed type is taken to be modular too, as on every target of the library. */
module CInt {

  type Byte = b: int | 0 <= b < 0x100

  type Int32 = v: int | -0x8000_0000 <= v < 0x8000_0000

  function ToU8(v: int): Byte {
    v % 0x100
  }

  function ToU16(v: int): int {
    v % 0x1_0000
  }

  function ToU32(v: int): int {
    v % 0x1_0000_0000
  }

  function ToU64(v: int): int {
    v % 0x1_0000_0000_0000_0000
  }

  function ToS8(v: int): int {
    if ToU8(v) < 0x80 then ToU8(v) else ToU8(v) - 0x100
  }

  function ToS16(v: int): int {
    if ToU16(v) < 0x8000 then ToU16(v) else ToU16(v) - 0x1_0000
  }

  function ToS32(v: int): Int32 {
    if ToU32(v) < 0x8000_0000 then ToU32(v) else ToU32(v) - 0x1_0000_0000
  }

  function ToS64(v: int): int {
    if ToU64(v) < 0x8000_0000_0000_0000 then ToU64(v) else ToU64(v) - 0x1_0000_0000_0000_0000
  }

  /** The width of `long`: 32 bits on the ARM boards, 64 bits on common hosts. */
  datatype LongWidth = Long32 | Long64 {

    function ToULong(v: int): int {
      match this
      case Long32 => ToU32(v)
      case Long64 => ToU64(v)
    }

    function ToLong(v: int): int {
      match this
      case Long32 => ToS32(v)
      case Long64 => ToS64(v)
    }

    function Max(): int {
      match this
      case Long32 => 0x7fff_ffff
      case Long64 => 0x7fff_ffff_ffff_ffff
    }
  }
}

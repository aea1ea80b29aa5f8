/**
 * The fixed-width integer types of the C++ sources, as ranges of the
 * unbounded integers.
 */
module FixedWidth {

  /** One byte of a binary stream. */
  type Byte = x: nat | x < 0x100

  /** The values an `unsigned short` can hold. */
  type U16 = x: nat | x < 0x1_0000

  /** The values an `unsigned int` can hold. */
  type U32 = x: nat | x < 0x1_0000_0000

  /** `unsigned int` arithmetic is taken modulo this. */
  const U32Limit: nat := 0x1_0000_0000

  /** The values a 64-bit `size_t` can hold. */
  type U64 = x: nat | x < 0x1_0000_0000_0000_0000

  /** The values a 32-bit `int` can hold. */
  type I32 = x: int | -0x8000_0000 <= x < 0x8000_0000
}

/** Fixed-width unsigned integers used by the data-processor nodes. Dafny's
    integers are unbounded, so each width is a subset type, and every narrowing
    conversion in the model is written out as a modulus. */
module Ints {

  type u8 = x: int | 0 <= x < 0x100
  type u32 = x: int | 0 <= x < 0x1_0000_0000
  type u64 = x: int | 0 <= x < 0x1_0000_0000_0000_0000

  /** `static_cast<u8>` of an unsigned 64-bit value: keeps the low 8 bits. */
  function ToU8(x: u64): (r: u8)
    ensures x < 0x100 ==> r == x
  {
    x % 0x100
  }

  /** `static_cast<u32>` of an unsigned 64-bit value: keeps the low 32 bits. */
  function ToU32(x: u64): (r: u32)
    ensures x < 0x1_0000_0000 ==> r == x
  {
    x % 0x1_0000_0000
  }
}

/** The C-level types the runtime's byte primitives are written against. */
module CTypes {

  /** A nullable pointer: `None` is NULL. */
  datatype Option<+T> = None | Some(value: T)

  /** `size_t`, taken to be 64 bits wide. The source does not fix the width;
      a 32-bit build would have `SIZE_MODULUS` be 2^32. */
  const SIZE_MODULUS: nat := 0x1_0000_0000_0000_0000
  const SIZE_MAX: nat := SIZE_MODULUS - 1
  type SizeT = n: nat | n < SIZE_MODULUS

  /** `unsigned char`. */
  newtype Byte = x: int | 0 <= x < 256

  /** `int`: 32-bit two's complement. */
  const INT_MAX: int := 0x7fff_ffff
  type Int32 = x: int | -0x8000_0000 <= x <= INT_MAX
}

/** Shared vocabulary: bytes, optional results and the width of `pb_size_t`. */
module Common {

  datatype Option<+T> = None | Some(value: T)

  type byte = n: nat | n < 256

  type bytes = seq<byte>

  /** `pb_size_t` is 8, 16 or 32 bits wide, depending on PB_FIELD_16BIT / PB_FIELD_32BIT. */
  type SizeMax = n: nat | n == 0xFF || n == 0xFFFF || n == 0xFFFF_FFFF witness 0xFF

  /** Left unconstrained on purpose, so that every result holds for all three builds. */
  const PB_SIZE_MAX: SizeMax

  const TWO_TO_THE_31: nat := 0x8000_0000
  const TWO_TO_THE_32: nat := 0x1_0000_0000
  const TWO_TO_THE_63: nat := 0x8000_0000_0000_0000
  const TWO_TO_THE_64: nat := 0x1_0000_0000_0000_0000
}

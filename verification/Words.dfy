/** Machine integers of the x86-64 build: `uint8_t`, `uint32_t` and `size_t`. */
module Words {

  const WORD_MODULUS: int := 0x1_0000_0000
  const SIZE_MODULUS: int := 0x1_0000_0000_0000_0000

  type u8 = x: int | 0 <= x < 0x100
  type u32 = x: int | 0 <= x < 0x1_0000_0000
  type u64 = x: int | 0 <= x < 0x1_0000_0000_0000_0000

  /** `a - b` on `size_t`. */
  function SizeSub(a: nat, b: nat): nat {
    (a - b) % SIZE_MODULUS
  }

  /** The cast `(int)x` of a `size_t`: its low 32 bits, read as two's complement. */
  function AsInt32(x: nat): int {
    var low := x % WORD_MODULUS;
    if low < 0x8000_0000 then low else low - WORD_MODULUS
  }

  datatype Option<+T> = None | Some(value: T)
}

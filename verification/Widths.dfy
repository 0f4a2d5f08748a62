/** The machine's unsigned integers, and the truncations the source applies to them. */
module Widths {
  const M8 := 0x100
  const M16 := 0x1_0000
  const M24 := 0x100_0000
  const M32 := 0x1_0000_0000

  type Byte = x: int | 0 <= x < M8
  type Word = x: int | 0 <= x < M16
  type Dword = x: int | 0 <= x < M32

  /** A cast to `uint16_t` and to `uint32_t`. */
  function U16(x: int): Word { x % M16 }

  function U32(x: int): Dword { x % M32 }
}

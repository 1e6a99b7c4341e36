/** Machine words shared by every component: bytes and 64-bit words as integers in range. */
module Words {
  const TWO8: int := 0x100
  const TWO32: int := 0x1_0000_0000
  const TWO64: int := 0x1_0000_0000_0000_0000

  type Byte = x: int | 0 <= x < 256
  type Word = x: int | 0 <= x < 0x1_0000_0000_0000_0000

  /** The breakpoint instruction, drddr/drddr-bp.c:12. */
  const INT3: Byte := 0xCC

  /** Wrap-around of the source's `unsigned long` arithmetic. */
  function Wrap(x: int): Word {
    x % TWO64
  }

  datatype Option<+T> = None | Some(value: T)
}

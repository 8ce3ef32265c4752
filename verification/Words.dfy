/** Machine words of the 32-bit kernel. */
module Words {

  const WORD_SIZE := 0x1_0000_0000

  /** A `uint32_t`. */
  type Word = n: int | 0 <= n < WORD_SIZE

  /** A `uint8_t`. */
  type Byte = n: int | 0 <= n < 256

  /** `x++` on a `uint32_t`: wraps to 0. */
  function Inc(x: Word): Word {
    if x + 1 == WORD_SIZE then 0 else x + 1
  }

  /** What a `uint32_t` keeps of an exact result. */
  function Wrap(x: int): Word {
    x % WORD_SIZE
  }

  function Min(a: int, b: int): int {
    if a <= b then a else b
  }
}

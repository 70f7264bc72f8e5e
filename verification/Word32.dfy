/** Bytes, unsigned 32-bit machine words with their wrapping arithmetic, and the size of a page. */
module Word32 {
  const TWO32 := 0x1_0000_0000
  const PAGE_SIZE := 0x1000

  type Byte = x: int | 0 <= x < 256

  type Word = x: int | 0 <= x < TWO32

  /** The word of a sum or difference of two words: one carry or borrow is dropped. */
  function Wrap(x: int): Word
    requires -TWO32 <= x < 2 * TWO32
  {
    if x < 0 then x + TWO32 else if x >= TWO32 then x - TWO32 else x
  }

  lemma WrapIsModulo(x: int)
    requires -TWO32 <= x < 2 * TWO32
    ensures Wrap(x) == x % TWO32
  {
  }
}

/** Fixed-width unsigned arithmetic of the Nios II C code, and two types that several modules share. */
module Words {
  type byte = bv8

  datatype Option<T> = None | Some(value: T)

  /** One past the largest value of an unsigned 32-bit word. */
  const WORD_LIMIT: int := 0x1_0000_0000

  type Word = x: int | 0 <= x < 0x1_0000_0000

  /** Reduction of a mathematical integer to 32 bits. */
  function Wrap(x: int): Word {
    x % 0x1_0000_0000
  }
}

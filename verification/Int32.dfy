/** The 32-bit words of the generated C code. */
module Int32 {

  type int32 = x: int | -0x8000_0000 <= x < 0x8000_0000

  /** 2 to the 32: the number of words, and the base of limb arithmetic. */
  const BASE := 0x1_0000_0000

  /** Two's complement truncation of a mathematical integer to 32 bits. */
  function Wrap(x: int): (w: int32)
    ensures (w - x) % BASE == 0
  {
    (x + 0x8000_0000) % BASE - 0x8000_0000
  }

  lemma WrapInRange(x: int)
    requires -0x8000_0000 <= x < 0x8000_0000
    ensures Wrap(x) == x
  {
  }

  /** The cast to `uint32_t`. */
  function Unsigned(x: int32): (u: nat)
    ensures u < BASE
  {
    if x < 0 then x + BASE else x
  }
}

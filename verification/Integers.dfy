/** The fixed widths in which the sources keep numbers. */
module Integers {
  const INT_LIMIT := 0x8000_0000
  const WORD := 0x1_0000_0000

  /** What an int32_t keeps of a number. */
  function Int32(x: nat): int {
    (x + INT_LIMIT) % WORD - INT_LIMIT
  }

  /** It is the number itself below 2^31, and negative from there to 2^32. */
  lemma Int32Below(x: nat)
    requires x < WORD
    ensures Int32(x) == if x < INT_LIMIT then x else x - WORD
  {
  }

  /** Adding step by step in 32 bits. */
  lemma AddWord(a: nat, b: nat)
    ensures (a + b) % WORD == (a % WORD + b) % WORD
  {
  }
}

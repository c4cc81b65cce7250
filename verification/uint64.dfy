/** Unsigned 64-bit machine words and the wrapping addition that
    `atomic.AddUint64` performs on them. */
module Uint64 {

  /** 2^64: the number of distinct `uint64` values. */
  const MODULUS: int := 0x1_0000_0000_0000_0000

  /** `^uint64(0)`, the all-ones word, the largest `uint64`. */
  const MAX: int := MODULUS - 1

  type U64 = x: int | 0 <= x < MODULUS

  /** Addition modulo 2^64, as the hardware does it. */
  function Add(x: U64, y: U64): (r: U64)
    ensures x + y < MODULUS ==> r == x + y
    ensures x + y >= MODULUS ==> r == x + y - MODULUS
  {
    (x + y) % MODULUS
  }

  /** Adding 1: the largest word wraps round to 0. */
  function Increment(x: U64): (r: U64)
    ensures x < MAX ==> r == x + 1
    ensures x == MAX ==> r == 0
  {
    Add(x, 1)
  }

  /** Adding `^uint64(0)`, which is subtracting 1 modulo 2^64:
      0 wraps round to the largest word. */
  function Decrement(x: U64): (r: U64)
    ensures x > 0 ==> r == x - 1
    ensures x == 0 ==> r == MAX
  {
    Add(x, MAX)
  }

  /** Decrement undoes Increment and vice versa, on every word. */
  lemma IncrementDecrementInverse(x: U64)
    ensures Decrement(Increment(x)) == x
    ensures Increment(Decrement(x)) == x
  {
  }
}

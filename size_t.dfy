/**
 * Arithmetic on the sampler's `size_t` word counters (64 bits, unsigned):
 * subtraction below zero wraps round to a huge value instead of failing.
 */
module SizeT {

  const MODULUS: nat := 0x1_0000_0000_0000_0000

  /** `x - d` computed on 64-bit unsigned integers. */
  function Sub(x: nat, d: nat): (r: nat)
    ensures r < MODULUS
    ensures d <= x < MODULUS ==> r == x - d
    ensures x < d < MODULUS ==> r == MODULUS - (d - x)
  {
    (x - d) % MODULUS
  }

  /** `x + d` computed on 64-bit unsigned integers. */
  function Add(x: nat, d: nat): (r: nat)
    ensures r < MODULUS
    ensures x + d < MODULUS ==> r == x + d
    ensures x < MODULUS && d < MODULUS && MODULUS <= x + d ==> r == x + d - MODULUS
  {
    (x + d) % MODULUS
  }
}

/** The bit-level building blocks of every step: the left rotation `rol`
    and the five boolean mixing functions `f0`..`f4`. */
module Primitives {
  import opened Encoding

  /** `rol(n, x)`, computed as `(x << n) | (x >> (32 - n))`. Rust rejects a
      shift by 32 or more, so the source needs `n` strictly between 0 and 32;
      within that range the result is the 32-bit left rotation of `x`. */
  function Rol(n: nat, x: Word): (r: Word)
    requires 0 < n < 32
    ensures r == x.RotateLeft(n)
  {
    (x << n) | (x >> (32 - n))
  }

  /** `u32::wrapping_add`: `+` on 32-bit words, modulo 2^32. */
  function WrappingAdd(x: Word, y: Word): Word
  {
    x + y
  }

  /** `f0`: each bit of the result is the parity of the three input bits,
      that is `x` where `y` and `z` agree and the complement of `x` where they differ. */
  function F0(x: Word, y: Word, z: Word): (r: Word)
    ensures r & !(y ^ z) == x & !(y ^ z)
    ensures r & (y ^ z) == !x & (y ^ z)
  {
    x ^ y ^ z
  }

  /** `f1`: a bitwise multiplexer on `x`, taking `y`'s bit where `x` is set
      and `z`'s bit where it is clear. */
  function F1(x: Word, y: Word, z: Word): (r: Word)
    ensures r & x == y & x
    ensures r & !x == z & !x
  {
    (x & y) | ((!x) & z)
  }

  /** `f2`: where `z` is clear the result is `x | !y`; where `z` is set it
      is the complement of that, `!x & y`. */
  function F2(x: Word, y: Word, z: Word): (r: Word)
    ensures r & !z == (x | !y) & !z
    ensures r & z == (!x & y) & z
  {
    (x | !y) ^ z
  }

  /** `f3`: a bitwise multiplexer on `z`, taking `x`'s bit where `z` is set
      and `y`'s bit where it is clear. */
  function F3(x: Word, y: Word, z: Word): (r: Word)
    ensures r & z == x & z
    ensures r & !z == y & !z
  {
    (x & z) | (!z & y)
  }

  /** `f4`: where `x` is clear the result is `y | !z`; where `x` is set it
      is the complement of that, `!y & z`. */
  function F4(x: Word, y: Word, z: Word): (r: Word)
    ensures r & !x == (y | !z) & !x
    ensures r & x == (!y & z) & x
  {
    x ^ (y | !z)
  }

  /** `functions[round]` of the transform: the same list `f0..f4` serves
      both lines. */
  function F(round: nat, x: Word, y: Word, z: Word): Word
    requires round < 5
  {
    match round
    case 0 => F0(x, y, z)
    case 1 => F1(x, y, z)
    case 2 => F2(x, y, z)
    case 3 => F3(x, y, z)
    case 4 => F4(x, y, z)
  }
}

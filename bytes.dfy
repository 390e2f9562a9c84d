/**
  Unsigned 8-bit values and the Go `uint8` operators the remapper uses:
  bitwise and/or/xor, left shift (which yields 0 once the shift count
  reaches the width) and wrap-around subtraction.
 */
module Bytes {

  newtype byte = x: int | 0 <= x < 256

  datatype Option<T> = None | Some(value: T)

  function And(a: byte, b: byte): byte {
    ((a as bv8) & (b as bv8)) as int as byte
  }

  function Or(a: byte, b: byte): byte {
    ((a as bv8) | (b as bv8)) as int as byte
  }

  function Xor(a: byte, b: byte): byte {
    ((a as bv8) ^ (b as bv8)) as int as byte
  }

  /** Go's `x << s` on uint8: bits shifted past the top are lost, and a
      count of 8 or more gives 0. */
  function ShiftLeft(x: byte, s: byte): byte {
    if s >= 8 then 0 else ((x as bv8) << (s as int)) as int as byte
  }

  /** Go's `a - b` on uint8 (modulo 256). */
  function Minus(a: byte, b: byte): byte {
    ((a as int - b as int) % 256) as byte
  }

  /** Go's `a + b` on uint8 (modulo 256). */
  function Plus(a: byte, b: byte): byte {
    ((a as int + b as int) % 256) as byte
  }

  /** Bit `k` (0 = least significant) of `x`. */
  predicate Bit(x: byte, k: nat)
    requires k < 8
  {
    (x as bv8) & (1 << k) != 0
  }

  lemma BvRoundTrip(x: bv8)
    ensures (x as int) as bv8 == x
  {
  }

  lemma OrBit(a: byte, b: byte, k: nat)
    requires k < 8
    ensures Bit(Or(a, b), k) <==> Bit(a, k) || Bit(b, k)
  {
    BvRoundTrip((a as bv8) | (b as bv8));
  }

  /** OR-ing never clears a bit. */
  lemma OrKeepsBits(a: byte, b: byte)
    ensures forall k: nat :: k < 8 && Bit(a, k) ==> Bit(Or(a, b), k)
  {
    forall k: nat | k < 8 && Bit(a, k)
      ensures Bit(Or(a, b), k)
    {
      OrBit(a, b, k);
    }
  }

  /** A byte is zero exactly when none of its eight bits is set. */
  lemma ZeroHasNoBits(x: byte)
    ensures x == 0 <==> forall k: nat :: k < 8 ==> !Bit(x, k)
  {
    if x != 0 {
      assert x as bv8 != 0;
      assert Bit(x, 0) || Bit(x, 1) || Bit(x, 2) || Bit(x, 3) ||
             Bit(x, 4) || Bit(x, 5) || Bit(x, 6) || Bit(x, 7);
    }
  }
}

/** Fixed-width signed integers as .NET uses them: `int` is 32 bits, `long` 64 bits, and
    arithmetic outside a `checked` context wraps around. */
module Ints {
  function Pow2(n: nat): (r: nat)
    ensures r >= 1
  {
    if n == 0 then 1 else 2 * Pow2(n - 1)
  }

  /** The smallest value of the width, negated. */
  function Half(bits: nat): (h: nat)
    requires bits > 0
    ensures h >= 1 && Pow2(bits) == 2 * h
  {
    Pow2(bits - 1)
  }

  /** The value fits a signed integer of the given width. */
  predicate InRange(i: int, bits: nat) {
    var half := Pow2(bits) / 2;
    -half <= i < half
  }

  /** The two's-complement wrap-around of unchecked arithmetic. */
  function Wrap(i: int, bits: nat): (r: int)
    requires bits > 0
    ensures InRange(r, bits)
    ensures InRange(i, bits) ==> r == i
  {
    var half := Half(bits);
    ModBounds(i + half, Pow2(bits));
    (i + half) % Pow2(bits) - half
  }

  /** Euclidean remainder by a positive modulus: in range, and the identity below it. */
  lemma ModBounds(x: int, m: int)
    requires m > 0
    ensures 0 <= x % m < m
    ensures 0 <= x < m ==> x % m == x
  {
  }

  /** An unchecked increment: one more, except that the largest value wraps to the
      smallest. */
  lemma WrapIncrement(i: int, bits: nat)
    requires bits > 0 && InRange(i, bits)
    ensures Wrap(i + 1, bits) == if i + 1 == Half(bits) then -(Half(bits) as int) else i + 1
    ensures Wrap(i + 1, bits) != i
  {
    var half := Half(bits);
    if i + 1 == half {
      assert i + 1 + half == Pow2(bits);
      assert (i + 1 + half) % Pow2(bits) == 0;
    }
  }
}

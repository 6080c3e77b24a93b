/** Fixed-width integers of the Go source: `uint32` identifiers and `int64`
    millisecond timestamps. Go's `int64` arithmetic wraps around silently
    (two's complement), so every sum and difference the engine computes is
    written out with `Wrap64` rather than Dafny's unbounded `int`. */
module Ints {

  const TWO_32: int := 0x1_0000_0000
  const TWO_63: int := 0x8000_0000_0000_0000
  const TWO_64: int := 0x1_0000_0000_0000_0000
  const MIN_INT64: int := -0x8000_0000_0000_0000
  const MAX_INT64: int := 0x7FFF_FFFF_FFFF_FFFF

  type uint32 = x: int | 0 <= x < 0x1_0000_0000
  type int64 = x: int | -0x8000_0000_0000_0000 <= x <= 0x7FFF_FFFF_FFFF_FFFF

  predicate InInt64(x: int) {
    MIN_INT64 <= x <= MAX_INT64
  }

  /** The int64 that two's-complement arithmetic leaves for the mathematical value x:
      the unique int64 congruent to x modulo 2^64. */
  function Wrap64(x: int): (r: int64)
    ensures (r - x) % TWO_64 == 0
    ensures InInt64(x) ==> r == x
  {
    (x + TWO_63) % TWO_64 - TWO_63
  }

  /** Values congruent modulo 2^64 wrap to the same int64. */
  lemma WrapCongruent(x: int, y: int)
    requires (x - y) % TWO_64 == 0
    ensures Wrap64(x) == Wrap64(y)
  {
    var q := (x - y) / TWO_64;
    assert x == y + q * TWO_64;
    ShiftMod(y + TWO_63, q);
  }

  lemma {:induction false} ShiftMod(a: int, q: int)
    ensures (a + q * TWO_64) % TWO_64 == a % TWO_64
    decreases if q < 0 then -q else q
  {
    if q > 0 {
      ShiftMod(a, q - 1);
      assert a + q * TWO_64 == (a + (q - 1) * TWO_64) + TWO_64;
    } else if q < 0 {
      ShiftMod(a, q + 1);
      assert a + q * TWO_64 == (a + (q + 1) * TWO_64) - TWO_64;
    }
  }

  /** Wrapping an intermediate result changes nothing about the final wrapped value. */
  lemma WrapInner(x: int, y: int)
    ensures Wrap64(Wrap64(x) + y) == Wrap64(x + y)
  {
    WrapCongruent(Wrap64(x) + y, x + y);
  }

  /** A left-to-right chain of wrapped additions and subtractions wraps once, at the end. */
  lemma WrapChain(x: int, c: int, d: int)
    ensures Wrap64(Wrap64(Wrap64(x) - c) - d) == Wrap64(x - c - d)
  {
    WrapInner(x, -c);
    WrapInner(x - c, -d);
  }

  /** Go's `a + b` on int64. */
  function Add64(a: int64, b: int64): (r: int64)
    ensures (r - (a + b)) % TWO_64 == 0
    ensures InInt64(a + b) ==> r == a + b
  {
    Wrap64(a + b)
  }

  /** Go's `a - b` on int64. */
  function Sub64(a: int64, b: int64): (r: int64)
    ensures (r - (a - b)) % TWO_64 == 0
    ensures InInt64(a - b) ==> r == a - b
  {
    Wrap64(a - b)
  }

  /** Go's `x / 2` on int64: the quotient is truncated toward zero, unlike Dafny's
      Euclidean `/`, which rounds negative odd values down. */
  function Half64(x: int64): (r: int64)
    ensures 0 <= x ==> 0 <= 2 * r <= x <= 2 * r + 1
    ensures x < 0 ==> 2 * r - 1 <= x <= 2 * r <= 0
  {
    var n: int := x;
    if n >= 0 then n / 2 else -((-n) / 2)
  }
}

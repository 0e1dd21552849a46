/** Two's-complement machine integers, written out over unbounded ones. */
module Machine {

  const TWO_31: int := 0x8000_0000
  const TWO_32: int := 0x1_0000_0000
  const TWO_63: int := 0x8000_0000_0000_0000
  const TWO_64: int := 0x1_0000_0000_0000_0000

  function Wrap32(x: int): (r: int)
    ensures -TWO_31 <= r < TWO_31
    ensures -TWO_31 <= x < TWO_31 ==> r == x
  {
    (x + TWO_31) % TWO_32 - TWO_31
  }

  function Wrap64(x: int): (r: int)
    ensures -TWO_63 <= r < TWO_63
    ensures -TWO_63 <= x < TWO_63 ==> r == x
  {
    (x + TWO_63) % TWO_64 - TWO_63
  }

  function Add64(a: int, b: int): int { Wrap64(a + b) }

  function Mul64(a: int, b: int): int { Wrap64(a * b) }

  lemma WholeTurns(x: int, q: int)
    ensures Wrap64(x + q * TWO_64) == Wrap64(x)
  {
    var y := x + TWO_63;
    assert y == y / TWO_64 * TWO_64 + y % TWO_64;
    assert (y + q * TWO_64) / TWO_64 == y / TWO_64 + q;
  }

  /** Wrapping early or late makes no difference to a sum. */
  lemma WrapOnce(a: int, b: int)
    ensures Add64(Wrap64(a), b) == Wrap64(a + b)
    ensures Add64(b, Wrap64(a)) == Wrap64(a + b)
  {
    var q := (a + TWO_63) / TWO_64;
    assert Wrap64(a) == a - q * TWO_64;
    WholeTurns(a + b, -q);
  }

  predicate IsInt64(x: int) { -TWO_63 <= x < TWO_63 }

  /** Whether x - d, wrapped once up or down if need be, is at most limit. */
  predicate Takes(x: int, d: int, limit: int) {
    || -TWO_63 <= x - d <= limit
    || TWO_63 <= x - d <= limit + TWO_64
    || x - d <= limit - TWO_64
  }

  /** Whether a sum stays within a limit when d is taken away can be told from the wrapped sum. */
  lemma ShiftedSum(x: int, d: int, limit: int)
    requires IsInt64(limit)
    ensures Wrap64(x - d) == Wrap64(Wrap64(x) - Wrap64(d))
    ensures Wrap64(x - d) <= limit <==> Takes(Wrap64(x), Wrap64(d), limit)
  {
    var q := (d + TWO_63) / TWO_64;
    WholeTurns(x - d, q);
    WrapOnce(x, -Wrap64(d));
  }

  /** Go's integer division, which rounds toward zero. */
  function Trunc(a: int, b: int): int
    requires b > 0
  {
    if a >= 0 then a / b else -((-a) / b)
  }
}

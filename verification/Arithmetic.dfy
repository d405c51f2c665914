/** Arithmetic that several modules need: products, quotients, powers of two. */
module Arithmetic {

  lemma Distribute(a: int, b: int, c: int)
    ensures a * (b + c) == a * b + a * c
  {
  }

  lemma DistributeOver(a: int, b: int, c: int)
    ensures (a + b) * c == a * c + b * c
  {
  }

  /** What rounding a quotient down loses. */
  lemma QuotientBounds(x: nat, y: nat)
    requires 0 < y
    ensures y * (x / y) <= x < y * (x / y) + y
  {
    assert x == y * (x / y) + x % y;
  }

  function Pow2(n: nat): nat { if n == 0 then 1 else 2 * Pow2(n - 1) }

  lemma {:induction false} Pow2Monotone(a: nat, b: nat)
    requires a <= b
    ensures Pow2(a) <= Pow2(b)
  {
    if a < b {
      Pow2Monotone(a, b - 1);
    }
  }

  lemma Pow2Positive(n: nat)
    ensures 1 <= Pow2(n)
  {
    Pow2Monotone(0, n);
  }
}

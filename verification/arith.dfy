/** Small facts about natural-number products shared by the size and index
    arithmetic. */
module Arith {

  /** Multiplying by a fixed factor keeps the order. */
  lemma MulMonotone(n: nat, a: nat, b: nat)
    requires a <= b
    ensures n * a <= n * b
  {
    assert n * b == n * a + n * (b - a);
  }

  /** A strictly smaller product by the same factor has a strictly smaller
      other factor. */
  lemma MulCancelLess(n: nat, a: int, b: int)
    requires n * a < n * b
    ensures a < b
  {
    assert n * (b - a) == n * b - n * a;
  }
}

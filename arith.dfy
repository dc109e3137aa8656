/** Integer facts the score and page arithmetic rests on. */
module Arith {

  /** Euclidean division of a natural number brackets it between consecutive multiples. */
  lemma DivBounds(n: int, d: int)
    requires n >= 0 && d > 0
    ensures d * (n / d) <= n < d * (n / d) + d
  {
  }

  /** Cancelling a positive factor keeps a strict inequality, in both directions. */
  lemma CancelLess(a: int, x: int, y: int)
    requires a > 0
    ensures a * x < a * y <==> x < y
  {
    if x < y {
      assert a * y - a * x == a * (y - x);
    } else {
      assert a * x - a * y == a * (x - y);
    }
  }
}

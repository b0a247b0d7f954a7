/** Products and quotients of natural numbers. */
module Arith {

  lemma MulMono(x: int, y: int, w: nat)
    requires x <= y
    ensures x * w <= y * w
  {
  }

  lemma MulCancel(x: int, y: int, n: nat)
    requires x * n < y * n
    ensures x < y
  {
    assert (y - x) * n > 0;
  }
}

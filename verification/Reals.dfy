/** Multiplying real numbers keeps their order. */
module Reals {

  lemma ProductGrows(x: real, y: real, a: real)
    requires x <= y && a >= 0.0
    ensures x * a <= y * a
  {
    assert (y - x) * a >= 0.0;
    assert (y - x) * a == y * a - x * a;
  }

  lemma ProductsCompare(x: real, y: real, a: real)
    requires a > 0.0
    ensures x < y ==> x * a < y * a
  {
    if x < y {
      assert (y - x) * a > 0.0;
      assert (y - x) * a == y * a - x * a;
    }
  }
}

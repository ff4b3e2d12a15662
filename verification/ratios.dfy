/** Facts about quotients of reals that the solver does not find unaided. */
module Ratios {

  /** Dividing by a positive `t` keeps `w <= c * t` as `w / t <= c`. */
  lemma DivAtMost(w: real, t: real, c: real)
    requires t > 0.0 && w <= c * t
    ensures w / t <= c
  {
    var q := w / t;
    assert q * t == w;
    if q > c {
      assert (q - c) * t > 0.0;
      assert q * t - c * t > 0.0;
    }
  }

  /** Dividing by a positive `t` keeps `c * t <= w` as `c <= w / t`. */
  lemma DivAtLeast(w: real, t: real, c: real)
    requires t > 0.0 && c * t <= w
    ensures c <= w / t
  {
    var q := w / t;
    assert q * t == w;
    if q < c {
      assert (c - q) * t > 0.0;
      assert c * t - q * t > 0.0;
    }
  }

  /** A product with a non-zero factor is zero only when the other factor is. */
  lemma ZeroProduct(x: real, t: real)
    requires t != 0.0 && x * t == 0.0
    ensures x == 0.0
  {
  }
}

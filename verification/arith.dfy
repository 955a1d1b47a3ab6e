/** Facts about Euclidean division that the solver does not find unaided. */
module Arith {

  /** Division with remainder has exactly one answer. */
  lemma ModUnique(x: int, p: int, q: int, r: int)
    requires p > 0 && 0 <= r < p && x == q * p + r
    ensures x % p == r && x / p == q
  {
    var q', r' := x / p, x % p;
    assert (q' - q) * p == r - r';
    if q' > q {
      MulAtLeast(q' - q, p);
    } else if q' < q {
      MulAtLeast(q - q', p);
    }
  }

  lemma MulAtLeast(d: int, p: int)
    requires d >= 1 && p > 0
    ensures d * p >= p
  {
  }

  lemma ModSub(u: int, p: int)
    requires p > 0 && 0 <= u < p
    ensures (u - p) % p == u
  {
    ModUnique(u - p, p, -1, u);
  }
}

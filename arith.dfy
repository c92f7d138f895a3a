/** Facts about Euclidean division that the solver does not find unaided. */
module Arith {

  lemma MulGap(a: int, b: int, s: int)
    requires s > 0
    ensures a > b ==> a * s >= b * s + s
  {
    if a > b {
      assert a * s - b * s == (a - b - 1) * s + s;
    }
  }

  /** Quotient and remainder are unique. */
  lemma DivModUnique(x: int, s: int, q: int, m: int)
    requires s > 0 && 0 <= m < s && x == q * s + m
    ensures x / s == q && x % s == m
  {
    var q', m' := x / s, x % s;
    assert x == q' * s + m' && 0 <= m' < s;
    MulGap(q', q, s);
    MulGap(q, q', s);
  }

  /** Squaring is strictly monotone on the naturals. */
  lemma SquareLess(r: int, p: int)
    requires r >= 1 && p >= 1 && r * r < p * p
    ensures r < p
  {
    MulGap(r, p, r);
    MulGap(r, p, p);
  }
}

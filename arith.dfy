/** Small facts about integer multiplication, division and remainder that
    the solver does not find on its own. */
module Arith {

  lemma MulMono(a: int, b: int, c: int)
    requires a <= b && 0 <= c
    ensures a * c <= b * c
  {
    var d := b - a;
    assert b * c == a * c + d * c;
  }

  lemma MulAddOne(q: int, d: int)
    ensures (q + 1) * d == q * d + d
  {
  }

  /** Division and remainder are determined by any decomposition x == q * d + r
      with 0 <= r < d. */
  lemma DivModUnique(x: int, d: int, q: int, r: int)
    requires 0 < d && 0 <= r < d && x == q * d + r
    ensures x / d == q && x % d == r
  {
    var q', r' := x / d, x % d;
    assert x == q' * d + r' && 0 <= r' < d;
    if q' < q {
      MulMono(q' + 1, q, d);
      MulAddOne(q', d);
    } else if q < q' {
      MulMono(q + 1, q', d);
      MulAddOne(q, d);
    }
  }
}

/** Facts about numbers that several components need. */
module Arithmetic {
  function Min(a: nat, b: nat): nat { if a < b then a else b }

  lemma ProductMonotone(m: nat, p: int, q: int)
    requires p <= q
    ensures m * p <= m * q
  {
  }

  lemma QuotientUnique(x: int, w: int, q: int, r: int)
    requires w >= 1 && x == w * q + r && 0 <= r < w
    ensures x / w == q && x % w == r
  {
    var p := x / w;
    assert x == w * p + x % w;
    if p > q {
      ProductMonotone(w, q + 1, p);
    } else if p < q {
      ProductMonotone(w, p + 1, q);
    }
  }
}

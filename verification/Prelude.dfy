/** What the models share. */
module Prelude {
  datatype Option<T> = None | Some(value: T)

  predicate Distinct<T(==)>(s: seq<T>) {
    forall i, j :: 0 <= i < j < |s| ==> s[i] != s[j]
  }

  function Min(a: int, b: int): int {
    if a < b then a else b
  }

  /** The n bytes at p and the m bytes at q do not meet. */
  predicate Apart(p: int, n: int, q: int, m: int) {
    p + n <= q || q + m <= p
  }

  // ---------- products and quotients ----------

  lemma TimesAtLeast(d: int, v: int)
    requires v > 0
    ensures d >= 1 ==> d * v >= v
    ensures d <= -1 ==> d * v <= -v
    ensures d >= 0 ==> d * v >= 0
  {
  }

  /** Quotient and remainder are the only such numbers. */
  lemma DivModUnique(x: int, v: int, q: int, r: int)
    requires x == q * v + r && 0 <= r < v
    ensures x / v == q && x % v == r
  {
    var d := q - x / v;
    assert d * v == x % v - r;
    TimesAtLeast(d, v);
  }
}

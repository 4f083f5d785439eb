/** Small facts about integer division and remainder that the solver does not find alone. */
module Arith {

  lemma {:induction false} MulAtLeast(k: int, d: int)
    requires k >= 1 && d > 0
    ensures k * d >= d
    decreases k
  {
    if k > 1 {
      MulAtLeast(k - 1, d);
      assert k * d == (k - 1) * d + d;
    }
  }

  /** Division with remainder has exactly one answer. */
  lemma DivUnique(x: int, d: int, q: int, r: int)
    requires d > 0 && 0 <= r < d && x == q * d + r
    ensures x / d == q && x % d == r
  {
    var q' := x / d;
    var r' := x % d;
    assert (q - q') * d == r' - r;
    if q > q' {
      MulAtLeast(q - q', d);
    } else if q < q' {
      MulAtLeast(q' - q, d);
    }
  }

  /** Subtracting the divisor does not change the remainder. */
  lemma ModSub(i: int, d: int)
    requires d > 0 && i >= d
    ensures (i - d) % d == i % d
  {
    DivUnique(i - d, d, i / d - 1, i % d);
  }
}

/** Monotonicity facts about multiplication and integer division on naturals, used
    for row offsets and for the rescale. */
module Arith {
  /** Multiplying by the same factor keeps the order. */
  lemma {:induction false} MulMono(a: nat, b: nat, m: nat)
    requires a <= b
    ensures a * m <= b * m
  {
    if m > 0 {
      MulMono(a, b, m - 1);
      assert a * m == a * (m - 1) + a && b * m == b * (m - 1) + b;
    }
  }

  /** The converse: a strict order between multiples means a strict order between factors. */
  lemma MulCancel(a: nat, b: nat, m: nat)
    requires a * m < b * m
    ensures a < b
  {
    if b <= a {
      MulMono(b, a, m);
    }
  }

  /** `x / m` is at least every `q` with `q * m <= x`. */
  lemma DivLeast(x: nat, m: nat, q: nat)
    requires 0 < m && q * m <= x
    ensures q <= x / m
  {
    var d := x / m;
    assert x == d * m + x % m && x % m < m;
    assert x < (d + 1) * m;
    MulCancel(q, d + 1, m);
  }

  /** Dividing a multiple of `m` by `m` gives the factor back. */
  lemma MulDivCancel(a: nat, m: nat)
    requires 0 < m
    ensures a * m / m == a
  {
    DivLeast(a * m, m, a);
    assert a * m < (a + 1) * m;
    DivMost(a * m, m, a);
  }

  /** `x / m` is below every `q + 1` with `x < (q + 1) * m`. */
  lemma DivMost(x: nat, m: nat, q: nat)
    requires 0 < m && x < (q + 1) * m
    ensures x / m <= q
  {
    var d := x / m;
    assert x == d * m + x % m && 0 <= x % m;
    assert d * m <= x;
    MulCancel(d, q + 1, m);
  }
}

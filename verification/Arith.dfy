/** The few facts about products, quotients and remainders, and about bounds, that the proofs share. */
module Arith {
  lemma MulNonneg(a: int, b: int)
    requires 0 <= a && 0 <= b
    ensures 0 <= a * b
  {
  }

  lemma MulAssoc(a: int, b: int, c: int)
    ensures a * (b * c) == (a * b) * c
  {
  }

  lemma MulStep(m: int, a: int, b: int)
    requires 0 < m && a < b
    ensures m * a + m <= m * b
  {
    MulNonneg(m, b - a - 1);
    assert m * (b - a - 1) == m * b - m * a - m;
  }

  lemma MulMono(m: int, a: int, b: int)
    requires 0 <= m && a <= b
    ensures m * a <= m * b
  {
    MulNonneg(m, b - a);
    assert m * (b - a) == m * b - m * a;
  }

  lemma DivModFact(x: int, m: int)
    requires 0 < m
    ensures x == m * (x / m) + x % m && 0 <= x % m < m
  {
  }

  lemma DivModIs(x: int, m: int, q: int, r: int)
    requires 0 <= r < m && x == m * q + r
    ensures x / m == q && x % m == r
  {
    DivModFact(x, m);
    if x / m < q {
      MulStep(m, x / m, q);
    } else if q < x / m {
      MulStep(m, q, x / m);
    }
  }

  lemma DivBounds(x: int, m: int)
    requires 0 < m && 0 <= x
    ensures 0 <= x / m <= x
    ensures m > 1 && x > 0 ==> x / m < x
  {
    DivModFact(x, m);
    if x / m < 0 { MulStep(m, x / m, 0); }
    var q := x / m;
    if q >= 0 {
      MulNonneg(m - 1, q);
      assert (m - 1) * q == m * q - q;
      if q > 0 && m > 1 {
        MulStep(q, 0, m - 1);
        assert q * (m - 1) == (m - 1) * q;
      }
    }
  }

  predicate AllBelow(s: seq<nat>, bound: nat) { forall c <- s :: c < bound }
}

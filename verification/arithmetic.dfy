/** Products and quotients: the few facts that the solver does not find by itself. */
module Arithmetic {
  lemma Spread(d: int, m: nat)
    ensures d >= 1 ==> d * m >= m
    ensures d <= -1 ==> d * m + m <= 0
  {
    if d >= 1 {
      assert d * m == (d - 1) * m + m;
    }
    if d <= -1 {
      assert d * m == (d + 1) * m - m;
    }
  }

  lemma Quotient(n: nat, q: nat, m: nat)
    requires m > 0 && q * m <= n < q * m + m
    ensures n / m == q
  {
    var d := n / m - q;
    assert n / m * m == q * m + d * m;
    Spread(d, m);
  }

  lemma DivPlus(k: nat, r: nat, m: nat)
    requires m > 0
    ensures (k * m + r) / m == k + r / m
  {
    var q := r / m;
    assert (k + q) * m == k * m + q * m;
    Quotient(k * m + r, k + q, m);
  }

  lemma DivMonotone(a: nat, b: nat, m: nat)
    requires m > 0 && a <= b
    ensures a / m <= b / m
  {
    var d := a / m - b / m;
    assert a / m * m == b / m * m + d * m;
    Spread(d, m);
  }

  lemma DivBelow(a: nat, k: nat, m: nat)
    requires m > 0 && a < k * m
    ensures a / m < k
  {
    var d := a / m - k;
    assert a / m * m == k * m + d * m;
    Spread(d, m);
  }

  lemma MulLe(a: int, b: int, m: nat)
    requires a <= b
    ensures a * m <= b * m
  {
    assert b * m - a * m == (b - a) * m;
  }

  lemma Bracket(n: nat, m: nat)
    requires m > 0
    ensures n / m * m <= n < (n / m + 1) * m
  {
    assert (n / m + 1) * m == n / m * m + m;
  }

  lemma DivAtLeast(n: nat, k: nat, m: nat)
    requires m > 0 && k * m <= n
    ensures n / m >= k
  {
    Bracket(n, m);
    MulLe(n / m + 1, if n / m < k then k else n / m + 1, m);
  }
}

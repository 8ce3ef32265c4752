/** Facts about numbers and sets the solver does not find by itself. */
module Arith {

  lemma DivModUnique(n: nat, d: nat, q: nat, r: nat)
    requires 0 < d && r < d && n == d * q + r
    ensures n / d == q && n % d == r
  {
    var q', r' := n / d, n % d;
    QuotientUnique(d, q, r, q', r');
  }

  lemma AtLeastOnce(d: nat, m: nat)
    requires 1 <= m
    ensures d * m >= d
  {
  }

  lemma QuotientUnique(d: nat, q: nat, r: nat, q': nat, r': nat)
    requires r < d && r' < d && d * q + r == d * q' + r'
    ensures q == q' && r == r'
  {
    if q > q' {
      AtLeastOnce(d, q - q');
    } else if q' > q {
      AtLeastOnce(d, q' - q);
    }
  }

  lemma DistributeOne(q: nat, l: nat)
    ensures (q + 1) * l == q * l + l
  {
  }

  lemma MulMonotone(d: nat, a: int, b: int)
    requires a <= b
    ensures d * a <= d * b
  {
  }

  lemma SubsetSize(a: set<nat>, b: set<nat>)
    requires a <= b
    ensures |a| <= |b|
  {
    assert b == a + (b - a);
  }

  /** Counting one further in rows of d. */
  lemma NextInRow(n: nat, d: nat)
    requires 0 < d
    ensures if n % d + 1 == d then (n + 1) / d == n / d + 1 && (n + 1) % d == 0
            else (n + 1) / d == n / d && (n + 1) % d == n % d + 1
  {
    var q, r := n / d, n % d;
    if r + 1 == d {
      DistributeOne(q, d);
      DivModUnique(n + 1, d, q + 1, 0);
    } else {
      DivModUnique(n + 1, d, q, r + 1);
    }
  }

  /** n / d, by counting how often d fits; see DivIs. */
  function Div(n: nat, d: nat): nat
    requires 0 < d
  {
    if n < d then 0 else 1 + Div(n - d, d)
  }

  lemma {:induction false} DivIs(n: nat, d: nat)
    requires 0 < d
    ensures Div(n, d) == n / d && Div(n, d) * d <= n < Div(n, d) * d + d
  {
    if n < d {
      DivModUnique(n, d, 0, n);
    } else {
      DivIs(n - d, d);
      var q := Div(n - d, d);
      DistributeOne(q, d);
      DivModUnique(n, d, q + 1, n - (q + 1) * d);
    }
  }
}

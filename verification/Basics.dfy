/** Facts about integers and finite sets that several modules use. */
module Basics {
  lemma MulMonotone(a: nat, b: nat, n: nat)
    requires a <= b
    ensures a * n <= b * n
  {
    assert b * n == a * n + (b - a) * n;
  }

  lemma MulAssoc(a: nat, b: nat, c: nat)
    ensures a * b * c == a * (b * c)
  {
  }

  lemma Distribute(a: nat, b: nat, n: nat)
    ensures (a + b) * n == a * n + b * n
  {
  }

  lemma Quotient(n: nat, d: nat)
    requires d > 0
    ensures n / d * d <= n < (n / d + 1) * d
  {
  }

  lemma DivExact(q: nat, d: nat)
    requires d > 0
    ensures q * d / d == q
  {
    var r := q * d / d;
    assert r * d <= q * d < (r + 1) * d by {
      assert q * d == d * r + q * d % d;
    }
    if r < q {
      MulMonotone(r + 1, q, d);
    } else if q < r {
      MulMonotone(q + 1, r, d);
    }
  }

  lemma QuotientIs(n: nat, d: nat, q: nat, r: nat)
    requires n == q * d + r && r < d
    ensures n / d == q
  {
    var p := n / d;
    Quotient(n, d);
    Distribute(q, 1, d);
    Distribute(p, 1, d);
    if p < q {
      MulMonotone(p + 1, q, d);
    } else if q < p {
      MulMonotone(q + 1, p, d);
    }
  }

  lemma NestedQuotient(n: nat, a: nat, b: nat, m: nat, x: nat, q: nat, y: nat)
    requires n == m * a + x && x < a && m == q * b + y && y < b
    ensures a * b > 0 && n / (a * b) == q
  {
    MulMonotone(y, b - 1, a);
    Distribute(b - 1, 1, a);
    Distribute(q * b, y, a);
    MulAssoc(q, b, a);
    QuotientIs(n, a * b, q, y * a + x);
  }

  /** Dividing twice is dividing by the product. */
  lemma DivTwice(n: nat, a: nat, b: nat)
    requires a > 0 && b > 0
    ensures a * b > 0 && n / a / b == n / (a * b)
  {
    var m := n / a;
    NestedQuotient(n, a, b, m, n % a, m / b, m % b);
  }

  lemma SubsetSize<T>(a: set<T>, b: set<T>)
    requires a <= b
    ensures |a| <= |b|
  {
    assert b == a + (b - a);
  }
}

/** Quotients of natural numbers. */
module Arithmetic {

  lemma Multiple(n: nat, b: nat)
    requires n > 0
    ensures n * b >= b
  {
    assert n * b == (n - 1) * b + b;
  }

  lemma Quotient(a: nat, b: nat, q: nat, r: nat)
    requires 0 <= r < b && a == q * b + r
    ensures a / b == q
  {
    var p, s := a / b, a % b;
    assert a == p * b + s;
    assert (q - p) * b == q * b - p * b && (p - q) * b == p * b - q * b;
    if p < q {
      Multiple(q - p, b);
    } else if p > q {
      Multiple(p - q, b);
    }
  }

  lemma Regroup(p: nat, d: nat, s: nat, c: nat)
    ensures (p * d + s) * c == p * (c * d) + s * c
  {
    assert (p * d + s) * c == (p * d) * c + s * c;
    assert (p * d) * c == p * (d * c);
  }

  lemma Remainder(s: nat, d: nat, r: nat, c: nat)
    requires s < d && r < c
    ensures s * c + r < c * d
  {
    Multiple(d - s, c);
    assert (d - s) * c == d * c - s * c;
  }

  lemma Euclid(n: nat, c: nat, q: nat, r: nat)
    requires c > 0 && q == n / c && r == n % c
    ensures n == q * c + r
  {
  }

  /** Dividing twice is dividing by the product. */
  lemma DivideTwice(n: nat, c: nat, d: nat)
    requires c > 0 && d > 0
    ensures c * d > 0 && n / c / d == n / (c * d)
  {
    var q, r := n / c, n % c;
    var p, s := q / d, q % d;
    Multiple(d, c);
    Regroup(p, d, s, c);
    Remainder(s, d, r, c);
    Euclid(n, c, q, r);
    Euclid(q, d, p, s);
    Quotient(n, c * d, p, s * c + r);
  }
}

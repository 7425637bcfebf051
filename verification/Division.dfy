/** Quotients and remainders, given explicitly so that proofs need no search for them. */
module Division {
  lemma AtLeastOnce(d: nat, k: nat)
    requires k >= 1
    ensures d * k >= d
  {
  }

  /** Quotient and remainder are determined. */
  lemma Quotient(n: nat, d: nat, q: nat, r: nat)
    requires d > 0 && n == d * q + r && r < d
    ensures n / d == q && n % d == r
  {
    var p := n / d;
    if p < q {
      AtLeastOnce(d, q - p);
    } else if p > q {
      AtLeastOnce(d, p - q);
    }
  }

  /** Adding multiples of the divisor leaves the remainder alone. */
  lemma AddMultiple(n: nat, d: nat, k: nat)
    requires d > 0
    ensures (n + d * k) / d == n / d + k && (n + d * k) % d == n % d
  {
    var q := n / d;
    assert d * (q + k) == d * q + d * k;
    Quotient(n + d * k, d, q + k, n % d);
  }

  lemma Successor(n: nat, d: nat)
    requires d > 0
    ensures if n % d + 1 < d then (n + 1) / d == n / d && (n + 1) % d == n % d + 1
            else (n + 1) / d == n / d + 1 && (n + 1) % d == 0
  {
    if n % d + 1 < d {
      Quotient(n + 1, d, n / d, n % d + 1);
    } else {
      Quotient(n + 1, d, n / d + 1, 0);
    }
  }
}

/** Division facts the solver does not find on its own. */
module Arith {

  /** Euclidean division is determined by any quotient and in-range remainder. */
  lemma DivModUnique(n: int, d: int, q: int, r: int)
    requires d > 0 && 0 <= r < d && n == q * d + r
    ensures n / d == q && n % d == r
  {
    var q', r' := n / d, n % d;
    assert n == q' * d + r';
    var t := q - q';
    assert t * d == r' - r;
  }

  /** Dividing by `d` and then by `p` is dividing by `d * p`; the remainder
      modulo `d * p` splits into the two remainders. */
  lemma DivDiv(n: nat, d: nat, p: nat)
    requires d > 0 && p > 0
    ensures (n / d) / p == n / (d * p)
    ensures n % (d * p) == ((n / d) % p) * d + n % d
  {
    var q, r := n / d, n % d;
    var a, b := q / p, q % p;
    Regroup(d, p, q, r, a, b);
    RemainderBound(d, p, b, r);
    DivModUnique(n, d * p, a, b * d + r);
  }

  /** `d * (a * p + b) + r` regrouped around `d * p`. */
  lemma Regroup(d: int, p: int, q: int, r: int, a: int, b: int)
    requires q == a * p + b
    ensures d * q + r == a * (d * p) + (b * d + r)
  {
    assert d * q == d * (a * p) + d * b;
  }

  /** A remainder of `p` scaled by `d`, plus one of `d`, stays below `d * p`. */
  lemma RemainderBound(d: int, p: int, b: int, r: int)
    requires 0 <= b < p && 0 <= r < d
    ensures b * d + r < d * p
  {
    assert b * d <= (p - 1) * d;
  }
}

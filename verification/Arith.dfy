/** Multiplication and Euclidean division by a variable, in steps small enough for the verifier. */
module Arith {
  /** Product and quotient of natural numbers, as natural numbers. */
  function Times(a: nat, b: nat): (p: nat)
    ensures p == a * b
  {
    a * b
  }

  function Quot(x: nat, d: nat): (q: nat)
    requires d > 0
    ensures q == x / d
  {
    x / d
  }

  lemma MulLe(d: nat, a: nat, b: nat)
    requires a <= b
    ensures d * a <= d * b
  {
  }

  lemma MulSucc(d: nat, a: nat)
    ensures d * (a + 1) == d * a + d
  {
  }

  lemma MulDouble(a: nat, p: nat)
    ensures a * (2 * p) == 2 * (a * p) == 2 * (p * a)
  {
  }

  lemma Euclid(n: nat, d: nat)
    requires d > 0
    ensures n == d * (n / d) + n % d && n % d < d
  {
  }

  lemma QuotientUnique(d: nat, q: nat, r: nat, q2: nat, r2: nat)
    requires r < d && r2 < d && d * q + r == d * q2 + r2
    ensures q == q2 && r == r2
  {
    if q < q2 {
      MulSucc(d, q);
      MulLe(d, q + 1, q2);
    } else if q2 < q {
      MulSucc(d, q2);
      MulLe(d, q2 + 1, q);
    }
  }

  lemma DivMod(q: nat, d: nat, r: nat)
    requires r < d
    ensures (q * d + r) / d == q && (q * d + r) % d == r
  {
    var n := q * d + r;
    Euclid(n, d);
    QuotientUnique(d, q, r, n / d, n % d);
  }

  lemma Distribute(x: int, y: int, b: int)
    ensures (x + y) * b == x * b + y * b
  {
  }

  lemma Assoc(a: nat, b: nat, c: nat)
    ensures a * b * c == a * (b * c)
  {
  }
}

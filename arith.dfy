/** Integer helpers shared by the rule table and the label tables. */
module Arith {

  /** b raised to the power e. */
  function Pow(b: nat, e: nat): (p: nat)
    ensures b > 0 ==> p > 0
  {
    if e == 0 then 1 else b * Pow(b, e - 1)
  }

  /** Multiplying by a positive m keeps the order of the factors. */
  lemma {:induction false} MulMonotone(a: int, b: int, m: int)
    requires a <= b && m >= 0
    ensures a * m <= b * m
    decreases b - a
  {
    if a < b {
      MulMonotone(a, b - 1, m);
      assert (b - 1) * m + m == b * m;
    }
  }

  /** Division of q * m + r by m gives back q and r. */
  lemma DivModOfSum(q: int, r: int, m: int)
    requires m > 0 && 0 <= r < m
    ensures (q * m + r) / m == q
    ensures (q * m + r) % m == r
  {
    var x := q * m + r;
    var q', r' := x / m, x % m;
    assert x == q' * m + r';
    if q' < q {
      MulMonotone(q' + 1, q, m);
    } else if q' > q {
      MulMonotone(q + 1, q', m);
    }
  }

  /** i below m * p has quotient below p. */
  lemma DivBelow(i: nat, m: nat, p: nat)
    requires m > 0 && i < m * p
    ensures i / m < p
  {
    var q := i / m;
    assert i == q * m + i % m;
    if q >= p {
      MulMonotone(p, q, m);
    }
  }

  /** A base-m numeral one digit longer stays below the next power. */
  lemma AppendDigitBelow(i: nat, j: nat, m: nat, p: nat)
    requires j < m && i < p
    ensures i * m + j < p * m
  {
    MulMonotone(i, p - 1, m);
    assert (p - 1) * m + m == p * m;
  }

  /** Dividing by m and then by p is dividing by m * p. */
  lemma DivDiv(i: nat, m: nat, p: nat)
    requires m > 0 && p > 0
    ensures i / m / p == i / (m * p)
  {
    var q, r := i / m, i % m;
    var q2, r2 := q / p, q % p;
    assert i == q * m + r;
    assert q == q2 * p + r2;
    assert i == q2 * (m * p) + (r2 * m + r) by {
      assert (q2 * p + r2) * m == q2 * (m * p) + r2 * m;
    }
    AppendDigitBelow(r2, r, m, p);
    assert p * m == m * p;
    DivModOfSum(q2, r2 * m + r, m * p);
  }

  /** A number is its quotient times the divisor plus its remainder. */
  lemma DivModIdentity(i: int, m: int)
    requires m > 0
    ensures i == i / m * m + i % m
  {
  }

  /** One more factor of b. */
  lemma PowStep(b: nat, e: nat)
    ensures Pow(b, e + 1) == b * Pow(b, e) == Pow(b, e) * b
  {
  }
}

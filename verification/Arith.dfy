/** The few facts about multiplication, quotient and remainder that the proofs rest on. */
module Arith {
  lemma MulMono(a: nat, b: nat, m: nat)
    requires a <= b
    ensures a * m <= b * m
  {
  }

  lemma WholeMultiple(m: int, k: int)
    requires m > 0
    ensures k >= 1 ==> m * k >= m
    ensures k <= -1 ==> m * k <= -m
  {
    if k >= 1 {
      assert m * k == m + m * (k - 1);
    }
    if k <= -1 {
      assert m * k == -m + m * (k + 1);
    }
  }

  /** A multiple of `m` strictly between -m and m is zero. */
  lemma SmallMultiple(m: int, k: int)
    requires m > 0 && -m < m * k < m
    ensures k == 0
  {
    WholeMultiple(m, k);
  }

  lemma Division(a: int, m: int)
    requires m > 0
    ensures a == m * (a / m) + a % m && 0 <= a % m < m
  {
  }

  /** Quotient and remainder are determined by the division equation. */
  lemma Quotient(n: int, m: int, q: int, r: int)
    requires 0 <= r < m && n == m * q + r
    ensures n / m == q && n % m == r
  {
    var q', r' := n / m, n % m;
    Division(n, m);
    assert n == m * q' + r';
    assert m * (q' - q) == m * q' - m * q;
    SmallMultiple(m, q' - q);
  }

  lemma AddMultiple(a: int, m: int, k: int)
    requires m > 0
    ensures (a + m * k) % m == a % m
  {
    Division(a, m);
    assert m * (a / m + k) == m * (a / m) + m * k;
    Quotient(a + m * k, m, a / m + k, a % m);
  }

  /** Congruent numbers closer than the modulus are equal. */
  lemma CongruentAndClose(a: int, b: int, m: int)
    requires m > 0 && -m < a - b < m
    ensures a % m == b % m <==> a == b
  {
    var qa, qb := a / m, b / m;
    Division(a, m);
    Division(b, m);
    if a % m == b % m {
      assert m * (qa - qb) == m * qa - m * qb;
      SmallMultiple(m, qa - qb);
    }
  }

  /** A sum may be reduced in either operand first. */
  lemma ModAdd(a: int, b: int, m: int)
    requires m > 0
    ensures (a % m + b) % m == (a + b) % m
  {
    Division(a, m);
    AddMultiple(a % m + b, m, a / m);
  }
}

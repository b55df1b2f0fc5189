/** Division facts the verifier does not find by itself. */
module Arithmetic {
  lemma Times(m: nat, a: nat, b: nat)
    requires a <= b
    ensures m * a <= m * b
  {
  }

  /** Quotient and remainder are unique. */
  lemma Divided(n: nat, m: nat, q: nat, r: nat)
    requires m >= 1 && n == m * q + r && r < m
    ensures n / m == q && n % m == r
  {
    var q', r' := n / m, n % m;
    assert n == m * q' + r';
    if q' < q {
      Times(m, q' + 1, q);
    } else if q < q' {
      Times(m, q + 1, q');
    }
  }

  lemma SplitMod(n: nat, m: nat)
    requires m >= 1
    ensures n % (256 * m) == n % 256 + 256 * (n / 256 % m) && n / (256 * m) == n / 256 / m
  {
    var q, r := n / 256, n % 256;
    var q', r' := q / m, q % m;
    assert n == 256 * m * q' + (256 * r' + r) by {
      assert q == m * q' + r';
      assert n == 256 * q + r;
    }
    Divided(n, 256 * m, q', 256 * r' + r);
  }

  lemma OneMore(n: nat, m: nat)
    requires n >= m >= 1
    ensures n / m == (n - m) / m + 1
  {
    var q, r := (n - m) / m, (n - m) % m;
    assert n == m * (q + 1) + r;
    Divided(n, m, q + 1, r);
  }
}

/** Facts about products and remainders that the solver does not find by itself. */
module Arithmetic {

  lemma Multiple(k: int, m: nat)
    requires m > 0
    ensures (k * m) % m == 0
  {
    var q, r := (k * m) / m, (k * m) % m;
    assert k * m == q * m + r;
    assert (k - q) * m == r;
    AtLeastOnce(k - q, m);
  }

  lemma AtLeastOnce(d: int, m: nat)
    ensures d >= 1 ==> d * m >= m
    ensures d <= -1 ==> d * m <= -(m as int)
  {
    if d >= 1 {
      assert (d - 1) * m >= 0;
    }
    if d <= -1 {
      assert (-d - 1) * m >= 0;
    }
  }

  lemma ModUnique(x: int, m: nat, q: int, r: int)
    requires m > 0 && 0 <= r < m && x == q * m + r
    ensures x % m == r
  {
    var p := x / m;
    assert x == p * m + x % m;
    assert (q - p) * m == x % m - r;
    AtLeastOnce(q - p, m);
  }

  lemma Associative(a: int, b: int, c: int)
    ensures a * (b * c) == (a * b) * c
  {
  }
}

/** Prime numbers, and the table of the smallest ones in lib/Support/SCEVUtils.cpp. */
module Primes {
  import opened Arithmetic

  predicate MultipleOf(n: nat, k: nat)
    requires k > 0
  {
    n % k == 0
  }

  /** No number from two on divides `n` whose square is at most `n`. */
  ghost predicate Prime(n: nat) {
    n >= 2 && forall k: nat :: 2 <= k && k * k <= n ==> !MultipleOf(n, k)
  }

  // ---------- Numbers below the square of seventeen ----------

  /** The numbers two, three, five, seven, eleven or thirteen, unless they are `n`, do not divide it. */
  predicate Sifted(n: nat) {
    Spared(n, 2) && Spared(n, 3) && Spared(n, 5) && Spared(n, 7) && Spared(n, 11) && Spared(n, 13)
  }

  predicate Spared(n: nat, p: nat)
    requires p > 0
  {
    p == n || !MultipleOf(n, p)
  }

  lemma SmallFactor(k: nat)
    requires 2 <= k < 17
    ensures exists p :: p in {2, 3, 5, 7, 11, 13} && p <= k && MultipleOf(k, p)
  {
    assert MultipleOf(k, if k % 2 == 0 then 2 else if k % 3 == 0 then 3 else k);
  }

  lemma MultipleTrans(n: nat, k: nat, p: nat)
    requires p > 0 && k > 0 && MultipleOf(n, k) && MultipleOf(k, p)
    ensures MultipleOf(n, p)
  {
    var q, r := n / k, k / p;
    assert n == q * k && k == r * p;
    Associative(q, r, p);
    Multiple(q * r, p);
  }

  lemma Products(a: nat, b: nat, c: nat)
    ensures a <= b ==> a * c <= b * c
    ensures a < b && c > 0 ==> a * c < b * c
  {
    AtLeastOnce(b - a, c);
    assert b * c == a * c + (b - a) * c;
  }

  /** A proper divisor or its cofactor has a square that is at most the number. */
  lemma SmallDivisor(n: nat, p: nat) returns (k: nat)
    requires 2 <= p < n && MultipleOf(n, p)
    ensures 2 <= k && k * k <= n && MultipleOf(n, k)
  {
    var q := n / p;
    assert n == q * p;
    Products(q, 2, p);
    Multiple(p, q);
    Products(p, q, p);
    Products(q, p, q);
    k := if p <= q then p else q;
  }

  lemma SiftedIsPrime(n: nat)
    requires 2 <= n < 289
    ensures Prime(n) <==> Sifted(n)
  {
    hide MultipleOf;
    if Sifted(n) {
      forall k: nat | 2 <= k && k * k <= n
        ensures !MultipleOf(n, k)
      {
        Products(17, k, 17);
        Products(17, k, k);
        Products(2, k, k);
        SmallFactor(k);
        var p :| p in {2, 3, 5, 7, 11, 13} && p <= k && MultipleOf(k, p);
        assert p < n;
        if MultipleOf(n, k) {
          MultipleTrans(n, k, p);
        }
      }
    } else {
      var p: nat :| p in {2, 3, 5, 7, 11, 13} && p != n && MultipleOf(n, p);
      NoMultipleBelow(n, p);
      var k := SmallDivisor(n, p);
    }
  }

  lemma NoMultipleBelow(n: nat, p: nat)
    requires n > 0 && p > 0 && MultipleOf(n, p)
    ensures p <= n
  {
  }

  // ---------- The table ----------

  /** The primes kept in a table. */
  const CACHED_PRIMES: seq<nat> :=
    [2, 3, 5, 7, 11, 13, 17, 19, 23, 29, 31, 37, 41, 43, 47, 53, 59, 61, 67, 71]
    + [73, 79, 83, 89, 97, 101, 103, 107, 109, 113, 127, 131, 137, 139, 149, 151, 157, 163, 167, 173]
    + [179, 181, 191, 193, 197, 199, 211, 223, 227, 229, 233, 239, 241, 251, 257, 263, 269, 271, 277, 281]

  /** The entries, thirty numbers in a row. */
  predicate InTable(n: nat) {
    || n == 2 || n == 3 || n == 5 || n == 7 || n == 11 || n == 13 || n == 17 || n == 19 || n == 23 || n == 29
    || n == 31 || n == 37 || n == 41 || n == 43 || n == 47 || n == 53 || n == 59
    || n == 61 || n == 67 || n == 71 || n == 73 || n == 79 || n == 83 || n == 89
    || n == 97 || n == 101 || n == 103 || n == 107 || n == 109 || n == 113
    || n == 127 || n == 131 || n == 137 || n == 139 || n == 149
    || n == 151 || n == 157 || n == 163 || n == 167 || n == 173 || n == 179
    || n == 181 || n == 191 || n == 193 || n == 197 || n == 199
    || n == 211 || n == 223 || n == 227 || n == 229 || n == 233 || n == 239
    || n == 241 || n == 251 || n == 257 || n == 263 || n == 269
    || n == 271 || n == 277 || n == 281
  }

  /** A remainder modulo thirty that neither two, three nor five divides. */
  predicate Unit(r: nat) {
    r == 1 || r == 7 || r == 11 || r == 13 || r == 17 || r == 19 || r == 23 || r == 29
  }

  lemma SameRemainder(q: nat, r: nat, m: nat, k: nat)
    requires m > 0 && m * k == 30
    ensures (30 * q + r) % m == r % m
  {
    assert 30 * q == (k * q) * m;
    ModUnique(30 * q + r, m, k * q + r / m, r % m);
  }

  lemma Units(q: nat, r: nat)
    requires r < 30
    ensures var n := 30 * q + r; n % 2 != 0 && n % 3 != 0 && n % 5 != 0 <==> Unit(r)
  {
    SameRemainder(q, r, 2, 15);
    SameRemainder(q, r, 3, 10);
    SameRemainder(q, r, 5, 6);
  }

  lemma RowsHoldRest(n: nat, q: nat, r: nat)
    requires 30 <= n <= 281 && n == 30 * q + r && r < 30 && Unit(r)
    ensures n % 7 != 0 && n % 11 != 0 && n % 13 != 0 <==> InTable(n)
  {
  }

  lemma OtherRows(n: nat)
    requires 30 <= n <= 281
    ensures Sifted(n) <==> InTable(n)
  {
    hide Unit, InTable;
    var q, r := n / 30, n % 30;
    Units(q, r);
    if Unit(r) {
      RowsHoldRest(n, q, r);
    } else {
      OnlyUnits(n, q, r);
    }
  }

  /** No entry of the table from thirty on has a factor of thirty. */
  lemma OnlyUnits(n: nat, q: nat, r: nat)
    requires 30 <= n <= 281 && n == 30 * q + r && r < 30 && !Unit(r)
    ensures !InTable(n)
  {
  }

  lemma FirstRow(n: nat)
    requires n < 30
    ensures n >= 2 && Sifted(n) <==> InTable(n)
  {
  }

  lemma TableRows(n: nat)
    ensures n in CACHED_PRIMES <==> InTable(n)
  {
  }

  /** The table holds exactly the primes up to its last entry. */
  lemma TableHoldsPrimes(n: nat)
    requires n <= 281
    ensures n in CACHED_PRIMES <==> Prime(n)
  {
    hide InTable, Sifted, Prime, CACHED_PRIMES;
    TableRows(n);
    if n < 30 {
      FirstRow(n);
    } else {
      OtherRows(n);
    }
    if n < 2 {
      NotPrime(n);
    } else {
      SiftedIsPrime(n);
    }
  }

  lemma NotPrime(n: nat)
    requires n < 2
    ensures !Prime(n)
  {
  }
}

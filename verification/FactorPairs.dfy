/** How many products of two different numbers are a given number, up to multiples of two. */
module FactorPairs {
  import opened Arithmetic
  import opened Involutions
  import opened Primes
  import opened Windmills

  // ---------- Prime factors ----------

  lemma NoProperDivisor(p: nat, k: nat)
    requires Prime(p) && 1 < k < p
    ensures !MultipleOf(p, k)
  {
    hide MultipleOf;
    if MultipleOf(p, k) {
      var j := SmallDivisor(p, k);
    }
  }

  lemma {:induction false} PrimeFactor(n: nat) returns (p: nat)
    requires n >= 2
    ensures Prime(p) && MultipleOf(n, p) && p <= n
  {
    hide MultipleOf;
    if Prime(n) {
      p := n;
      Itself(n);
    } else {
      var k: nat :| 2 <= k && k * k <= n && MultipleOf(n, k);
      Products(2, k, k);
      p := PrimeFactor(k);
      MultipleTrans(n, k, p);
    }
  }

  lemma Itself(n: nat)
    requires n > 0
    ensures MultipleOf(n, n)
  {
  }

  lemma Exactly(n: nat, k: nat)
    requires k > 0 && MultipleOf(n, k)
    ensures n == k * (n / k)
  {
  }

  lemma MultipleIs(k: nat, q: nat)
    requires k > 0
    ensures MultipleOf(k * q, k) && (k * q) / k == q
  {
    Multiple(q, k);
    assert k * q == q * k;
    var d := (k * q) / k;
    assert k * q == d * k;
    if d < q {
      Products(d, q, k);
    }
    if q < d {
      Products(q, d, k);
    }
  }

  lemma MultipleDifference(a: nat, b: nat, p: nat)
    requires p > 0 && MultipleOf(a, p) && MultipleOf(b, p) && a >= b
    ensures MultipleOf(a - b, p)
  {
    Exactly(a, p);
    Exactly(b, p);
    var i, j := a / p, b / p;
    Products(i, j, p);
    assert a - b == p * (i - j);
    MultipleIs(p, i - j);
  }

  /** A prime that divides a product divides one of the factors. */
  lemma {:induction false} Euclid(p: nat, a: nat, b: nat)
    requires Prime(p) && MultipleOf(a * b, p)
    ensures MultipleOf(a, p) || MultipleOf(b, p)
    decreases a
  {
    hide MultipleOf, Prime;
    PrimeSize(p);
    if a == 0 {
      MultipleIs(p, 0);
    } else if a == 1 {
      assert a * b == b;
    } else if a >= p {
      RestOfProduct(p, a / p, a % p, b, a);
      Euclid(p, a % p, b);
      if MultipleOf(a % p, p) {
        SmallMultiple(a % p, p);
        MultipleIs(p, a / p);
      }
    } else {
      RestOfPrime(p, p / a, p % a, b, a);
      Euclid(p, p % a, b);
      if MultipleOf(p % a, p) {
        SmallMultiple(p % a, p);
        MultipleIs(a, p / a);
        NoProperDivisor(p, a);
      }
    }
  }

  lemma RestOfPrime(p: nat, q: nat, r: nat, b: nat, a: nat)
    requires p > 0 && p == q * a + r && MultipleOf(a * b, p)
    ensures MultipleOf(r * b, p)
  {
    hide MultipleOf;
    MultipleIs(p, b);
    MultipleTimes(a * b, q, p);
    assert p * b == q * (a * b) + r * b by {
      assert (q * a + r) * b == q * (a * b) + r * b;
    }
    MultipleDifference(p * b, q * (a * b), p);
  }

  lemma PrimeSize(p: nat)
    requires Prime(p)
    ensures p >= 2
  {
  }

  lemma RestOfProduct(p: nat, q: nat, r: nat, b: nat, a: nat)
    requires p > 0 && a == q * p + r && MultipleOf(a * b, p)
    ensures MultipleOf(r * b, p)
  {
    hide MultipleOf;
    MultipleIs(p, q * b);
    assert a * b == p * (q * b) + r * b by {
      assert (q * p + r) * b == p * (q * b) + r * b;
    }
    MultipleDifference(a * b, p * (q * b), p);
  }

  lemma MultipleTimes(a: nat, q: nat, p: nat)
    requires p > 0 && MultipleOf(a, p)
    ensures MultipleOf(q * a, p) && q * a >= 0
  {
    Exactly(a, p);
    var k := a / p;
    assert q * a == p * (q * k);
    MultipleIs(p, q * k);
  }

  lemma SmallMultiple(r: nat, p: nat)
    requires r < p && MultipleOf(r, p)
    ensures r == 0
  {
  }

  // ---------- Moving a prime from one factor to the other ----------

  function InOrder(u: int, w: int): (int, int) {
    if u < w then (u, w) else (w, u)
  }

  function Toggle(p: nat, t: (int, int)): (int, int)
    requires p > 0
  {
    if t.0 % p == 0 then InOrder(t.0 / p, t.1 * p) else InOrder(t.0 * p, t.1 / p)
  }

  /** The numbers `p * e` and `o`, of which only the first is a multiple of `p`. */
  ghost predicate Split(p: nat, e: nat, o: nat) {
    p > 1 && e > 0 && o > 0 && !MultipleOf(o, p)
  }

  lemma ToggleSplit(p: nat, e: nat, o: nat)
    requires Split(p, e, o)
    ensures Toggle(p, InOrder(p * e, o)) == InOrder(e, p * o)
  {
    MultipleIs(p, e);
    assert o * p == p * o;
  }

  /** What is known of a number, one of its primes, and the products. */
  ghost predicate OncePrime(n: nat, p: nat) {
    Prime(p) && MultipleOf(n, p) && !MultipleOf(n, p * p)
  }

  lemma TwicePrime(p: nat, i: nat, j: nat, n: nat)
    requires p > 1 && n == (p * i) * (p * j)
    ensures p * p > 0 && MultipleOf(n, p * p)
  {
    Rearrange(p, i, p, j);
    assert p * p > 0;
    MultipleIs(p * p, i * j);
  }

  /** Exactly one of the factors is a multiple of the prime. */
  lemma SplitPair(p: nat, u: nat, w: nat, n: nat) returns (e: nat, o: nat)
    requires u > 0 && w > 0 && u != w && u * w == n && p > 1 && OncePrime(n, p)
    ensures Split(p, e, o) && !MultipleOf(e, p) && (p * e) * o == n && p * e != o && InOrder(u, w) == InOrder(p * e, o)
  {
    hide MultipleOf, Prime;
    Euclid(p, u, w);
    var a, b := u, w;
    if !MultipleOf(u, p) {
      a, b := w, u;
    }
    Exactly(a, p);
    e, o := a / p, b;
    assert a * b == n;
    if MultipleOf(b, p) {
      Exactly(b, p);
      TwicePrime(p, e, b / p, n);
    }
    if MultipleOf(e, p) {
      Exactly(e, p);
      SquareOut(p, e / p, o, n);
    }
    assert e == 0 ==> p * e == 0;
  }

  lemma SquareOut(p: nat, i: nat, o: nat, n: nat)
    requires p > 1 && n == (p * (p * i)) * o
    ensures p * p > 0 && MultipleOf(n, p * p)
  {
    Associative(p, p, i);
    Associative(p * p, i, o);
    assert p * p > 0;
    MultipleIs(p * p, i * o);
  }

  /** Moving the prime gives a product again, moving it back the same one, and it is fixed only for `p * e * e`. */
  lemma ToggleMoves(p: nat, t: (int, int), n: nat) returns (e: nat)
    requires p > 1 && OncePrime(n, p) && t in Pairs(n)
    ensures var s := Toggle(p, t); s in Pairs(n) && Toggle(p, s) == t && (s == t ==> n == p * (e * e) && e > 0)
  {
    hide MultipleOf, Prime, Pairs, Toggle, OncePrime;
    Pair(t.0, t.1, n);
    var o;
    e, o := SplitPair(p, t.0, t.1, n);
    ToggleSplit(p, e, o);
    ToggleSplit(p, o, e);
    Associative(p, e, o);
    assert e * (p * o) == (p * e) * o;
    MultipleIs(p, o);
    Pair(InOrder(e, p * o).0, InOrder(e, p * o).1, n);
    if InOrder(e, p * o) == InOrder(p * e, o) {
      Products(1, p, e);
      assert e == o;
    }
  }

  ghost predicate SquareFree(n: nat) {
    forall q: nat :: Prime(q) ==> q * q > 0 && !MultipleOf(n, q * q)
  }

  lemma NoTwice(n: nat, p: nat, e: nat)
    requires SquareFree(n) && e > 0 && n == p * (e * e)
    ensures e == 1
  {
    hide MultipleOf, Prime;
    if e >= 2 {
      var q := PrimeFactor(e);
      PrimeSize(q);
      Exactly(e, q);
      TwicePrime(q, e / q, e / q, e * e);
      MultipleTimes(e * e, p, q * q);
    }
  }

  /** The only product that is a prime. */
  lemma PairsOfPrime(n: nat)
    requires Prime(n)
    ensures Pairs(n) == {(1, n)}
  {
    hide MultipleOf, Pairs;
    PrimeSize(n);
    forall t
      ensures t in Pairs(n) <==> t == (1, n)
    {
      Pair(t.0, t.1, n);
      if 0 < t.0 < t.1 && t.0 * t.1 == n {
        OnlyOne(t.0, t.1, n);
      }
    }
  }

  lemma OnlyOne(u: nat, w: nat, n: nat)
    requires 0 < u < w && u * w == n && Prime(n)
    ensures u == 1
  {
    hide MultipleOf;
    MultipleIs(u, w);
    Products(u, w, u);
    assert u * u <= u * w;
  }

  /** A number without a square of a prime is a prime exactly when an odd number of products is that number. */
  lemma OddPairs(n: nat)
    requires n >= 2 && SquareFree(n)
    ensures |Pairs(n)| % 2 == 1 <==> Prime(n)
  {
    hide MultipleOf, Prime, Pairs, Toggle;
    if Prime(n) {
      PairsOfPrime(n);
    } else {
      var p := PrimeFactor(n);
      PrimeSize(p);
      var f := (t: (int, int)) => if p > 0 then Toggle(p, t) else t;
      forall t | t in Pairs(n)
        ensures f(t) in Pairs(n) && f(f(t)) == t && f(t) != t
      {
        var e := ToggleMoves(p, t, n);
        if f(t) == t {
          NoTwice(n, p, e);
        }
      }
      FixedParity(Pairs(n), f);
      assert Fixed(Pairs(n), f) == {};
    }
  }

  lemma NotSquare(n: nat)
    requires n >= 2 && SquareFree(n)
    ensures !Square(n)
  {
    hide MultipleOf, Prime;
    forall k: nat
      ensures k * k != n
    {
      if k * k == n {
        NoTwiceSquare(n, k);
      }
    }
  }

  lemma NoTwiceSquare(n: nat, k: nat)
    requires n >= 2 && n == k * k
    ensures !SquareFree(n)
  {
    hide MultipleOf, Prime;
    var q := PrimeFactor(k);
    PrimeSize(q);
    Exactly(k, q);
    TwicePrime(q, k / q, k / q, n);
  }
}

/** Arithmetic of machine words: congruence, division and divisibility modulo twice `half`, a power of two. */
module WordArithmetic {
  import opened Arithmetic

  // ---------- Congruence ----------

  ghost predicate Congruent(a: int, b: int, half: nat)
    requires half > 0
  {
    (a - b) % (2 * half) == 0
  }

  lemma SumOfMultiples(a: int, b: int, m: nat)
    requires m > 0 && a % m == 0 && b % m == 0
    ensures (a + b) % m == 0 && (a - b) % m == 0
  {
    var p, q := a / m, b / m;
    assert a == p * m && b == q * m;
    Multiple(p + q, m);
    Multiple(p - q, m);
    assert a + b == (p + q) * m && a - b == (p - q) * m;
  }

  lemma CongruentSum(a: int, b: int, c: int, d: int, half: nat)
    requires half > 0 && Congruent(a, b, half) && Congruent(c, d, half)
    ensures Congruent(a + c, b + d, half) && Congruent(a - c, b - d, half)
  {
    SumOfMultiples(a - b, c - d, 2 * half);
    assert (a + c) - (b + d) == (a - b) + (c - d);
    assert (a - c) - (b - d) == (a - b) - (c - d);
  }

  lemma CongruentScaled(a: int, b: int, c: int, half: nat)
    requires half > 0 && Congruent(a, b, half)
    ensures Congruent(a * c, b * c, half) && Congruent(c * a, c * b, half)
  {
    var m := 2 * half;
    var p := (a - b) / m;
    assert a - b == p * m;
    Multiple(p * c, m);
    assert a * c - b * c == (p * c) * m by {
      assert (a - b) * c == a * c - b * c;
      assert (p * m) * c == (p * c) * m;
    }
  }

  lemma CongruentTrans(a: int, b: int, c: int, half: nat)
    requires half > 0 && Congruent(a, b, half) && Congruent(b, c, half)
    ensures Congruent(a, c, half)
  {
    SumOfMultiples(a - b, b - c, 2 * half);
    assert (a - b) + (b - c) == a - c;
  }

  lemma CongruentSymm(a: int, b: int, half: nat)
    requires half > 0
    ensures Congruent(a, b, half) == Congruent(b, a, half)
    ensures Congruent(a, a, half)
  {
    if Congruent(a, b, half) {
      SumOfMultiples(0, a - b, 2 * half);
    }
    if Congruent(b, a, half) {
      SumOfMultiples(0, b - a, 2 * half);
    }
  }

  // ---------- Signed values and division ----------

  /** The signed value of the bits of a constant. */
  function Signed(x: int, half: nat): (r: int)
    requires half > 0
    ensures -(half as int) <= r < half
  {
    var m := x % (2 * half);
    if m >= half then m - 2 * half else m
  }

  /** Division that rounds towards zero. */
  function Truncated(n: int, d: int): int
    requires d != 0
  {
    if n >= 0 then n / d else -((-n) / d)
  }

  lemma SignedCongruent(x: int, half: nat)
    requires half > 0
    ensures Congruent(Signed(x, half), x, half)
  {
    var m := 2 * half;
    var q := x / m;
    assert x == q * m + x % m;
    Multiple(-q, m);
    Multiple(-q - 1, m);
    assert x % m - x == -q * m;
    assert x % m - m - x == (-q - 1) * m;
  }

  lemma SignedSmall(x: int, half: nat)
    requires half > 0 && -(half as int) <= x <= half
    ensures Signed(x, half) == if x == half then -(half as int) else x
  {
    var m := 2 * half;
    if x < 0 {
      ModUnique(x, m, -1, x + m);
    } else {
      ModUnique(x, m, 0, x);
    }
  }

  // ---------- Quotients and remainders ----------

  lemma OneFactorMore(n: int, q: int, p: int, u: int, x: int, half: nat)
    requires half > 0 && Congruent(n, q * p, half) && Congruent(q, u * x + 0, half)
    ensures Congruent(n, u * (p * x), half)
  {
    CongruentScaled(q, u * x, p, half);
    assert u * x * p == u * (p * x);
    CongruentTrans(n, q * p, u * (p * x), half);
  }

  lemma OneTermMore(n: int, q: int, r: int, x: int, m: int, u: int, v: int, half: nat)
    requires half > 0 && Congruent(n, q * x + r, half) && Congruent(m, u * x + v, half)
    ensures Congruent(n + m, (q + u) * x + (r + v), half)
  {
    CongruentSum(n, q * x + r, m, u * x + v, half);
    assert q * x + r + (u * x + v) == (q + u) * x + (r + v);
  }

  lemma SameResult(n: int, q: int, r: int, u: int, v: int, x: int, half: nat)
    requires half > 0 && Congruent(n, q * x + r, half) && Congruent(u, q, half) && Congruent(v, r, half)
    ensures Congruent(n, u * x + v, half)
  {
    hide Congruent;
    CongruentScaled(u, q, x, half);
    CongruentSum(u * x, q * x, v, r, half);
    CongruentSymm(u * x + v, q * x + r, half);
    CongruentTrans(n, q * x + r, u * x + v, half);
  }

  lemma RecurrenceValues(s: int, t: int, sq: int, sr: int, tq: int, tr: int, x: int, i: nat, q: int, r: int, half: nat)
    requires half > 0 && Congruent(s, sq * x + sr, half) && Congruent(t, tq * x + tr, half)
    requires Congruent(q, sq + tq * i, half) && Congruent(r, sr + tr * i, half)
    ensures Congruent(s + t * i, q * x + r, half)
  {
    hide Congruent;
    CongruentScaled(t, tq * x + tr, i, half);
    CongruentSum(s, sq * x + sr, t * i, (tq * x + tr) * i, half);
    CongruentScaled(q, sq + tq * i, x, half);
    CongruentSum(q * x, (sq + tq * i) * x, r, sr + tr * i, half);
    assert sq * x + sr + (tq * x + tr) * i == (sq + tq * i) * x + (sr + tr * i) by {
      assert (tq * x + tr) * i == tq * x * i + tr * i;
      assert (sq + tq * i) * x == sq * x + tq * i * x;
      assert tq * x * i == tq * i * x;
    }
    CongruentSymm(q * x + r, (sq + tq * i) * x + (sr + tr * i), half);
    CongruentTrans(s + t * i, (sq + tq * i) * x + (sr + tr * i), q * x + r, half);
  }

  lemma Swapped(a: int, b: int, c: int)
    ensures a * b * c == a * c * b
  {
  }

  lemma ScaledLinear(p: int, x: int, f: int, c: int, i: nat, pf: int, pc: int, half: nat)
    requires half > 0 && Congruent(x, f + c * i, half) && Congruent(pf, p * f, half) && Congruent(pc, p * c, half)
    ensures Congruent(p * x, pf + pc * i, half)
  {
    hide Congruent;
    CongruentScaled(x, f + c * i, p, half);
    CongruentScaled(pc, p * c, i, half);
    CongruentSum(pf, p * f, pc * i, p * c * i, half);
    assert p * (f + c * i) == p * f + p * c * i;
    CongruentSymm(pf + pc * i, p * f + p * c * i, half);
    CongruentTrans(p * x, p * f + p * c * i, pf + pc * i, half);
  }

  lemma ShiftedLinear(s: int, x: int, f: int, c: int, sf: int, half: nat)
    requires half > 0 && Congruent(x, f + c, half) && Congruent(sf, s + f, half)
    ensures Congruent(s + x, sf + c, half)
  {
    hide Congruent;
    CongruentSymm(s, s, half);
    CongruentSum(s, s, x, f + c, half);
    CongruentSymm(sf, s + f, half);
    CongruentSymm(c, c, half);
    CongruentSum(s + f, sf, c, c, half);
    CongruentTrans(s + x, s + f + c, sf + c, half);
  }

  lemma ScaledRest(p: int, x: int, f: int, pf: int, half: nat)
    requires half > 0 && Congruent(pf, p * f, half)
    ensures Congruent(p * x - pf, p * (x - f), half)
  {
    hide Congruent;
    CongruentSymm(p * x, p * x, half);
    CongruentSum(p * x, p * x, pf, p * f, half);
    assert p * x - p * f == p * (x - f);
  }

  /** What is `p` times something that grows by `c` grows by `p` times `c`. */
  lemma GrowsAlike(p: int, now: int, next: int, c: int, pnow: int, pnext: int, pc: int, half: nat)
    requires half > 0 && Congruent(next, now + c, half)
    requires Congruent(pnow, p * now, half) && Congruent(pnext, p * next, half) && Congruent(pc, p * c, half)
    ensures Congruent(pnext, pnow + pc, half)
  {
    hide Congruent;
    CongruentScaled(next, now + c, p, half);
    CongruentTrans(pnext, p * next, p * (now + c), half);
    CongruentSum(pnow, p * now, pc, p * c, half);
    assert p * (now + c) == p * now + p * c;
    CongruentSymm(pnow + pc, p * (now + c), half);
    CongruentTrans(pnext, p * (now + c), pnow + pc, half);
  }

  // ---------- Divisibility ----------

  ghost predicate IsMultiple(x: int, q: int, g: int, half: nat)
    requires half > 0
  {
    Congruent(x, q * g, half)
  }

  ghost predicate Divisible(x: int, g: int, half: nat)
    requires half > 0
  {
    exists q :: IsMultiple(x, q, g, half)
  }

  lemma DivisibleTrans(x: int, g: int, h: int, half: nat)
    requires half > 0 && Divisible(x, g, half) && Divisible(g, h, half)
    ensures Divisible(x, h, half)
  {
    hide Congruent;
    var q :| IsMultiple(x, q, g, half);
    var r :| IsMultiple(g, r, h, half);
    CongruentScaled(g, r * h, q, half);
    Associative(q, r, h);
    CongruentTrans(x, q * g, q * r * h, half);
    assert IsMultiple(x, q * r, h, half);
  }

  lemma DivisibleBy(x: int, q: int, g: int, half: nat)
    requires half > 0 && x == q * g
    ensures Divisible(x, g, half)
  {
    CongruentSymm(x, x, half);
    assert IsMultiple(x, q, g, half);
  }

  lemma DivisibleSum(x: int, y: int, i: int, g: int, half: nat)
    requires half > 0 && Divisible(x, g, half) && Divisible(y, g, half)
    ensures Divisible(x + y * i, g, half)
  {
    hide Congruent;
    var q :| IsMultiple(x, q, g, half);
    var r :| IsMultiple(y, r, g, half);
    CongruentScaled(y, r * g, i, half);
    CongruentSum(x, q * g, y * i, r * g * i, half);
    assert q * g + r * g * i == (q + r * i) * g;
    assert IsMultiple(x + y * i, q + r * i, g, half);
  }

  lemma FourDoesNotDivideSix(half: nat)
    requires half > 1
    ensures !Divisible(6, 4, 2 * half)
  {
    forall q
      ensures !IsMultiple(6, q, 4, 2 * half)
    {
      NotInSteps(6 - q * 4, half);
    }
  }

  lemma NotInSteps(x: int, half: nat)
    requires half > 1 && x % 4 == 2
    ensures x % (2 * (2 * half)) != 0
  {
    var m := 4 * half;
    var k := x / m;
    assert x == m * k + x % m;
    assert m * k == 4 * (half * k);
  }
}

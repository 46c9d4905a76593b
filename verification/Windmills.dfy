/**
 How often numbers are represented by quadratic forms, up to multiples of two: as often as they are products of two
 different numbers. Both are counted with the solutions of one equation in three positive numbers, on which there are
 two involutions.
 */
module Windmills {
  import opened Arithmetic
  import opened Involutions

  /** Stands for `a * x * x + 4 * y * z`. */
  datatype Mill = Mill(x: int, y: int, z: int)

  predicate Solves(v: Mill, a: nat, n: nat) {
    v.x > 0 && v.y > 0 && v.z > 0 && a * (v.x * v.x) + 4 * (v.y * v.z) == n
  }

  ghost function Solutions(a: nat, n: nat): set<Mill> {
    set x, y, z | 1 <= x <= n && 1 <= y <= n && 1 <= z <= n && Solves(Mill(x, y, z), a, n) :: Mill(x, y, z)
  }

  lemma SmallProduct(x: int, y: int)
    requires x > 0 && y > 0
    ensures x <= x * y && y <= x * y
  {
    assert x * y == x + x * (y - 1);
    assert x * y == y + (x - 1) * y;
  }

  lemma Solution(v: Mill, a: nat, n: nat)
    requires a > 0
    ensures v in Solutions(a, n) <==> Solves(v, a, n)
  {
    if Solves(v, a, n) {
      SmallProduct(v.x, v.x);
      SmallProduct(v.y, v.z);
      SmallProduct(a, v.x * v.x);
      assert v == Mill(v.x, v.y, v.z);
    }
  }

  /** The products of two different numbers that are `n`. */
  ghost function Pairs(n: nat): set<(int, int)> {
    set u, w | 1 <= u <= n && 1 <= w <= n && u < w && u * w == n :: (u, w)
  }

  lemma Pair(u: int, w: int, n: nat)
    ensures (u, w) in Pairs(n) <==> 0 < u < w && u * w == n
  {
    if 0 < u < w && u * w == n {
      SmallProduct(u, w);
    }
  }

  /** The representations by `a * x * x + y * y`. */
  ghost function Sums(a: nat, n: nat): set<(nat, nat)> {
    set x: nat, y: nat | 1 <= x <= n && 1 <= y <= n && a * (x * x) + y * y == n :: (x, y)
  }

  lemma InSums(a: nat, n: nat, x: nat, y: nat)
    requires a > 0
    ensures (x, y) in Sums(a, n) <==> x > 0 && y > 0 && a * (x * x) + y * y == n
  {
    if x > 0 && y > 0 && a * (x * x) + y * y == n {
      SmallProduct(x, x);
      SmallProduct(y, y);
      SmallProduct(a, x * x);
    }
  }

  function Swap(v: Mill): Mill {
    Mill(v.x, v.z, v.y)
  }

  lemma SwapIsInvolution(a: nat, n: nat)
    requires a > 0
    ensures Involution(Solutions(a, n), Swap)
  {
    forall v | v in Solutions(a, n)
      ensures Swap(v) in Solutions(a, n) && Swap(Swap(v)) == v
    {
      Solution(v, a, n);
      Solution(Swap(v), a, n);
    }
  }

  // ---------- Numbers that leave one modulo four ----------

  ghost predicate Square(n: nat) {
    exists k: nat :: k * k == n
  }

  /** Zagier's involution. */
  function Turn(v: Mill): Mill {
    if v.x < v.y - v.z then Mill(v.x + 2 * v.z, v.z, v.y - v.x - v.z)
    else if v.x < 2 * v.y then Mill(2 * v.y - v.x, v.y, v.x - v.y + v.z)
    else Mill(v.x - 2 * v.y, v.x - v.y + v.z, v.y)
  }

  /** The borders between the cases are never met. */
  predicate Inside(v: Mill) {
    v.x != v.y - v.z && v.x != 2 * v.y
  }

  lemma Distribute(p: int, d: int, e: int, f: int)
    ensures p * (d + e + f) == p * d + p * e + p * f
  {
  }

  lemma Rearrange(a: int, b: int, c: int, d: int)
    ensures (a * b) * (c * d) == (a * c) * (b * d)
  {
  }

  lemma NineProducts(a: int, b: int, c: int, d: int, e: int, f: int)
    ensures (a + b + c) * (d + e + f) == (a * d + b * d + c * d) + (a * e + b * e + c * e) + (a * f + b * f + c * f)
  {
    Distribute(a + b + c, d, e, f);
    Distribute(d, a, b, c);
    Distribute(e, a, b, c);
    Distribute(f, a, b, c);
  }

  /** The sum of two multiples of the product of `s` and `t`. */
  lemma Collect(i: int, j: int, k: int, l: int, s: int, t: int)
    ensures (i * s) * (l * t) + (j * t) * (k * s) == (i * l + j * k) * (s * t)
  {
    Rearrange(i, s, l, t);
    Rearrange(j, t, k, s);
    Distribute(s * t, i * l, j * k, 0);
  }

  lemma AddUp(p: int, a: int, b: int, c: int, d: int, e: int, f: int, g: int, h: int, i: int, ab: int, ac: int, bc: int)
    requires p == (a + b + c) + (d + e + f) + (g + h + i) && d + b == ab && g + c == ac && h + f == bc
    ensures p == a + ab + ac + e + bc + i
  {
  }

  /** The product of two linear forms. */
  lemma Expand(i: int, j: int, k: int, l: int, m: int, o: int, x: int, y: int, z: int)
    ensures (i * x + j * y + k * z) * (l * x + m * y + o * z)
         == (i * l) * (x * x) + (i * m + j * l) * (x * y) + (i * o + k * l) * (x * z)
          + (j * m) * (y * y) + (j * o + k * m) * (y * z) + (k * o) * (z * z)
  {
    var a, b, c, d, e, f := i * x, j * y, k * z, l * x, m * y, o * z;
    NineProducts(a, b, c, d, e, f);
    Rearrange(i, x, l, x);
    Rearrange(j, y, m, y);
    Rearrange(k, z, o, z);
    Collect(i, j, l, m, x, y);
    Collect(i, k, l, o, x, z);
    Collect(j, k, m, o, y, z);
    AddUp((a + b + c) * (d + e + f), a * d, b * d, c * d, a * e, b * e, c * e, a * f, b * f, c * f,
          (i * m + j * l) * (x * y), (i * o + k * l) * (x * z), (j * o + k * m) * (y * z));
  }

  lemma TurnSolves(v: Mill, n: nat)
    requires Solves(v, 1, n) && Inside(v)
    ensures Solves(Turn(v), 1, n)
  {
    var x, y, z := v.x, v.y, v.z;
    if x < y - z {
      Expand(1, 0, 2, 1, 0, 2, x, y, z);
      Expand(0, 0, 1, -1, 1, -1, x, y, z);
    } else if x < 2 * y {
      Expand(-1, 2, 0, -1, 2, 0, x, y, z);
      Expand(0, 1, 0, 1, -1, 1, x, y, z);
    } else {
      Expand(1, -2, 0, 1, -2, 0, x, y, z);
      Expand(1, -1, 1, 0, 1, 0, x, y, z);
    }
  }

  lemma TurnBack(v: Mill)
    requires v.x > 0 && v.y > 0 && v.z > 0 && Inside(v)
    ensures Turn(Turn(v)) == v
  {
  }

  lemma AlwaysInside(v: Mill, n: nat)
    requires Solves(v, 1, n) && n % 2 == 1 && !Square(n)
    ensures Inside(v)
  {
    var x, y, z := v.x, v.y, v.z;
    var k := y + z;
    Expand(0, 1, 1, 0, 1, 1, x, y, z);
    Expand(0, 1, -1, 0, 1, -1, x, y, z);
    assert x == y - z ==> k * k == n;
    Expand(0, 2, 0, 0, 2, 0, x, y, z);
    if x == 2 * y {
      ModUnique(n, 2, 2 * (y * y) + 2 * (y * z), 0);
    }
  }

  lemma TurnIsInvolution(n: nat)
    requires n % 2 == 1 && !Square(n)
    ensures Involution(Solutions(1, n), Turn)
  {
    hide Square, Turn, Inside;
    forall v | v in Solutions(1, n)
      ensures Turn(v) in Solutions(1, n) && Turn(Turn(v)) == v
    {
      Solution(v, 1, n);
      AlwaysInside(v, n);
      TurnSolves(v, n);
      TurnBack(v);
      Solution(Turn(v), 1, n);
    }
  }

  lemma TurnFixes(v: Mill)
    requires v.x > 0 && v.y > 0 && v.z > 0 && Inside(v)
    ensures Turn(v) == v <==> v.x == v.y
  {
  }

  function SumOf(v: Mill): (nat, nat)
  {
    (if v.y > 0 then v.y else 0, if v.x > 0 then v.x else 0)
  }

  function MillOfSum(p: (nat, nat)): Mill {
    Mill(p.1, p.0, p.0)
  }

  /** The solutions that swapping does not change are the representations. */
  lemma SwapFixed(n: nat)
    ensures |Fixed(Solutions(1, n), Swap)| == |Sums(4, n)|
  {
    var fixed := Fixed(Solutions(1, n), Swap);
    forall v | v in fixed
      ensures SumOf(v) in Sums(4, n) && MillOfSum(SumOf(v)) == v
    {
      Solution(v, 1, n);
      InSums(4, n, v.y, v.x);
    }
    forall p | p in Sums(4, n)
      ensures MillOfSum(p) in fixed && SumOf(MillOfSum(p)) == p
    {
      InSums(4, n, p.0, p.1);
      Solution(MillOfSum(p), 1, n);
    }
    MatchedSize(fixed, Sums(4, n), SumOf, MillOfSum);
  }

  function PairOf(v: Mill): (int, int) {
    (v.x, v.x + 4 * v.z)
  }

  function MillOfPair(p: (int, int)): Mill {
    Mill(p.0, p.0, (p.1 - p.0) / 4)
  }

  lemma OneSummandOut(k: int, p: int, r: int, w: int)
    ensures (k * p + r) * w == k * (p * w) + r * w
  {
  }

  lemma ProductModuloFour(u: int, w: int)
    ensures (u * w) % 4 == ((u % 4) * (w % 4)) % 4
  {
    var p, q, r, t := u / 4, w / 4, u % 4, w % 4;
    OneSummandOut(4, p, r, w);
    OneSummandOut(4, q, t, r);
    var s := t * r;
    assert s == 4 * (s / 4) + s % 4;
    ModUnique(u * w, 4, p * w + q * r + s / 4, s % 4);
  }

  /** Factors of a number that leaves one modulo four differ by a multiple of four. */
  lemma SameModuloFour(u: int, w: int, n: nat)
    requires u * w == n && n % 4 == 1
    ensures (w - u) % 4 == 0
  {
    ProductModuloFour(u, w);
    SmallRemainders(u % 4, w % 4);
    EqualRemainders(u, w);
  }

  lemma EqualRemainders(u: int, w: int)
    requires u % 4 == w % 4
    ensures (w - u) % 4 == 0
  {
    assert u == 4 * (u / 4) + u % 4 && w == 4 * (w / 4) + w % 4;
    ModUnique(w - u, 4, w / 4 - u / 4, 0);
  }

  lemma OddModulo(n: int)
    requires n % 4 == 1 || n % 4 == 3
    ensures n % 2 == 1
  {
    assert n == 4 * (n / 4) + n % 4;
    ModUnique(n, 2, 2 * (n / 4) + (n % 4) / 2, 1);
  }

  lemma SmallRemainders(r: nat, t: nat)
    requires r < 4 && t < 4
    ensures (r * t) % 4 == 1 ==> r == t && r % 2 == 1
    ensures (r * t) % 4 == 3 ==> r + t == 4 && r % 2 == 1
  {
    if r == 0 {
    } else if r == 1 {
    } else if r == 2 {
    } else {
    }
  }

  lemma PairOfFixed(v: Mill, n: nat)
    requires n % 2 == 1 && !Square(n) && v in Solutions(1, n)
    ensures Turn(v) == v ==> PairOf(v) in Pairs(n) && MillOfPair(PairOf(v)) == v
  {
    hide Square, Turn, Pairs, Solutions;
    Solution(v, 1, n);
    AlwaysInside(v, n);
    TurnFixes(v);
    Expand(1, 0, 0, 1, 0, 4, v.x, v.x, v.z);
    Pair(v.x, v.x + 4 * v.z, n);
  }

  lemma FixedOfPair(p: (int, int), n: nat)
    requires n % 4 == 1 && !Square(n) && p in Pairs(n)
    ensures var v := MillOfPair(p); v in Solutions(1, n) && Turn(v) == v && PairOf(v) == p
  {
    hide Square, Turn, Pairs, Solutions;
    Pair(p.0, p.1, n);
    SameModuloFour(p.0, p.1, n);
    OddModulo(n);
    var v := MillOfPair(p);
    assert p.1 == v.x + 4 * v.z;
    Expand(1, 0, 0, 1, 0, 4, v.x, v.x, v.z);
    Solution(v, 1, n);
    AlwaysInside(v, n);
    TurnFixes(v);
  }

  lemma TurnMatches(n: nat)
    requires n % 4 == 1 && !Square(n)
    ensures Matched(Fixed(Solutions(1, n), Turn), Pairs(n), PairOf, MillOfPair)
  {
    hide Square, Turn, Pairs, Solutions, PairOf, MillOfPair;
    OddModulo(n);
    var fixed := Fixed(Solutions(1, n), Turn);
    forall v | v in fixed
      ensures PairOf(v) in Pairs(n) && MillOfPair(PairOf(v)) == v
    {
      PairOfFixed(v, n);
    }
    forall p | p in Pairs(n)
      ensures MillOfPair(p) in fixed && PairOf(MillOfPair(p)) == p
    {
      FixedOfPair(p, n);
    }
  }

  /** The solutions that turning does not change are the products. */
  lemma TurnFixed(n: nat)
    requires n % 4 == 1 && !Square(n)
    ensures |Fixed(Solutions(1, n), Turn)| == |Pairs(n)|
  {
    hide Square, Pairs, Solutions, Fixed, Matched;
    TurnMatches(n);
    MatchedSize(Fixed(Solutions(1, n), Turn), Pairs(n), PairOf, MillOfPair);
  }

  /** A number that leaves one modulo four has as many representations by `4 * x * x + y * y` as products, up to twos. */
  lemma FourSquares(n: nat)
    requires n % 4 == 1 && !Square(n)
    ensures |Sums(4, n)| % 2 == |Pairs(n)| % 2
  {
    hide Square, Solutions, Sums, Pairs, Fixed, Involution, Turn, Swap;
    OddModulo(n);
    SwapIsInvolution(1, n);
    TurnIsInvolution(n);
    SwapFixed(n);
    TurnFixed(n);
    SameParity(Solutions(1, n), Swap, Turn, |Sums(4, n)|, |Pairs(n)|);
  }

  // ---------- Numbers that leave three modulo four ----------

  /**
   A step across a hexagon: the linear forms `-z`, `y` and the four that are compared with zero change their sign twice
   around it, between the first two and at the place this is looked for.
   */
  function Cross(v: Mill): Mill {
    var x, y, z := v.x, v.y, v.z;
    if 3 * y - 3 * x - z < 0 then Mill(x - 2 * y, 3 * x + z - 3 * y, y)
    else if 4 * y - 6 * x - 3 * z < 0 then Mill(5 * x + 2 * z - 4 * y, 6 * x + 3 * z - 4 * y, 3 * y - 3 * x - z)
    else if 3 * y - 6 * x - 4 * z < 0 then Mill(7 * x + 4 * z - 4 * y, 6 * x + 4 * z - 3 * y, 4 * y - 6 * x - 3 * z)
    else if y - 3 * x - 3 * z < 0 then Mill(5 * x + 4 * z - 2 * y, 3 * x + 3 * z - y, 3 * y - 6 * x - 4 * z)
    else Mill(x + 2 * z, z, y - 3 * x - 3 * z)
  }

  function Upright(v: Mill): Mill {
    if v.x > 0 then v else Mill(-v.x, v.z, v.y)
  }

  function Walk(v: Mill): Mill {
    Upright(Cross(v))
  }

  /** One of the forms is zero. */
  predicate OnBorder(v: Mill) {
    var x, y, z := v.x, v.y, v.z;
    3 * y - 3 * x - z == 0 || 4 * y - 6 * x - 3 * z == 0 || 3 * y - 6 * x - 4 * z == 0 || y - 3 * x - 3 * z == 0
  }

  /** No form is zero. */
  predicate Between(v: Mill) {
    !OnBorder(v) && Cross(v).x != 0
  }

  lemma CrossSolves(v: Mill, n: nat)
    requires Solves(v, 3, n)
    ensures var w := Cross(v); 3 * (w.x * w.x) + 4 * (w.y * w.z) == n
  {
    if 4 * v.y - 6 * v.x - 3 * v.z < 0 {
      EarlyCrossSolves(v, n);
    } else if 3 * v.y - 6 * v.x - 4 * v.z < 0 {
      MiddleCrossSolves(v, n);
    } else if v.y - 3 * v.x - 3 * v.z < 0 {
      LateCrossSolves(v, n);
    } else {
      LastCrossSolves(v, n);
    }
  }

  /** The product of two numbers that are given as linear forms. */
  lemma ProductOfForms(v: Mill, a: int, b: int, i: int, j: int, k: int, l: int, m: int, o: int)
    requires a == i * v.x + j * v.y + k * v.z && b == l * v.x + m * v.y + o * v.z
    ensures a * b == (i * l) * (v.x * v.x) + (i * m + j * l) * (v.x * v.y) + (i * o + k * l) * (v.x * v.z)
                   + (j * m) * (v.y * v.y) + (j * o + k * m) * (v.y * v.z) + (k * o) * (v.z * v.z)
  {
    Expand(i, j, k, l, m, o, v.x, v.y, v.z);
  }

  lemma EarlyCrossSolves(v: Mill, n: nat)
    requires Solves(v, 3, n) && 4 * v.y - 6 * v.x - 3 * v.z < 0
    ensures var w := Cross(v); 3 * (w.x * w.x) + 4 * (w.y * w.z) == n
  {
    var w := Cross(v);
    if 3 * v.y - 3 * v.x - v.z < 0 {
      ProductOfForms(v, w.x, w.x, 1, -2, 0, 1, -2, 0);
      ProductOfForms(v, w.y, w.z, 3, -3, 1, 0, 1, 0);
    } else {
      ProductOfForms(v, w.x, w.x, 5, -4, 2, 5, -4, 2);
      ProductOfForms(v, w.y, w.z, 6, -4, 3, -3, 3, -1);
    }
  }

  lemma MiddleCrossSolves(v: Mill, n: nat)
    requires Solves(v, 3, n) && 4 * v.y - 6 * v.x - 3 * v.z >= 0 && 3 * v.y - 6 * v.x - 4 * v.z < 0
    ensures var w := Cross(v); 3 * (w.x * w.x) + 4 * (w.y * w.z) == n
  {
    var w := Cross(v);
    ProductOfForms(v, w.x, w.x, 7, -4, 4, 7, -4, 4);
    ProductOfForms(v, w.y, w.z, 6, -3, 4, -6, 4, -3);
  }

  lemma LateCrossSolves(v: Mill, n: nat)
    requires Solves(v, 3, n) && 3 * v.y - 6 * v.x - 4 * v.z >= 0 && v.y - 3 * v.x - 3 * v.z < 0
    ensures var w := Cross(v); 3 * (w.x * w.x) + 4 * (w.y * w.z) == n
  {
    var w := Cross(v);
    ProductOfForms(v, w.x, w.x, 5, -2, 4, 5, -2, 4);
    ProductOfForms(v, w.y, w.z, 3, -1, 3, -6, 3, -4);
  }

  lemma LastCrossSolves(v: Mill, n: nat)
    requires Solves(v, 3, n) && v.y - 3 * v.x - 3 * v.z >= 0
    ensures var w := Cross(v); 3 * (w.x * w.x) + 4 * (w.y * w.z) == n
  {
    var w := Cross(v);
    assert w == Mill(v.x + 2 * v.z, v.z, v.y - 3 * v.x - 3 * v.z);
    hide Cross;
    ProductOfForms(v, w.x, w.x, 1, 0, 2, 1, 0, 2);
    ProductOfForms(v, w.y, w.z, 0, 0, 1, -3, 1, -3);
  }

  lemma CrossPositive(v: Mill)
    requires v.x > 0 && v.y > 0 && v.z > 0 && Between(v)
    ensures Cross(v).x != 0 && Cross(v).y > 0 && Cross(v).z > 0
  {
  }

  lemma UprightSolves(w: Mill, n: nat)
    requires w.x != 0 && w.y > 0 && w.z > 0 && 3 * (w.x * w.x) + 4 * (w.y * w.z) == n
    ensures Solves(Upright(w), 3, n)
  {
    assert (-w.x) * (-w.x) == w.x * w.x;
    assert w.y * w.z == w.z * w.y;
  }

  lemma WalkSolves(v: Mill, n: nat)
    requires Solves(v, 3, n) && Between(v)
    ensures Solves(Walk(v), 3, n)
  {
    hide Cross, Upright, Between;
    CrossSolves(v, n);
    CrossPositive(v);
    UprightSolves(Cross(v), n);
  }

  lemma WalkBack(v: Mill)
    requires v.x > 0 && v.y > 0 && v.z > 0 && Between(v)
    ensures Walk(Walk(v)) == v
  {
    if 4 * v.y - 6 * v.x - 3 * v.z < 0 {
      WalkBackEarly(v);
    } else {
      WalkBackLate(v);
    }
  }

  lemma WalkBackEarly(v: Mill)
    requires v.x > 0 && v.y > 0 && v.z > 0 && Between(v) && 4 * v.y - 6 * v.x - 3 * v.z < 0
    ensures Walk(Walk(v)) == v
  {
  }

  lemma WalkBackLate(v: Mill)
    requires v.x > 0 && v.y > 0 && v.z > 0 && Between(v) && 4 * v.y - 6 * v.x - 3 * v.z > 0
    ensures Walk(Walk(v)) == v
  {
  }

  lemma ThreeOut(k: int, z: int)
    ensures (3 * k) * z == 3 * (k * z) && z * (3 * k) == 3 * (k * z)
  {
  }

  lemma ThreeDivides(v: Mill, n: nat, k: int)
    requires Solves(v, 3, n) && 4 * (v.y * v.z) == 3 * k
    ensures n % 3 == 0
  {
  }

  /** On a border the number would be a multiple of three. */
  lemma BorderDivides(v: Mill, n: nat)
    requires Solves(v, 3, n) && OnBorder(v)
    ensures n % 3 == 0
  {
    hide Solves;
    var x, y, z := v.x, v.y, v.z;
    if z == 3 * (y - x) {
      ThreeOut(y - x, y);
      ThreeDivides(v, n, 4 * ((y - x) * y));
    } else if 4 * y == 3 * (2 * x + z) {
      ThreeOut(2 * x + z, z);
      OneSummandOut(4, y, 0, z);
      ThreeDivides(v, n, (2 * x + z) * z);
    } else if 3 * y == 6 * x + 4 * z {
      var t := z / 3;
      assert z == 3 * t;
      ThreeOut(t, y);
      ThreeDivides(v, n, 4 * (t * y));
    } else {
      ThreeOut(x + z, z);
      ThreeDivides(v, n, 4 * ((x + z) * z));
    }
  }

  lemma AlwaysBetween(v: Mill, n: nat)
    requires Solves(v, 3, n) && n % 2 == 1 && n % 3 != 0
    ensures Between(v)
  {
    Odd(v, n);
    if OnBorder(v) {
      BorderDivides(v, n);
    }
    OddCross(v);
  }

  lemma OddCross(v: Mill)
    requires v.x % 2 == 1
    ensures Cross(v).x != 0
  {
  }

  lemma Odd(v: Mill, n: nat)
    requires Solves(v, 3, n) && n % 2 == 1
    ensures v.x % 2 == 1
  {
    var k := v.x / 2;
    if v.x % 2 == 0 {
      OneSummandOut(2, k, 0, v.x);
      ModUnique(n, 2, 3 * (k * v.x) + 2 * (v.y * v.z), 0);
    }
  }

  lemma WalkIsInvolution(n: nat)
    requires n % 2 == 1 && n % 3 != 0
    ensures Involution(Solutions(3, n), Walk)
  {
    hide Walk, Between, Solutions;
    forall v | v in Solutions(3, n)
      ensures Walk(v) in Solutions(3, n) && Walk(Walk(v)) == v
    {
      Solution(v, 3, n);
      AlwaysBetween(v, n);
      WalkSolves(v, n);
      WalkBack(v);
      Solution(Walk(v), 3, n);
    }
  }

  /** Solutions of two kinds that walking does not change: products, and differences of squares. */
  predicate IsProduct(v: Mill) {
    v.x == v.y || v.y == 2 * v.x + v.z
  }

  predicate IsDifference(v: Mill) {
    v.z == 2 * v.y - 3 * v.x || v.y == 3 * v.x + 2 * v.z
  }

  lemma WalkFixes(v: Mill)
    requires v.x > 0 && v.y > 0 && v.z > 0 && v.x % 2 == 1 && Between(v)
    ensures Walk(v) == v <==> IsProduct(v) || IsDifference(v)
    ensures !(IsProduct(v) && IsDifference(v))
  {
  }

  function FactorsOf(v: Mill): (int, int) {
    if v.x == v.y then (v.x, 3 * v.x + 4 * v.z) else (v.x + 2 * v.z, 3 * v.x + 2 * v.z)
  }

  function MillOfFactors(p: (int, int)): Mill {
    if p.1 > 3 * p.0 then Mill(p.0, p.0, (p.1 - 3 * p.0) / 4)
    else var x, z := (p.1 - p.0) / 2, (3 * p.0 - p.1) / 4; Mill(x, 2 * x + z, z)
  }

  /** Factors of a number that leaves three modulo four. */
  lemma OppositeModuloFour(u: int, w: int, n: nat)
    requires u * w == n && n % 4 == 3
    ensures (w + u) % 4 == 0 && u % 2 == 1 && w % 2 == 1
  {
    ProductModuloFour(u, w);
    SmallRemainders(u % 4, w % 4);
    OppositeRemainders(u, w);
  }

  lemma OppositeRemainders(u: int, w: int)
    requires u % 4 + w % 4 == 4 && (u % 4) % 2 == 1
    ensures (w + u) % 4 == 0 && u % 2 == 1 && w % 2 == 1
  {
    var p, q, r, t := u / 4, w / 4, u % 4, w % 4;
    assert u == 4 * p + r && w == 4 * q + t;
    ModUnique(w + u, 4, p + q + 1, 0);
    if r == 1 {
      ModUnique(u, 2, 2 * p, 1);
      ModUnique(w, 2, 2 * q + 1, 1);
    } else {
      ModUnique(u, 2, 2 * p + 1, 1);
      ModUnique(w, 2, 2 * q, 1);
    }
  }

  lemma FactorsSolve(x: int, y: int, z: int)
    ensures x * (3 * x + 4 * z) == 3 * (x * x) + 4 * (x * z)
    ensures (x + 2 * z) * (3 * x + 2 * z) == 3 * (x * x) + 4 * ((2 * x + z) * z)
  {
    Expand(1, 0, 0, 3, 0, 4, x, y, z);
    Expand(1, 0, 2, 3, 0, 2, x, y, z);
    Expand(2, 0, 1, 0, 0, 1, x, y, z);
  }

  lemma FactorsOfFixed(v: Mill, n: nat)
    requires n % 2 == 1 && n % 3 != 0 && v in Solutions(3, n) && IsProduct(v)
    ensures FactorsOf(v) in Pairs(n) && MillOfFactors(FactorsOf(v)) == v
  {
    hide Pairs, Solutions;
    Solution(v, 3, n);
    FactorsSolve(v.x, v.y, v.z);
    Pair(FactorsOf(v).0, FactorsOf(v).1, n);
  }

  lemma NotThrice(u: int, n: nat)
    requires u * (3 * u) == n
    ensures n % 3 == 0
  {
    ThreeOut(u, u);
  }

  lemma Quotient(a: int, m: int, q: int)
    requires m > 0 && a == m * q
    ensures a / m == q && a % m == 0
  {
    ModUnique(a, m, q, 0);
    var d := q - a / m;
    assert a == m * (a / m);
    assert d * m == 0;
    AtLeastOnce(d, m);
  }

  lemma PartsOfFactors(p: (int, int))
    requires 0 < p.0 < p.1 && p.1 != 3 * p.0 && (p.1 + p.0) % 4 == 0
    ensures var v := MillOfFactors(p);
            && v.x > 0 && v.y > 0 && v.z > 0 && IsProduct(v) && FactorsOf(v) == p
            && if p.1 > 3 * p.0 then p == (v.x, 3 * v.x + 4 * v.z) && v.y == v.x
               else p == (v.x + 2 * v.z, 3 * v.x + 2 * v.z) && v.y == 2 * v.x + v.z
  {
    var u, k := p.0, (p.1 + p.0) / 4;
    assert p.1 == 4 * k - u;
    Quotient(p.1 - 3 * u, 4, k - u);
    Quotient(p.1 - u, 2, 2 * k - u);
    Quotient(3 * u - p.1, 4, u - k);
  }

  lemma FixedOfFactors(p: (int, int), n: nat)
    requires n % 4 == 3 && n % 3 != 0 && p in Pairs(n)
    ensures var v := MillOfFactors(p); v in Solutions(3, n) && IsProduct(v) && FactorsOf(v) == p
  {
    hide Pairs, Solutions, MillOfFactors, IsProduct, FactorsOf;
    Pair(p.0, p.1, n);
    OppositeModuloFour(p.0, p.1, n);
    if p.1 == 3 * p.0 {
      NotThrice(p.0, n);
    }
    PartsOfFactors(p);
    var v := MillOfFactors(p);
    FactorsSolve(v.x, v.y, v.z);
    Solution(v, 3, n);
  }

  /** The representations by `3 * x * x - y * y` with `x` above `y`. */
  ghost function Differences(n: nat): set<(nat, nat)> {
    set x: nat, y: nat | 1 <= x <= n && 1 <= y <= n && x > y && 3 * (x * x) - y * y == n :: (x, y)
  }

  lemma InDifferences(n: nat, x: nat, y: nat)
    ensures (x, y) in Differences(n) <==> x > y > 0 && 3 * (x * x) - y * y == n
  {
    if x > y > 0 && 3 * (x * x) - y * y == n {
      SmallProduct(x, x);
      SmallProduct(x, x - y);
      SmallProduct(x - y, y);
      assert x * x == x * (x - y) + (x - y) * y + y * y;
    }
  }

  function DifferenceOf(v: Mill): (nat, nat) {
    var (x, y) := if v.y == 3 * v.x + 2 * v.z then (v.x + 2 * v.z, 2 * v.z) else (v.x + v.z, v.z);
    (if x > 0 then x else 0, if y > 0 then y else 0)
  }

  function MillOfDifference(p: (nat, nat)): Mill {
    var x := p.0 - p.1;
    if p.1 % 2 == 0 then Mill(x, 3 * x + p.1, p.1 / 2) else Mill(x, (3 * x + p.1) / 2, p.1)
  }

  lemma DifferencesSolve(x: int, z: int)
    ensures 3 * ((x + 2 * z) * (x + 2 * z)) - (2 * z) * (2 * z) == 3 * (x * x) + 4 * ((3 * x + 2 * z) * z)
    ensures 3 * ((x + z) * (x + z)) - z * z == 3 * (x * x) + 2 * ((3 * x + z) * z)
  {
    Expand(1, 0, 2, 1, 0, 2, x, 0, z);
    Expand(0, 0, 2, 0, 0, 2, x, 0, z);
    Expand(3, 0, 2, 0, 0, 1, x, 0, z);
    Expand(1, 0, 1, 1, 0, 1, x, 0, z);
    Expand(3, 0, 1, 0, 0, 1, x, 0, z);
  }

  lemma DifferenceBack(v: Mill)
    requires v.x > 0 && v.y > 0 && v.z > 0 && v.x % 2 == 1 && IsDifference(v)
    ensures MillOfDifference(DifferenceOf(v)) == v
  {
    var i := v.x / 2;
    assert v.x == 2 * i + 1;
    if v.y == 3 * v.x + 2 * v.z {
      Quotient(2 * v.z, 2, v.z);
    } else {
      ModUnique(v.z, 2, v.y - 3 * i - 2, 1);
      Quotient(3 * v.x + v.z, 2, v.y);
    }
  }

  lemma DifferenceOfFixed(v: Mill, n: nat)
    requires n % 2 == 1 && v in Solutions(3, n) && IsDifference(v)
    ensures DifferenceOf(v) in Differences(n) && MillOfDifference(DifferenceOf(v)) == v
  {
    hide Differences, Solutions, MillOfDifference;
    Solution(v, 3, n);
    Odd(v, n);
    DifferenceBack(v);
    DifferencesSolve(v.x, v.z);
    if v.y == 3 * v.x + 2 * v.z {
      InDifferences(n, v.x + 2 * v.z, 2 * v.z);
    } else {
      assert 2 * v.y == 3 * v.x + v.z;
      OneSummandOut(2, v.y, 0, v.z);
      InDifferences(n, v.x + v.z, v.z);
    }
  }

  lemma SquareParity(x: int)
    ensures (x * x) % 2 == x % 2
  {
    var i := x / 2;
    OneSummandOut(2, i, x % 2, x);
    if x % 2 == 0 {
      ModUnique(x * x, 2, i * x, 0);
    } else {
      ModUnique(x * x, 2, i * x + i, 1);
    }
  }

  lemma OddOrEven(x: int, y: int, n: nat)
    requires 3 * (x * x) - y * y == n && n % 2 == 1
    ensures x % 2 != y % 2
  {
    SquareParity(x);
    SquareParity(y);
    OneOdd(x * x, y * y, n);
  }

  lemma OneOdd(a: int, b: int, n: int)
    requires 3 * a - b == n && n % 2 == 1
    ensures a % 2 != b % 2
  {
    if a % 2 == b % 2 {
      ModUnique(n, 2, 3 * (a / 2) - b / 2 + a % 2, 0);
    }
  }

  lemma HalvesOfDifference(p: (nat, nat))
    requires p.0 > p.1 > 0 && p.0 % 2 != p.1 % 2
    ensures var v := MillOfDifference(p);
            && v.x > 0 && v.y > 0 && v.z > 0 && IsDifference(v) && DifferenceOf(v) == p && v.x == p.0 - p.1
            && if p.1 % 2 == 0 then v.y == 3 * v.x + 2 * v.z && 2 * v.z == p.1 else 2 * v.y == 3 * v.x + v.z && v.z == p.1
  {
    var x, i, j := p.0 - p.1, p.0 / 2, p.1 / 2;
    if p.1 % 2 == 0 {
      assert p.1 == 2 * j;
    } else {
      assert p.0 == 2 * i && p.1 == 2 * j + 1;
      Quotient(3 * x + p.1, 2, 3 * i - 2 * j - 1);
    }
  }

  lemma FixedOfDifference(p: (nat, nat), n: nat)
    requires n % 2 == 1 && p in Differences(n)
    ensures var v := MillOfDifference(p); v in Solutions(3, n) && IsDifference(v) && DifferenceOf(v) == p
  {
    hide Differences, Solutions, MillOfDifference, DifferenceOf, IsDifference;
    InDifferences(n, p.0, p.1);
    OddOrEven(p.0, p.1, n);
    HalvesOfDifference(p);
    var v := MillOfDifference(p);
    DifferencesSolve(v.x, v.z);
    OneSummandOut(2, v.y, 0, v.z);
    Solution(v, 3, n);
  }

  ghost function Those(s: set<Mill>, p: Mill -> bool): set<Mill> {
    set v | v in s && p(v)
  }

  lemma ProductsMatch(n: nat)
    requires n % 4 == 3 && n % 3 != 0
    ensures Matched(Those(Solutions(3, n), IsProduct), Pairs(n), FactorsOf, MillOfFactors)
  {
    hide Solutions, Pairs, IsProduct, FactorsOf, MillOfFactors;
    OddModulo(n);
    forall v | v in Solutions(3, n) && IsProduct(v)
      ensures FactorsOf(v) in Pairs(n) && MillOfFactors(FactorsOf(v)) == v
    {
      FactorsOfFixed(v, n);
    }
    forall p | p in Pairs(n)
      ensures MillOfFactors(p) in Solutions(3, n) && IsProduct(MillOfFactors(p)) && FactorsOf(MillOfFactors(p)) == p
    {
      FixedOfFactors(p, n);
    }
  }

  lemma DifferencesMatch(n: nat)
    requires n % 2 == 1
    ensures Matched(Those(Solutions(3, n), IsDifference), Differences(n), DifferenceOf, MillOfDifference)
  {
    hide Solutions, Differences, IsDifference, DifferenceOf, MillOfDifference;
    forall v | v in Solutions(3, n) && IsDifference(v)
      ensures DifferenceOf(v) in Differences(n) && MillOfDifference(DifferenceOf(v)) == v
    {
      DifferenceOfFixed(v, n);
    }
    forall p | p in Differences(n)
      ensures MillOfDifference(p) in Solutions(3, n) && IsDifference(MillOfDifference(p))
      ensures DifferenceOf(MillOfDifference(p)) == p
    {
      FixedOfDifference(p, n);
    }
  }

  /** What walking does not change are the solutions of the two kinds. */
  lemma TwoKinds(n: nat)
    requires n % 2 == 1 && n % 3 != 0
    ensures var s := Solutions(3, n);
            |Fixed(s, Walk)| == |Those(s, IsProduct)| + |Those(s, IsDifference)|
  {
    hide Solutions, Walk, IsProduct, IsDifference;
    var s := Solutions(3, n);
    forall v | v in s
      ensures Walk(v) == v <==> IsProduct(v) || IsDifference(v)
      ensures !(IsProduct(v) && IsDifference(v))
    {
      SolutionWalks(v, n);
    }
    assert Fixed(s, Walk) == Those(s, IsProduct) + Those(s, IsDifference);
    assert Those(s, IsProduct) !! Those(s, IsDifference);
  }

  lemma WalkFixed(n: nat)
    requires n % 4 == 3 && n % 3 != 0
    ensures |Fixed(Solutions(3, n), Walk)| == |Pairs(n)| + |Differences(n)|
  {
    hide Solutions, Pairs, Differences, Fixed, Those, Matched;
    OddModulo(n);
    TwoKinds(n);
    ProductsMatch(n);
    DifferencesMatch(n);
    MatchedSize(Those(Solutions(3, n), IsProduct), Pairs(n), FactorsOf, MillOfFactors);
    MatchedSize(Those(Solutions(3, n), IsDifference), Differences(n), DifferenceOf, MillOfDifference);
  }

  lemma SolutionWalks(v: Mill, n: nat)
    requires n % 2 == 1 && n % 3 != 0 && v in Solutions(3, n)
    ensures Walk(v) == v <==> IsProduct(v) || IsDifference(v)
    ensures !(IsProduct(v) && IsDifference(v))
  {
    hide Solutions, Walk, Between, IsProduct, IsDifference;
    Solution(v, 3, n);
    AlwaysBetween(v, n);
    Odd(v, n);
    WalkFixes(v);
  }

  // ---------- The representations ----------

  function EvenSumOf(v: Mill): (nat, nat) {
    (if v.x > 0 then v.x else 0, if v.y > 0 then 2 * v.y else 0)
  }

  function MillOfEvenSum(p: (nat, nat)): Mill {
    Mill(p.0, p.1 / 2, p.1 / 2)
  }

  lemma EvenSummand(x: nat, y: nat, n: nat)
    requires 3 * (x * x) + y * y == n && n % 4 == 3
    ensures y % 2 == 0
  {
    ProductModuloFour(x, x);
    ProductModuloFour(y, y);
    SquareModuloFour(x % 4);
    SquareModuloFour(y % 4);
    EvenRest(x * x, y * y, n);
    SquareParity(y);
  }

  lemma SquareModuloFour(r: nat)
    requires r < 4
    ensures (r * r) % 4 <= 1
  {
    if r == 0 {
    } else if r == 1 {
    } else if r == 2 {
    } else {
    }
  }

  lemma EvenRest(a: int, b: int, n: int)
    requires 3 * a + b == n && n % 4 == 3 && a % 4 <= 1 && b % 4 <= 1
    ensures b % 2 == 0
  {
    var p, q, r, t := a / 4, b / 4, a % 4, b % 4;
    assert a == 4 * p + r && b == 4 * q + t;
    if t == 0 {
      ModUnique(b, 2, 2 * q, 0);
    } else if r == 0 {
      ModUnique(n, 4, 3 * p + q, 1);
    } else {
      ModUnique(n, 4, 3 * p + q + 1, 0);
    }
  }

  lemma EvenSquare(y: int, k: int)
    requires y == 2 * k
    ensures y * y == 4 * (k * k)
  {
    OneSummandOut(2, k, 0, y);
    OneSummandOut(2, k, 0, k);
  }

  lemma EvenSwapFixed(n: nat)
    requires n % 4 == 3
    ensures |Fixed(Solutions(3, n), Swap)| == |Sums(3, n)|
  {
    hide Solutions, Sums;
    var fixed := Fixed(Solutions(3, n), Swap);
    forall v | v in fixed
      ensures EvenSumOf(v) in Sums(3, n) && MillOfEvenSum(EvenSumOf(v)) == v
    {
      Solution(v, 3, n);
      EvenSquare(2 * v.y, v.y);
      InSums(3, n, v.x, 2 * v.y);
    }
    forall p | p in Sums(3, n)
      ensures MillOfEvenSum(p) in fixed && EvenSumOf(MillOfEvenSum(p)) == p
    {
      InSums(3, n, p.0, p.1);
      EvenSummand(p.0, p.1, n);
      EvenSquare(p.1, p.1 / 2);
      Solution(MillOfEvenSum(p), 3, n);
    }
    MatchedSize(fixed, Sums(3, n), EvenSumOf, MillOfEvenSum);
  }

  lemma SquareModuloThree(y: int)
    ensures (y * y) % 3 != 2
  {
    var j, q := y / 3, y % 3;
    OneSummandOut(3, j, q, y);
    OneSummandOut(3, j, q, q);
    var k := j * y + j * q;
    if q == 0 {
      ModUnique(y * y, 3, k, 0);
    } else if q == 1 {
      ModUnique(y * y, 3, k, 1);
    } else {
      ModUnique(y * y, 3, k + 1, 1);
    }
  }

  lemma NoSums(n: nat)
    requires n % 3 == 2
    ensures Sums(3, n) == {}
  {
    hide Sums;
    forall p | p in Sums(3, n)
      ensures false
    {
      InSums(3, n, p.0, p.1);
      SquareModuloThree(p.1);
      SumModuloThree(p.0 * p.0, p.1 * p.1, n);
    }
  }

  lemma NoDifferences(n: nat)
    requires n % 3 == 1
    ensures Differences(n) == {}
  {
    hide Differences;
    forall p | p in Differences(n)
      ensures false
    {
      InDifferences(n, p.0, p.1);
      SquareModuloThree(p.1);
      DifferenceModuloThree(p.0 * p.0, p.1 * p.1, n);
    }
  }

  lemma DifferenceModuloThree(a: int, b: int, n: int)
    requires 3 * a - b == n && n % 3 == 1
    ensures b % 3 == 2
  {
    ModUnique(b, 3, a - n / 3 - 1, 2);
  }

  lemma SumModuloThree(a: int, b: int, n: int)
    requires 3 * a + b == n && n % 3 == 2
    ensures b % 3 == 2
  {
    ModUnique(b, 3, n / 3 - a, 2);
  }

  /** Numbers that leave seven or eleven modulo twelve, and the form that belongs to them. */
  lemma ThreeSquares(n: nat)
    requires n % 4 == 3 && n % 3 != 0
    ensures if n % 3 == 1 then |Sums(3, n)| % 2 == |Pairs(n)| % 2 else |Differences(n)| % 2 == |Pairs(n)| % 2
  {
    hide Solutions, Sums, Pairs, Differences, Fixed, Involution, Walk, Swap;
    OddModulo(n);
    SwapIsInvolution(3, n);
    WalkIsInvolution(n);
    EvenSwapFixed(n);
    WalkFixed(n);
    SameParity(Solutions(3, n), Swap, Walk, |Sums(3, n)|, |Pairs(n)| + |Differences(n)|);
    if n % 3 == 1 {
      NoDifferences(n);
    } else {
      NoSums(n);
      EvenSum(|Pairs(n)|, |Differences(n)|);
    }
  }

  lemma EvenSum(b: nat, c: nat)
    requires (b + c) % 2 == 0
    ensures b % 2 == c % 2
  {
    var k := (b + c) / 2;
    ModUnique(b, 2, k - c / 2 - c % 2, c % 2);
  }
}

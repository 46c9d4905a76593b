/**
 Expressions that lib/Support/SCEVUtils.cpp gets wrong with builders that meet all expectations: sums inside products in
 `divide` and `findGCD`, and a product of two recurrences of one loop in `computeSCEVAddRec`.
 */
module FoldingLimits {
  import opened Arithmetic
  import opened DivisionTermination
  import opened FoldingBuilders
  import opened ScalarEvolution
  import opened ScevAddRec
  import opened ScevDivision
  import opened GcdSearch
  import opened ScevGcd
  import opened ValueDivisibility
  import opened WordArithmetic
  import opened Wrappers

  // ---------- Products whose factors are not divided ----------

  const Y := Unknown(0)
  const Z := Unknown(1)

  /** The difference between the product and the constant that it is for zero. */
  function Shifted(c: int, p: SCEV): SCEV {
    Add([Constant(-c), p])
  }

  lemma ByUnknownGivesUp(se: Builders, n: SCEV, d: SCEV, fuel: nat)
    requires n.Mul? && d.Unknown? && se.rewrite(n, d.id, Zero) != Zero
    requires SizeOf(se.getMinus(n, se.rewrite(n, d.id, Zero))) > SizeOf(n)
    ensures DivideByUnknown(se, n, d, fuel) == Some(DivisionResult(Zero, se.rewrite(n, d.id, Zero)))
  {
  }

  /** `y` does not divide the expression without a remainder. */
  predicate Remains(se: Builders, e: SCEV, fuel: nat) {
    var r := Divide(se, e, Y, fuel);
    r.Some? && r.value.remainder != Zero
  }

  lemma FactorsNotDivided(se: Builders, a: SCEV, b: SCEV, fuel: nat)
    requires Remains(se, a, fuel) && Remains(se, b, fuel)
    ensures Divide(se, Mul([a, b]), Y, fuel) == DivideByUnknown(se, Mul([a, b]), Y, fuel)
  {
    hide DivideByUnknown, Divide;
    var n := Mul([a, b]);
    assert [] + [a] == [a];
    assert DivideFactor(se, n, Y, 0, fuel) == Some((false, []));
    assert DivideFactor(se, n, Y, 1, fuel) == Some((false, [a]));
    assert DivideFactor(se, n, Y, 2, fuel) == Some((false, [a] + [b]));
    assert DivideProduct(se, n, Y, fuel) == DivideByUnknown(se, n, Y, fuel);
    ProductDivision(se, n, Y, fuel);
  }

  lemma TwoConstants(x: int, y: int)
    ensures ConstantSum([Constant(x), Constant(y)]) == x + y && ConstantProduct([Constant(x), Constant(y)]) == x * y
    ensures NonConstants([Constant(x), Constant(y)]) == []
  {
    var a, b := Constant(x), Constant(y);
    assert [a, b][1..] == [b] && [b][1..] == [];
    assert ConstantSum([b]) == y && ConstantProduct([b]) == y && NonConstants([b]) == [];
  }

  lemma NoConstants(a: SCEV, b: SCEV)
    requires !a.Constant? && !b.Constant?
    ensures ConstantSum([a, b]) == 0 && ConstantProduct([a, b]) == 1 && NonConstants([a, b]) == [a, b]
  {
    assert [a, b][1..] == [b] && [b][1..] == [];
    assert NonConstants([b]) == [b] + NonConstants([]);
    assert NonConstants([a, b]) == [a] + NonConstants([b]);
    assert ConstantProduct([b]) == 1 && ConstantSum([b]) == 0;
  }

  lemma OneConstant(x: int, b: SCEV)
    requires !b.Constant?
    ensures ConstantSum([Constant(x), b]) == ConstantProduct([Constant(x), b]) == x && NonConstants([Constant(x), b]) == [b]
    ensures ConstantSum([b, Constant(x)]) == ConstantProduct([b, Constant(x)]) == x && NonConstants([b, Constant(x)]) == [b]
  {
    var a := Constant(x);
    assert [a, b][1..] == [b] && [b, a][1..] == [a] && [b][1..] == [] && [a][1..] == [];
    assert ConstantSum([b]) == 0 && ConstantProduct([b]) == 1 && NonConstants([b]) == [b];
    assert ConstantSum([a]) == x && ConstantProduct([a]) == x && NonConstants([a]) == [];
  }

  lemma ConstantsFold(x: int, y: int, half: Half)
    ensures FoldAdd([Constant(x), Constant(y)], half) == Constant(Signed(x + y, half))
    ensures FoldMul([Constant(x), Constant(y)], half) == Constant(Signed(x * y, half))
  {
    hide Signed, ConstantSum, ConstantProduct, NonConstants;
    TwoConstants(x, y);
  }

  lemma ConstantDifference(half: Half, p: SCEV, c: int)
    requires p.Mul? && |p.ops| == 2 && p.ops[0] != Constant(-c) && c != 0 && -(half as int) < c <= half
    ensures FoldMinus(p, Constant(c), half) == Shifted(c, p)
  {
    hide Signed, ConstantSum, ConstantProduct, NonConstants;
    ConstantsFold(-1, c, half);
    SignedSmall(-c, half);
    OneConstant(-c, p);
    assert FoldedTerms([p, Constant(-c)], half) == [Constant(-c), p];
    assert CommonFactor(Constant(-c), p) == Shifted(c, p);
  }

  /** The difference has more nodes than the product. */
  lemma BiggerDifference(c: int, p: SCEV)
    ensures SizeOf(Shifted(c, p)) > SizeOf(p)
  {
    var diff := Shifted(c, p);
    assert diff.ops[1] == p;
    assert Nodes(p) <= Nodes(diff);
    NodesAreSmaller(p, diff);
    assert Nodes(p) < Nodes(diff);
    Smaller(Nodes(p), Nodes(diff));
  }

  lemma Smaller<T>(a: set<T>, b: set<T>)
    requires a < b
    ensures |a| < |b|
  {
    assert b == a + (b - a);
    assert b - a != {};
  }

  lemma {:induction false} NodesAreSmaller(n: SCEV, e: SCEV)
    requires n < e
    ensures e !in Nodes(n)
  {
    match n
    case Add(ops) => forall i | 0 <= i < |ops| ensures e !in Nodes(ops[i]) { NodesAreSmaller(ops[i], e); }
    case Mul(ops) => forall i | 0 <= i < |ops| ensures e !in Nodes(ops[i]) { NodesAreSmaller(ops[i], e); }
    case AddRec(ops, _) => forall i | 0 <= i < |ops| ensures e !in Nodes(ops[i]) { NodesAreSmaller(ops[i], e); }
    case Opaque(_, ops) => forall i | 0 <= i < |ops| ensures e !in Nodes(ops[i]) { NodesAreSmaller(ops[i], e); }
    case Cast(_, op) => NodesAreSmaller(op, e);
    case _ =>
  }

  /**
   A product that zero for `y` makes the constant `c`, and that has factors `y` does not divide, has the remainder `c`;
   without `c` it seems to be zero times `y`.
   */
  lemma RemainderCancels(half: Half, operations: Operations, a: SCEV, b: SCEV, c: int, fuel: nat)
    requires a != Constant(-c) && c != 0 && -(half as int) < c <= half && FoldRewrite(Mul([a, b]), 0, Zero, half) == Constant(c)
    requires var se := Folding(half, operations); Remains(se, a, fuel) && Remains(se, b, fuel)
    ensures var se, p := Folding(half, operations), Mul([a, b]);
            && Divide(se, p, Y, fuel) == Some(DivisionResult(Zero, Constant(c)))
            && Divide(se, Shifted(c, p), Y, fuel) == Some(DivisionResult(Zero, Zero))
  {
    hide DivideByUnknown, Divide, FoldRewrite, FoldMinus, SizeOf, Remains, FoldAdd;
    var se, p := Folding(half, operations), Mul([a, b]);
    FactorsNotDivided(se, a, b, fuel);
    ConstantDifference(half, p, c);
    BiggerDifference(c, p);
    ByUnknownGivesUp(se, p, Y, fuel);
    ConstantRemains(se, -c, Y, fuel);
    SumDivided(se, Constant(-c), p, Y, CannotDivide(Constant(-c)), DivisionResult(Zero, Constant(c)), fuel);
    ConstantsFold(0, 0, half);
    ConstantsFold(-c, c, half);
    SignedSmall(0, half);
  }

  lemma ConstantRemains(se: Builders, c: int, d: SCEV, fuel: nat)
    requires c != 0 && d.Unknown?
    ensures Divide(se, Constant(c), d, fuel) == Some(CannotDivide(Constant(c)))
  {
  }

  lemma DivideSame(se: Builders, d: SCEV, fuel: nat)
    requires Proper(d)
    ensures Divide(se, d, d, fuel) == Some(DivisionResult(One, Zero))
  {
  }

  /** The division of the sum of two terms. */
  lemma SumDivided(se: Builders, a: SCEV, b: SCEV, d: SCEV, r: DivisionResult, s: DivisionResult, fuel: nat)
    requires d.Unknown? && Divide(se, a, d, fuel) == Some(r) && Divide(se, b, d, fuel) == Some(s)
    ensures Divide(se, Add([a, b]), d, fuel) ==
              Some(DivisionResult(se.getAdd([r.quotient, s.quotient]), se.getAdd([r.remainder, s.remainder])))
  {
    var n := Add([a, b]);
    assert DivideTerms(se, n, d, 0, fuel) == Some(([], []));
    assert [] + [r.quotient] == [r.quotient] && [] + [r.remainder] == [r.remainder];
    assert DivideTerms(se, n, d, 1, fuel) == Some(([r.quotient], [r.remainder]));
    assert [r.quotient] + [s.quotient] == [r.quotient, s.quotient];
    assert [r.remainder] + [s.remainder] == [r.remainder, s.remainder];
    assert DivideTerms(se, n, d, 2, fuel) == Some(([r.quotient, s.quotient], [r.remainder, s.remainder]));
    assert Divide(se, n, d, fuel) == Visit(se, n, d, fuel);
  }

  // ---------- A product of sums ----------

  /** `1 + y` */
  const Next := Add([One, Y])

  /** `(1 + y) * (1 + y)` */
  const Square := Mul([Next, Next])

  /** `-1 + (1 + y) * (1 + y)`, which is `y` times `2 + y` */
  const Gap := Shifted(1, Square)

  lemma NextRemains(half: Half, operations: Operations, fuel: nat)
    requires half > 1
    ensures Remains(Folding(half, operations), Next, fuel)
    ensures FoldRewrite(Next, 0, Zero, half) == One
  {
    hide FoldAdd;
    var se := Folding(half, operations);
    ConstantRemains(se, 1, Y, fuel);
    DivideSame(se, Y, fuel);
    SumDivided(se, One, Y, Y, CannotDivide(One), DivisionResult(One, Zero), fuel);
    ConstantsFold(0, 1, half);
    ConstantsFold(1, 0, half);
    SignedSmall(1, half);
    assert Next.ops[1] == Y && Occurs(0, Y) && Occurs(0, Next);
    RewriteOps(Next, 0, Zero, half);
    assert Rewrites(Next.ops, 0, Zero, half) == [One, Zero];
  }

  lemma SquareRewritten(half: Half, operations: Operations)
    requires half > 1
    ensures FoldRewrite(Square, 0, Zero, half) == One
  {
    hide FoldMul;
    NextRemains(half, operations, 0);
    assert Next.ops[1] == Y && Occurs(0, Y) && Occurs(0, Next);
    assert Square.ops[0] == Next && Occurs(0, Square);
    RewriteOps(Square, 0, Zero, half);
    assert Rewrites(Square.ops, 0, Zero, half) == [One, One];
    ConstantsFold(1, 1, half);
    SignedSmall(1, half);
  }

  lemma GapValue(env: Env)
    ensures Eval(Square, env) == (1 + env.unknown(0)) * (1 + env.unknown(0)) && Eval(Gap, env) == Eval(Square, env) - 1
  {
    PairValue(One, Y, env);
    PairValue(Next, Next, env);
    PairValue(Constant(-1), Square, env);
  }

  lemma GapFormed(se: Builders)
    ensures WellFormed(se, Square) && WellFormed(se, Gap)
  {
    assert WellFormed(se, Next);
    assert WellFormed(se, Square);
  }

  lemma OddIsNoMultiple(x: int, half: Half)
    requires x % 2 == 1
    ensures x % (2 * half) != 0
  {
    var m := 2 * half;
    var k := x / m;
    assert x == m * k + x % m;
    assert m * k == 2 * (half * k);
  }

  /**
   A factor of a product may hide the unknown in a sum: for `(1 + y) * (1 + y)` by `y` the difference to the value for
   zero is not simplified, and the quotient stays zero. Without one, nothing remains of the sum, as if it were zero.
   */
  lemma SumsInProduct(half: Half, operations: Operations, fuel: nat)
    requires half > 1 && OnWords(operations, half)
    ensures var se := Folding(half, operations); Sound(se) && WellFormed(se, Square) && WellFormed(se, Gap)
    ensures var se := Folding(half, operations);
            && Divide(se, Square, Y, fuel) == Some(DivisionResult(Zero, One))
            && !AlwaysExact(se, Square, Y, DivisionResult(Zero, One))
    ensures var se := Folding(half, operations);
            && Divide(se, Gap, Y, fuel) == Some(DivisionResult(Zero, Zero))
            && !AlwaysExact(se, Gap, Y, DivisionResult(Zero, Zero))
  {
    hide Sound, Divide, OnWords, FoldRewrite, Eval, Remains;
    var se := Folding(half, operations);
    FoldingIsSound(half, operations);
    GapFormed(se);
    NextRemains(half, operations, fuel);
    SquareRewritten(half, operations);
    RemainderCancels(half, operations, Next, Next, 1, fuel);
    var env := Env(_ => 1, _ => 0, operations);
    assert Suits(se, env);
    GapValue(env);
    ConstantValue(0, env);
    ConstantValue(1, env);
    assert Eval(Square, env) == 4 && Eval(Gap, env) == 3;
    OddIsNoMultiple(3, half);
    assert !Exact(Square, Y, DivisionResult(Zero, One), env, half);
    assert !Exact(Gap, Y, DivisionResult(Zero, Zero), env, half);
  }

  // ---------- A common factor that is taken out ----------

  const U := Unknown(2)

  /** `2 * u + 2 * u * y + -2 * u`, the first two terms of which are a sum of their own */
  const Terms := Add([Add([Mul([Constant(2), U]), Mul([Constant(2), U, Y])]), Mul([Constant(-2), U])])

  /** `2 * (y + 1)` */
  const Taken := Mul([Constant(2), Add([Y, One])])

  lemma FactorReplaced(half: Half, operations: Operations, c: int, fuel: nat)
    requires c != 0 && -(half as int) <= c < half
    ensures Divide(Folding(half, operations), Mul([Constant(c), U]), U, fuel) == Some(DivisionResult(Constant(c), Zero))
  {
    hide FoldMul, Divide;
    var se, n := Folding(half, operations), Mul([Constant(c), U]);
    ConstantRemains(se, c, U, fuel);
    DivideSame(se, U, fuel);
    assert [] + [Constant(c)] == [Constant(c)] && [Constant(c)] + [One] == [Constant(c), One];
    assert DivideFactor(se, n, U, 0, fuel) == Some((false, []));
    assert DivideFactor(se, n, U, 1, fuel) == Some((false, [Constant(c)]));
    assert DivideFactor(se, n, U, 2, fuel) == Some((true, [Constant(c), One]));
    ProductDivision(se, n, U, fuel);
    ConstantsFold(c, 1, half);
    SignedSmall(c, half);
  }

  lemma MiddleReplaced(half: Half, operations: Operations, fuel: nat)
    requires half > 2
    ensures Divide(Folding(half, operations), Mul([Constant(2), U, Y]), U, fuel) ==
              Some(DivisionResult(Mul([Constant(2), Y]), Zero))
  {
    hide FoldMul, Divide;
    var se, n, two := Folding(half, operations), Mul([Constant(2), U, Y]), Constant(2);
    ConstantRemains(se, 2, U, fuel);
    DivideSame(se, U, fuel);
    assert [] + [two] == [two] && [two] + [One] == [two, One] && [two, One] + [Y] == [two, One, Y];
    assert DivideFactor(se, n, U, 0, fuel) == Some((false, []));
    assert DivideFactor(se, n, U, 1, fuel) == Some((false, [two]));
    assert DivideFactor(se, n, U, 2, fuel) == Some((true, [two, One]));
    assert DivideFactor(se, n, U, 3, fuel) == Some((true, [two, One, Y]));
    ProductDivision(se, n, U, fuel);
    ProductWithOne(half);
  }

  lemma ProductWithOne(half: Half)
    requires half > 2
    ensures FoldMul([Constant(2), One, Y], half) == Mul([Constant(2), Y])
  {
    hide Signed;
    OneConstant(1, Y);
    assert [Constant(2), One, Y][1..] == [One, Y];
    assert NonConstants([Constant(2), One, Y]) == [Y];
    SignedSmall(2, half);
    assert [Constant(2)] + [Y] == [Constant(2), Y];
  }

  /** Dividing by `u` takes the factor `2` out. */
  lemma TermsDivided(half: Half, operations: Operations, fuel: nat)
    requires half > 2
    ensures Divide(Folding(half, operations), Terms, U, fuel) == Some(DivisionResult(Shifted(2, Taken), Zero))
  {
    hide FoldMul, Divide, FoldAdd;
    var se, m := Folding(half, operations), Mul([Constant(2), Y]);
    FactorReplaced(half, operations, 2, fuel);
    FactorReplaced(half, operations, -2, fuel);
    MiddleReplaced(half, operations, fuel);
    SumDivided(se, Mul([Constant(2), U]), Mul([Constant(2), U, Y]), U, DivisionResult(Constant(2), Zero),
               DivisionResult(m, Zero), fuel);
    ConstantsFold(0, 0, half);
    SignedSmall(0, half);
    FactorTaken(half);
    SumDivided(se, Terms.ops[0], Terms.ops[1], U, DivisionResult(Taken, Zero), DivisionResult(Constant(-2), Zero), fuel);
    assert Terms == Add([Terms.ops[0], Terms.ops[1]]);
  }

  lemma FactorTaken(half: Half)
    requires half > 2
    ensures FoldAdd([Constant(2), Mul([Constant(2), Y])], half) == Taken
    ensures FoldAdd([Taken, Constant(-2)], half) == Shifted(2, Taken)
  {
    hide ConstantSum, NonConstants, Signed;
    var m := Mul([Constant(2), Y]);
    OneConstant(2, m);
    OneConstant(-2, Taken);
    SignedSmall(2, half);
    SignedSmall(-2, half);
    assert [Constant(2)] + [m] == [Constant(2), m] && [Constant(-2)] + [Taken] == [Constant(-2), Taken];
  }

  lemma TakenRemains(half: Half, operations: Operations, fuel: nat)
    requires half > 2
    ensures Remains(Folding(half, operations), Constant(2), fuel) && Remains(Folding(half, operations), Taken.ops[1], fuel)
    ensures FoldRewrite(Taken, 0, Zero, half) == Constant(2)
  {
    hide FoldAdd, FoldMul;
    var se, sum := Folding(half, operations), Taken.ops[1];
    ConstantRemains(se, 1, Y, fuel);
    ConstantRemains(se, 2, Y, fuel);
    DivideSame(se, Y, fuel);
    SumDivided(se, Y, One, Y, DivisionResult(One, Zero), CannotDivide(One), fuel);
    ConstantsFold(0, 1, half);
    ConstantsFold(2, 1, half);
    SignedSmall(1, half);
    SignedSmall(2, half);
    assert sum.ops[0] == Y && Occurs(0, Y) && Occurs(0, sum) && Occurs(0, Taken);
    RewriteOps(sum, 0, Zero, half);
    assert Rewrites(sum.ops, 0, Zero, half) == [Zero, One];
    RewriteOps(Taken, 0, Zero, half);
    assert Rewrites(Taken.ops, 0, Zero, half) == [Constant(2), One];
  }

  lemma TermsValue(env: Env)
    requires env.unknown(0) == env.unknown(2) == 1
    ensures Eval(Terms, env) == 2
  {
    PairValue(Constant(2), U, env);
    PairValue(Constant(-2), U, env);
    EvalOps(Mul([Constant(2), U, Y]), env);
    assert Values([Constant(2), U, Y], env) == [2, 1, 1];
    assert [2, 1, 1][1..] == [1, 1] && [1, 1][1..] == [1] && [1][1..] == [];
    assert Product([1]) == 1 && Product([1, 1]) == 1;
    PairValue(Mul([Constant(2), U]), Mul([Constant(2), U, Y]), env);
    PairValue(Terms.ops[0], Terms.ops[1], env);
    assert Terms == Add([Terms.ops[0], Terms.ops[1]]);
  }

  lemma TermsForm(se: Builders)
    ensures WellFormed(se, Terms) && Expanded(Terms, true) && Monomial(Mul([U, Y]))
  {
    var a, b, c := Mul([Constant(2), U]), Mul([Constant(2), U, Y]), Mul([Constant(-2), U]);
    assert WellFormed(se, a) && WellFormed(se, b) && WellFormed(se, c);
    assert Monomial(a) && Monomial(b) && Monomial(c);
    assert Expanded(Terms.ops[0], true) && WellFormed(se, Terms.ops[0]);
  }

  /**
   Where common factors are taken out, sums of products are not divided by products as they should be: for
   `2 * u + 2 * u * y + -2 * u` by `u * y` the quotient by `u` is `-2 + 2 * (y + 1)`, of which nothing remains for `y`.
   */
  lemma FactoredSum(half: Half, operations: Operations, fuel: nat)
    requires half > 2 && OnWords(operations, half)
    ensures var se, d := Folding(half, operations), Mul([U, Y]);
            && Sound(se) && WellFormed(se, Terms) && Expanded(Terms, true) && Monomial(d)
            && Divide(se, Terms, d, fuel) == Some(DivisionResult(Zero, Zero))
            && !AlwaysExact(se, Terms, d, DivisionResult(Zero, Zero))
  {
    hide Sound, Divide, OnWords, FoldRewrite, Eval, Remains, Expanded, Monomial, WellFormed;
    var se, d := Folding(half, operations), Mul([U, Y]);
    FoldingIsSound(half, operations);
    TermsForm(se);
    TermsDivided(half, operations, fuel);
    TakenRemains(half, operations, fuel);
    RemainderCancels(half, operations, Constant(2), Taken.ops[1], 2, fuel);
    assert Taken == Mul([Constant(2), Taken.ops[1]]);
    ByTwoFactors(se, Terms, U, Y, Shifted(2, Taken), fuel);
    var env := Env(_ => 1, _ => 0, operations);
    assert Suits(se, env);
    TermsValue(env);
    ConstantValue(0, env);
    ModUnique(2, 2 * half, 0, 2);
    assert !Exact(Terms, d, DivisionResult(Zero, Zero), env, half);
  }

  lemma ByTwoFactors(se: Builders, n: SCEV, a: SCEV, b: SCEV, q: SCEV, fuel: nat)
    requires Proper(a) && Proper(b) && n.Add? && Divide(se, n, a, fuel) == Some(DivisionResult(q, Zero))
    requires Divide(se, q, b, fuel) == Some(DivisionResult(Zero, Zero))
    ensures Divide(se, n, Mul([a, b]), fuel) == Some(DivisionResult(Zero, Zero))
  {
    var d := Mul([a, b]);
    assert DivideByFactors(se, n, d, 2, Zero, fuel) == Some(DivisionResult(Zero, Zero));
    assert DivideByFactors(se, n, d, 1, q, fuel) == Some(DivisionResult(Zero, Zero));
    assert DivideByFactors(se, n, d, 0, n, fuel) == Some(DivisionResult(Zero, Zero));
  }

  // ---------- A common divisor that divides nothing ----------

  /** `y * z` */
  const Divisor := Mul([Y, Z])

  /** The third power of `-1 + (1 + y) * (1 + y)` */
  const Cube := Mul([Gap, Gap, Gap])

  lemma CubeDivided(half: Half, operations: Operations, fuel: nat)
    requires half > 1
    ensures var se := Folding(half, operations);
            && Divide(se, Cube, Y, fuel) == Some(DivisionResult(Zero, Zero))
            && Keep(se, Cube, [Y, Z], fuel) == Some([Y, Z])
  {
    hide FoldMul, Divide, FoldRewrite, Remains;
    var se := Folding(half, operations);
    NextRemains(half, operations, fuel);
    SquareRewritten(half, operations);
    RemainderCancels(half, operations, Next, Next, 1, fuel);
    assert [] + [Zero] == [Zero] && [Zero] + [Gap] == [Zero, Gap] && [Zero, Gap] + [Gap] == [Zero, Gap, Gap];
    assert DivideFactor(se, Cube, Y, 0, fuel) == Some((false, []));
    assert DivideFactor(se, Cube, Y, 1, fuel) == Some((true, [Zero]));
    assert DivideFactor(se, Cube, Y, 2, fuel) == Some((true, [Zero, Gap]));
    assert DivideFactor(se, Cube, Y, 3, fuel) == Some((true, [Zero, Gap, Gap]));
    ProductDivision(se, Cube, Y, fuel);
    ProductWithZero([Zero, Gap, Gap], half);
    assert [Y, Z][1..] == [Z] && [Z][1..] == [];
    ZeroQuotient(se, fuel);
    assert [Z] + [] == [Z] && [Y] + [Z] == [Y, Z];
    assert Keep(se, Zero, [], fuel) == Some([]);
    assert Keep(se, Zero, [Z], fuel) == Some([Z]);
  }

  lemma ZeroQuotient(se: Builders, fuel: nat)
    ensures Divide(se, Zero, Z, fuel) == Some(DivisionResult(Zero, Zero))
  {
  }

  lemma ProductWithZero(ops: seq<SCEV>, half: Half)
    requires Zero in ops
    ensures FoldMul(ops, half) == Zero
  {
    ZeroFactor(ops);
    SignedSmall(0, half);
  }

  lemma {:induction false} ZeroFactor(ops: seq<SCEV>)
    requires Zero in ops
    ensures ConstantProduct(ops) == 0
  {
    if ops[0] != Zero {
      ZeroFactor(ops[1..]);
    }
  }

  /** Without a recurrence an expression is its only term. */
  lemma OwnTerm(se: Builders, e: SCEV)
    requires Sound(se) && WellFormed(se, e) && Found(e).None?
    ensures TermsOf(se, e) == [e]
  {
    hide Sound, Search;
    SearchBinds(se, e, true);
  }

  lemma NothingFound(e: SCEV)
    requires (e.Add? || e.Mul?) && forall k :: 0 <= k < |e.ops| ==> Found(e.ops[k]).None?
    ensures Found(e).None?
  {
  }

  lemma CubeFormed(se: Builders)
    ensures WellFormed(se, Divisor) && WellFormed(se, Cube)
  {
    hide WellFormed;
    GapFormed(se);
    AllUsed(se, Divisor);
    AllUsed(se, Cube);
  }

  lemma AllUsed(se: Builders, e: SCEV)
    requires e.Mul? && e.ops != []
    requires forall i :: 0 <= i < |e.ops| ==> e.ops[i] != Zero && (WellFormed(se, e.ops[i]) || Atom(e.ops[i]))
    ensures WellFormed(se, e)
  {
  }

  lemma OwnTerms(se: Builders)
    requires Sound(se)
    ensures WellFormed(se, Divisor) && WellFormed(se, Cube) && TermsOf(se, Divisor) == [Divisor] && TermsOf(se, Cube) == [Cube]
  {
    hide Sound, TermsOf, WellFormed;
    CubeFormed(se);
    NothingFound(Divisor);
    NothingFound(Next);
    NothingFound(Square);
    NothingFound(Gap);
    NothingFound(Cube);
    OwnTerm(se, Divisor);
    OwnTerm(se, Cube);
  }

  lemma AtMostTwo(terms: seq<SCEV>, a: SCEV, b: SCEV)
    requires forall k :: 0 <= k < |terms| ==> terms[k] == a || terms[k] == b
    ensures |terms| > 2 ==> !Distinct(terms)
  {
    if |terms| > 2 {
      assert terms[0] == terms[1] || terms[0] == terms[2] || terms[1] == terms[2];
    }
  }

  lemma TwoTerms(terms: seq<SCEV>, a: SCEV, b: SCEV)
    requires Distinct(terms) && Sorted(terms, Factors) && Factors(a) < Factors(b) && forall t :: t in terms <==> t == a || t == b
    ensures terms == [a, b]
  {
    assert a in terms && b in terms;
    assert forall k :: 0 <= k < |terms| ==> terms[k] in terms;
    AtMostTwo(terms, a, b);
    InOrder(terms, Factors, 0, 1);
  }

  lemma CubeValues(env: Env)
    requires env.unknown(0) == 1 && env.unknown(1) == 2
    ensures Eval(Divisor, env) == 2 && Eval(Cube, env) == 27
  {
    PairValue(Y, Z, env);
    GapValue(env);
    EvalOps(Cube, env);
    assert Values(Cube.ops, env) == [3, 3, 3];
    assert [3, 3, 3][1..] == [3, 3] && [3, 3][1..] == [3] && [3][1..] == [];
    assert Product([3]) == 3 && Product([3, 3]) == 9;
  }

  lemma TwoDoesNotDivideOdd(x: int, half: Half)
    requires x % 2 == 1
    ensures !Divisible(x, 2, half)
  {
    forall q
      ensures !IsMultiple(x, q, 2, half)
    {
      OddIsNoMultiple(x - q * 2, half);
    }
  }

  lemma ProductOfUnknowns(half: Half)
    requires half > 1
    ensures FoldMul([Y, Z], half) == Divisor
  {
    hide NonConstants, ConstantProduct, Signed;
    NoConstants(Y, Z);
    SignedSmall(1, half);
  }

  lemma CubeArranged(se: Builders, terms: seq<SCEV>)
    requires Sound(se) && (forall e :: e in [Divisor, Cube] ==> WellFormed(se, e)) && Arranged(se, [Divisor, Cube], terms)
    ensures terms == [Divisor, Cube]
  {
    hide Sound, TermsOf, WellFormed;
    OwnTerms(se);
    assert Divisor in [Divisor, Cube] && Cube in [Divisor, Cube];
    TwoTerms(terms, Divisor, Cube);
  }

  lemma CubeAnswer(half: Half, operations: Operations, fuel: nat)
    requires half > 1
    ensures Gcd(Folding(half, operations), [Divisor, Cube], fuel) == Some(Divisor)
  {
    hide Keep, FoldMul;
    var se := Folding(half, operations);
    CubeDivided(half, operations, fuel);
    assert [Divisor, Cube][1..] == [Cube] && [Cube][1..] == [];
    assert Narrow(se, [], [Y, Z], fuel) == Some(FoldMul([Y, Z], half));
    assert Narrow(se, [Cube], [Y, Z], fuel) == Narrow(se, [], [Y, Z], fuel);
    ProductOfUnknowns(half);
  }

  lemma CubeNotDivided(se: Builders)
    ensures !Divides(se, [Divisor], Cube)
  {
    hide Divisible, Eval, Product, Values;
    var env := Env(id => if id == 1 then 2 else 1, _ => 0, se.operations);
    assert Suits(se, env);
    CubeValues(env);
    OneOperand(Divisor, env);
    TwoDoesNotDivideOdd(27, se.half);
  }

  /**
   With sums inside of products the answer may divide nothing: for `y * z` and the third power of
   `-1 + (1 + y) * (1 + y)` it is `y * z`, however they are arranged.
   */
  lemma WrongDivisor(half: Half, operations: Operations, terms: seq<SCEV>, fuel: nat, g: Option<SCEV>)
    requires half > 1 && OnWords(operations, half)
    requires var se := Folding(half, operations); WellFormed(se, Divisor) && WellFormed(se, Cube)
    requires Answer(Folding(half, operations), [Divisor, Cube], terms, fuel, g)
    ensures Sound(Folding(half, operations)) && g == Some(Divisor) && !Divides(Folding(half, operations), [Divisor], Cube)
  {
    hide Sound, OnWords, WellFormed, Arranged, Gcd, Divides;
    FoldingIsSound(half, operations);
    CubeArranged(Folding(half, operations), terms);
    CubeAnswer(half, operations, fuel);
    CubeNotDivided(Folding(half, operations));
  }

  // ---------- Two recurrences of one loop ----------

  /** `{1,+,2}`, whose square is one modulo four. */
  const Odd := AddRec([One, Constant(2)], 0)

  /** `{0,+,1,+,2} * {1,+,2}` */
  const TwoRecurrences := Mul([AddRec([Zero, One, Constant(2)], 0), Odd])

  function SquaredMul(ops: seq<SCEV>): SCEV {
    if ops == [Odd, Odd] then One else FoldMul(ops, 2)
  }

  /** Builders for words of two bits that also multiply the two recurrences out. */
  function Squaring(operations: Operations): Builders {
    Folding(2, operations).(getMul := ops => SquaredMul(ops))
  }

  lemma OddValue(env: Env)
    ensures Eval(Odd, env) == 1 + 2 * env.iteration(0)
  {
    EvalOps(Odd, env);
    assert Values(Odd.ops, env) == [1, 2];
    AffineRecurrence(1, 2, env.iteration(0));
  }

  lemma SquareIsOne(env: Env)
    ensures Congruent(Eval(One, env), Product(Values([Odd, Odd], env)), 2)
  {
    OddValue(env);
    ValuesCons(Odd, [Odd], env);
    OneOperand(Odd, env);
    assert [Odd] + [Odd] == [Odd, Odd];
    var n: int := env.iteration(0);
    var k := -n * n - n;
    assert 1 - (1 + 2 * n) * (1 + 2 * n) == k * 4;
    Multiple(k, 4);
  }

  lemma SquaringBuilds(operations: Operations)
    ensures Builds(Folding(2, operations), ops => SquaredMul(ops), Product)
  {
    hide FoldMul, WellFormed, Mentions, Congruent, Eval;
    var se := Folding(2, operations);
    OneFormed(se);
    forall ops | AllFormed(se, ops)
      ensures WellFormed(se, SquaredMul(ops))
    {
      FoldMulForm(se, ops, 2);
    }
    forall ops, env: Env
      ensures Congruent(Eval(SquaredMul(ops), env), Product(Values(ops, env)), 2)
    {
      if ops == [Odd, Odd] {
        SquareIsOne(env);
      } else {
        FoldMulValue(ops, 2, env);
      }
    }
    forall ops, loop | AllInvariant(se, ops, loop)
      ensures !Mentions(loop, SquaredMul(ops))
    {
      NoneMentioned(loop);
      FoldMulSilent(loop, ops, 2);
    }
  }

  lemma OneFormed(se: Builders)
    ensures WellFormed(se, One)
  {
  }

  lemma SquaringIsSound(operations: Operations)
    requires OnWords(operations, 2)
    ensures Sound(Squaring(operations))
  {
    hide Sound, Builds, OnWords, FoldMul, FoldAdd, FoldMinus, FoldAddRec, FoldRewrite, SquaredMul, Mentions;
    FoldingIsSound(2, operations);
    OwnBuilds(Folding(2, operations));
    SquaringBuilds(operations);
    ReplacedIsSound(Folding(2, operations), Squaring(operations));
  }

  /**
   A limit of the tests: with two recurrences of one loop, the first of which is not affine, they may accept a wrong
   result. The product of the coefficient and the other recurrence is constant modulo four, and a builder that knows it
   makes `{0,+,1,+,2} * {1,+,2}` pass for `{0,+,1}`.
   */
  lemma TwoRecurrencesDiffer(operations: Operations, env: Env)
    requires OnWords(operations, 2) && env.operations == operations && env.iteration(0) == 2
    ensures var se := Squaring(operations);
            && Sound(se) && WellFormed(se, TwoRecurrences) && !Separate(TwoRecurrences)
            && ComputeSCEVAddRec(se, TwoRecurrences) == (AddRec([Zero, One], 0), true)
            && !Congruent(Eval(AddRec([Zero, One], 0), env), Eval(TwoRecurrences, env), 2)
  {
    hide Sound, OnWords, Eval, Search, FoldRewrite, FoldMinus, FoldAdd, FoldMul;
    var se := Squaring(operations);
    SquaringIsSound(operations);
    TwoFormed(se);
    TwoSearched(operations);
    TwoValues(env);
    assert !Mentions(0, One) && !Mentions(0, Zero);
  }

  lemma TwoFormed(se: Builders)
    requires Sound(se)
    ensures WellFormed(se, TwoRecurrences) && !Separate(TwoRecurrences)
  {
    hide KeepsValues, Substitutes, KeepsForm, Simplifies, KeepsInvariance;
    var first := TwoRecurrences.ops[0];
    assert WellFormed(se, first) && WellFormed(se, Odd);
    assert Found(first) == Some(first) && FirstFound(TwoRecurrences, 0) == 0;
    assert Mentions(0, TwoRecurrences.ops[1]);
  }

  lemma TwoSearched(operations: Operations)
    requires Sound(Squaring(operations)) && WellFormed(Squaring(operations), TwoRecurrences)
    ensures Search(Squaring(operations), TwoRecurrences, true) == Binomial(Some(0), One, Zero, true)
  {
    hide Sound, Folding, FoldMul, WellFormed;
    var se, first := Squaring(operations), TwoRecurrences.ops[0];
    assert first.ops[1..] == [One, Constant(2)];
    assert WellFormed(se, first) by { FirstFormed(se); }
    assert SearchOperands(se, TwoRecurrences, 0, true) == (0, Binomial(Some(0), Odd, Zero, true));
    var others := TwoRecurrences.ops[..0] + TwoRecurrences.ops[1..];
    assert others == [Odd];
    assert others + [Odd] == [Odd, Odd] && others + [Zero] == [Odd, Zero];
    assert [Odd, Zero][1] != Odd;
    ProductWithZero([Odd, Zero], 2);
  }

  lemma FirstFormed(se: Builders)
    requires WellFormed(se, TwoRecurrences)
    ensures WellFormed(se, TwoRecurrences.ops[0])
  {
  }

  lemma TwoValues(env: Env)
    requires env.iteration(0) == 2
    ensures Eval(AddRec([Zero, One], 0), env) == 2 && Eval(TwoRecurrences, env) == 20
  {
    var first, result := AddRec([Zero, One, Constant(2)], 0), AddRec([Zero, One], 0);
    OddValue(env);
    PairValue(first, Odd, env);
    EvalOps(first, env);
    EvalOps(result, env);
    assert Values(first.ops, env) == [0, 1, 2] && Values(result.ops, env) == [0, 1];
    AffineRecurrence(0, 1, 2);
    assert [0, 1, 2][1..] == [1, 2] && [1, 2][1..] == [2] && [2][1..] == [];
    assert Choose(2, 1) == 2 && Choose(2, 2) == 1;
    assert Recurrence([2], 2, 2) == 2;
    assert Recurrence([1, 2], 2, 1) == 4;
    assert Recurrence([0, 1, 2], 2, 0) == 4;
  }
}

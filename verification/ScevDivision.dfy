/**
 Division of scalar-evolution expressions with a remainder, `divide` of lib/Support/SCEVUtils.cpp, for operands of
 one width and without unsafe casts.
 */
module ScevDivision {
  import opened Arithmetic
  import opened ScalarEvolution
  import opened WordArithmetic
  import opened Wrappers

  datatype DivisionResult = DivisionResult(quotient: SCEV, remainder: SCEV)

  // ---------- The division ----------

  /** Denominators that contain no zero to divide by. */
  predicate Proper(d: SCEV) {
    match d
    case Constant(v) => v != 0
    case Mul(ops) => forall i :: 0 <= i < |ops| ==> Proper(ops[i])
    case _ => true
  }

  function CannotDivide(n: SCEV): DivisionResult {
    DivisionResult(Zero, n)
  }

  /**
   `divide`. The difference taken for a product is divided again, and it only has to be no larger than the product.
   There is no result when this goes on for more than `fuel` times; `MoreFuel` shows that otherwise the bound does not
   matter.
   */
  function Divide(se: Builders, n: SCEV, d: SCEV, fuel: nat): Option<DivisionResult>
    requires Proper(d)
    decreases fuel, d, n, 3, 0
  {
    if n == d then Some(DivisionResult(One, Zero))
    else if n == Zero then Some(DivisionResult(Zero, Zero))
    else if d == One then Some(DivisionResult(n, Zero))
    else if d.Mul? then DivideByFactors(se, n, d, 0, n, fuel)
    else Visit(se, n, d, fuel)
  }

  /** Division by a product, one factor after the other; `q` is the quotient by the factors in front of the `i`-th. */
  function DivideByFactors(se: Builders, n: SCEV, d: SCEV, i: nat, q: SCEV, fuel: nat): Option<DivisionResult>
    requires Proper(d) && d.Mul? && i <= |d.ops|
    decreases fuel, d, n, 2, |d.ops| - i
  {
    if i == |d.ops| then Some(DivisionResult(q, Zero))
    else
      var r :- Divide(se, q, d.ops[i], fuel);
      if r.remainder != Zero then Some(DivisionResult(Zero, n))
      else DivideByFactors(se, n, d, i + 1, r.quotient, fuel)
  }

  function Visit(se: Builders, n: SCEV, d: SCEV, fuel: nat): Option<DivisionResult>
    requires Proper(d)
    decreases fuel, d, n, 1, 0
  {
    match n
    case Constant(v) => Some(if d.Constant? then DivideConstants(v, d.v, se.half) else CannotDivide(n))
    case AddRec(ops, loop) =>
      if |ops| != 2 then Some(CannotDivide(n))
      else
        var start :- Divide(se, ops[0], d, fuel);
        var step :- Divide(se, ops[1], d, fuel);
        Some(DivisionResult(se.getAddRec(start.quotient, step.quotient, loop),
                            se.getAddRec(start.remainder, step.remainder, loop)))
    case Add(ops) =>
      var (qs, rs) :- DivideTerms(se, n, d, |ops|, fuel);
      Some(if |ops| == 1 then DivisionResult(qs[0], rs[0]) else DivisionResult(se.getAdd(qs), se.getAdd(rs)))
    case Mul(ops) => DivideProduct(se, n, d, fuel)
    case _ => Some(CannotDivide(n))
  }

  function DivideConstants(n: int, d: int, half: nat): DivisionResult
    requires d != 0 && half > 0
  {
    var q := Truncated(n, d);
    DivisionResult(Constant(Signed(q, half)), Constant(Signed(n - q * d, half)))
  }

  /** The quotients and remainders of the first `k` operands. */
  function DivideTerms(se: Builders, n: SCEV, d: SCEV, k: nat, fuel: nat): (r: Option<(seq<SCEV>, seq<SCEV>)>)
    requires Proper(d) && n.Add? && k <= |n.ops|
    ensures r.Some? ==> |r.value.0| == |r.value.1| == k
    decreases fuel, d, n, 0, k
  {
    if k == 0 then Some(([], []))
    else
      var (qs, rs) :- DivideTerms(se, n, d, k - 1, fuel);
      var r :- Divide(se, n.ops[k - 1], d, fuel);
      Some((qs + [r.quotient], rs + [r.remainder]))
  }

  /** The first `k` factors, where the first one that `d` divides is replaced by its quotient. */
  function DivideFactor(se: Builders, n: SCEV, d: SCEV, k: nat, fuel: nat): (r: Option<(bool, seq<SCEV>)>)
    requires Proper(d) && n.Mul? && k <= |n.ops|
    ensures r.Some? ==> |r.value.1| == k
    decreases fuel, d, n, 0, k
  {
    if k == 0 then Some((false, []))
    else
      var (found, qs) :- DivideFactor(se, n, d, k - 1, fuel);
      var op := n.ops[k - 1];
      if found then Some((true, qs + [op]))
      else
        var r :- Divide(se, op, d, fuel);
        Some(if r.remainder != Zero then (false, qs + [op]) else (true, qs + [r.quotient]))
  }

  function DivideProduct(se: Builders, n: SCEV, d: SCEV, fuel: nat): Option<DivisionResult>
    requires Proper(d) && n.Mul?
    decreases fuel, d, n, 0, |n.ops| + 1
  {
    var (found, qs) :- DivideFactor(se, n, d, |n.ops|, fuel);
    if found then Some(DivisionResult(if |qs| == 1 then qs[0] else se.getMul(qs), Zero))
    else if !d.Unknown? then Some(CannotDivide(n))
    else DivideByUnknown(se, n, d, fuel)
  }

  /** What is done with a product none of whose factors is divided by an unknown. */
  function DivideByUnknown(se: Builders, n: SCEV, d: SCEV, fuel: nat): Option<DivisionResult>
    requires n.Mul? && d.Unknown?
    decreases fuel, d, n, 0, 0
  {
    var remainder := se.rewrite(n, d.id, Zero);
    var diff := se.getMinus(n, remainder);
    if remainder == Zero then Some(DivisionResult(se.rewrite(n, d.id, One), Zero))
    else if SizeOf(diff) > SizeOf(n) then Some(DivisionResult(Zero, remainder))
    else if fuel == 0 then None
    else
      var r :- Divide(se, diff, d, fuel - 1);
      Some(DivisionResult(if r.remainder != Zero then Zero else r.quotient, remainder))
  }

  // ---------- Exactness ----------

  /** The value of the numerator is the quotient times the denominator plus the remainder. */
  ghost predicate Exact(n: SCEV, d: SCEV, r: DivisionResult, env: Env, half: nat)
    requires half > 0
  {
    Congruent(Eval(n, env), Eval(r.quotient, env) * Eval(d, env) + Eval(r.remainder, env), half)
  }

  ghost predicate AlwaysExact(se: Builders, n: SCEV, d: SCEV, r: DivisionResult)
  {
    forall env :: Suits(se, env) ==> Exact(n, d, r, env, se.half)
  }

  /** `e` is well formed, and does not change in any loop in which `n` does not change. */
  ghost predicate Carries(se: Builders, n: SCEV, e: SCEV) {
    WellFormed(se, e) && forall loop :: se.isLoopInvariant(n, loop) ==> se.isLoopInvariant(e, loop)
  }

  /** What a division is to give. */
  ghost predicate Right(se: Builders, n: SCEV, d: SCEV, r: DivisionResult, env: Env)
  {
    Exact(n, d, r, env, se.half) && Carries(se, n, r.quotient) && Carries(se, n, r.remainder)
  }

  // ---------- When a division can be trusted ----------

  /** The value is a multiple of the unknown: the one for the unknown one times the unknown. */
  ghost predicate Proportional(se: Builders, n: SCEV, id: nat)
  {
    forall env :: Suits(se, env) ==> Congruent(Eval(n, env), Eval(n, Assign(env, id, 1)) * env.unknown(id), se.half)
  }

  /** The value does not depend on the unknown. */
  ghost predicate Independent(se: Builders, n: SCEV, id: nat)
  {
    forall env, v :: Suits(se, env) ==> Congruent(Eval(n, env), Eval(n, Assign(env, id, v)), se.half)
  }

  lemma AbsentIsIndependent(se: Builders, n: SCEV, id: nat)
    requires !Occurs(id, n)
    ensures Independent(se, n, id)
  {
    forall env, v | Suits(se, env)
      ensures Congruent(Eval(n, env), Eval(n, Assign(env, id, v)), se.half)
    {
      AbsentValue(n, env, id, v);
      CongruentSymm(Eval(n, env), Eval(n, env), se.half);
    }
  }

  /**
   Wherever the division replaces an unknown in a product to get the remainder, it meets a product for which this is
   exact (`FallbackExactly` shows which these are).
   */
  ghost predicate Faithful(se: Builders, n: SCEV, d: SCEV, fuel: nat)
    requires Proper(d)
    decreases fuel, d, n, 3, 0
  {
    n == d || n == Zero || d == One
    || (if d.Mul? then FaithfulFactors(se, n, d, 0, n, fuel) else FaithfulVisit(se, n, d, fuel))
  }

  ghost predicate FaithfulFactors(se: Builders, n: SCEV, d: SCEV, i: nat, q: SCEV, fuel: nat)
    requires Proper(d) && d.Mul? && i <= |d.ops|
    decreases fuel, d, n, 2, |d.ops| - i
  {
    i < |d.ops| ==>
      var r := Divide(se, q, d.ops[i], fuel);
      r.Some? && r.value.remainder == Zero ==>
        Faithful(se, q, d.ops[i], fuel) && FaithfulFactors(se, n, d, i + 1, r.value.quotient, fuel)
  }

  ghost predicate FaithfulVisit(se: Builders, n: SCEV, d: SCEV, fuel: nat)
    requires Proper(d)
    decreases fuel, d, n, 1, 0
  {
    match n
    case AddRec(ops, _) => |ops| == 2 ==> Faithful(se, ops[0], d, fuel) && Faithful(se, ops[1], d, fuel)
    case Add(ops) => forall i :: 0 <= i < |ops| ==> Faithful(se, ops[i], d, fuel)
    case Mul(ops) =>
      && (forall i :: 0 <= i < |ops| && Hit(se, n, d, i, fuel) ==> Faithful(se, ops[i], d, fuel))
      && (d.Unknown? ==> FaithfulByUnknown(se, n, d, fuel))
    case _ => true
  }

  /** The factor `i` is the first one that is divided. */
  predicate Hit(se: Builders, n: SCEV, d: SCEV, i: nat, fuel: nat)
    requires Proper(d) && n.Mul? && i < |n.ops|
  {
    var f, r := DivideFactor(se, n, d, i, fuel), Divide(se, n.ops[i], d, fuel);
    f.Some? && !f.value.0 && r.Some? && r.value.remainder == Zero
  }

  predicate NoHit(se: Builders, n: SCEV, d: SCEV, fuel: nat)
    requires Proper(d) && n.Mul?
  {
    var f := DivideFactor(se, n, d, |n.ops|, fuel);
    f.Some? && !f.value.0
  }

  ghost predicate FaithfulByUnknown(se: Builders, n: SCEV, d: SCEV, fuel: nat)
    requires n.Mul? && d.Unknown?
    decreases fuel, d, n, 0, 0
  {
    NoHit(se, n, d, fuel) ==>
      var zeroed := se.rewrite(n, d.id, Zero);
      var diff := se.getMinus(n, zeroed);
      if zeroed == Zero then Proportional(se, n, d.id)
      else if SizeOf(diff) > SizeOf(n) then Independent(se, n, d.id)
      else fuel > 0 ==>
        var r := Divide(se, diff, d, fuel - 1);
        r.Some? ==> if r.value.remainder != Zero then Independent(se, n, d.id) else Faithful(se, diff, d, fuel - 1)
  }

  // ---------- Faithful divisions are exact ----------

  /** The division of constants. */
  lemma ConstantsExact(n: int, d: int, half: nat, env: Env)
    requires half > 0 && d != 0
    ensures Exact(Constant(n), Constant(d), DivideConstants(n, d, half), env, half)
  {
    var q := Truncated(n, d);
    var rem := n - q * d;
    SignedCongruent(q, half);
    SignedCongruent(rem, half);
    CongruentScaled(Signed(q, half), q, d, half);
    CongruentSum(Signed(q, half) * d, q * d, Signed(rem, half), rem, half);
    CongruentSymm(Signed(q, half) * d + Signed(rem, half), n, half);
  }

  function Magnitude(d: int): int {
    if d < 0 then -d else d
  }

  /** `m` is smaller than the denominator and has the sign of the numerator; it is zero exactly when `d` divides `n`. */
  ghost predicate Rounded(n: int, d: int, m: int)
    requires d != 0
  {
    && -Magnitude(d) < m < Magnitude(d) && (m < 0 ==> n < 0) && (m > 0 ==> n > 0)
    && (m == 0 <==> n % d == 0)
  }

  lemma TruncatedRounds(n: int, d: int)
    requires d != 0
    ensures Rounded(n, d, n - Truncated(n, d) * d)
    ensures -Magnitude(n) <= Truncated(n, d) <= Magnitude(n)
    ensures Truncated(n, d) == Magnitude(n) ==> n == 0 || n == d || d == 1 || d == -1
  {
    TruncatedRemainder(n, d);
    TruncatedBound(n, d);
  }

  lemma TruncatedRemainder(n: int, d: int)
    requires d != 0
    ensures Rounded(n, d, n - Truncated(n, d) * d)
  {
    hide Truncated, Rounded, Magnitude;
    var m := Magnitude(n) % d;
    RemainderOfMagnitude(n, d, Magnitude(n) / d, m);
    RemainderRounded(n, d, Magnitude(n) / d, m);
  }

  lemma RemainderOfMagnitude(n: int, d: int, q: int, m: int)
    requires d != 0 && q == Magnitude(n) / d && m == Magnitude(n) % d
    ensures Magnitude(n) == q * d + m && 0 <= m < Magnitude(d)
    ensures n - Truncated(n, d) * d == if n < 0 then -m else m
  {
    var t := Truncated(n, d);
    assert t == if n < 0 then -q else q;
    SignedProduct(t, d, q, n < 0);
  }

  lemma SignedProduct(t: int, d: int, q: int, negative: bool)
    requires t == if negative then -q else q
    ensures t * d == if negative then -(q * d) else q * d
  {
  }

  lemma RemainderRounded(n: int, d: int, q: int, m: int)
    requires d != 0 && Magnitude(n) == q * d + m && m == Magnitude(n) % d && 0 <= m < Magnitude(d)
    ensures Rounded(n, d, if n < 0 then -m else m)
  {
    if n < 0 {
      NegativeRemainder(n, d, q, m);
    }
  }

  lemma TruncatedBound(n: int, d: int)
    requires d != 0
    ensures -Magnitude(n) <= Truncated(n, d) <= Magnitude(n)
    ensures Truncated(n, d) == Magnitude(n) ==> n == 0 || n == d || d == 1 || d == -1
  {
    var x := Magnitude(n);
    var q, m := x / d, x % d;
    assert x == q * d + m;
    QuotientBound(x, d, q);
  }

  lemma QuotientBound(x: nat, d: int, q: int)
    requires d != 0 && q * d <= x < q * d + Magnitude(d)
    ensures -(x as int) <= q <= x
    ensures q == x || q == -(x as int) ==> x == 0 || d == 1 || d == -1
  {
    var k := if d < 0 then -q else q;
    assert q * d == k * Magnitude(d) by {
      assert (-q) * (-d) == q * d;
    }
    if k < 0 {
      AtLeastOnce(k, Magnitude(d));
    } else if k > 0 {
      AtLeastOnce(k, Magnitude(d) - 1);
      assert k * Magnitude(d) == k + k * (Magnitude(d) - 1);
    }
  }

  lemma NegativeRemainder(n: int, d: int, q: int, m: int)
    requires d != 0 && -n == q * d + m && 0 <= m < Magnitude(d)
    ensures m == 0 <==> n % d == 0
  {
    var p := n / d;
    assert n == p * d + n % d;
    assert (p + q) * d == -m - n % d;
    var k := if d < 0 then -(p + q) else p + q;
    assert k * Magnitude(d) == -m - n % d by {
      assert (-(p + q)) * (-d) == (p + q) * d;
    }
    AtLeastOnce(k, Magnitude(d));
  }

  /**
   The division of signed words rounds towards zero; only the smallest value divided by -1 does not fit, and gives the
   smallest value again.
   */
  lemma ConstantsTruncated(n: int, d: int, half: nat)
    requires half > 0 && d != 0 && -(half as int) <= n < half && -(half as int) <= d < half
    ensures var r := DivideConstants(n, d, half);
            && r.quotient.Constant? && -(half as int) <= r.quotient.v < half
            && r.remainder.Constant? && Rounded(n, d, r.remainder.v)
            && if n == -(half as int) && d == -1 then r.quotient.v == n else n == r.quotient.v * d + r.remainder.v
  {
    hide Truncated, Rounded;
    var q := Truncated(n, d);
    TruncatedRounds(n, d);
    SignedSmall(q, half);
    SmallRemainder(n, d, n - q * d, half);
  }

  lemma SmallRemainder(n: int, d: int, m: int, half: nat)
    requires half > 0 && d != 0 && -(half as int) <= d < half && Rounded(n, d, m)
    ensures Signed(m, half) == m
  {
    SignedSmall(m, half);
  }

  /**
   The value of the numerator is the quotient times the denominator plus the remainder, and both may stand in every
   loop in which the numerator may.
   */
  lemma {:induction false} DivideRight(se: Builders, n: SCEV, d: SCEV, fuel: nat, env: Env)
    requires Sound(se) && WellFormed(se, n) && Proper(d) && Suits(se, env)
    requires Divide(se, n, d, fuel).Some? && Faithful(se, n, d, fuel)
    ensures Right(se, n, d, Divide(se, n, d, fuel).value, env)
    decreases fuel, d, n, 3, 0
  {
    hide KeepsValues, KeepsForm, Substitutes, Simplifies, KeepsInvariance, FaithfulVisit, Visit;
    var r := Divide(se, n, d, fuel).value;
    CongruentSymm(Eval(n, env), Eval(n, env), se.half);
    if n == d || n == Zero || d == One {
      assert Eval(n, env) == Eval(r.quotient, env) * Eval(d, env) + Eval(r.remainder, env);
    } else if d.Mul? {
      assert d.ops[..0] == [];
      FactorsRight(se, n, d, 0, n, fuel, env);
    } else {
      VisitRight(se, n, d, fuel, env);
    }
  }

  lemma {:induction false} FactorsRight(se: Builders, n: SCEV, d: SCEV, i: nat, q: SCEV, fuel: nat, env: Env)
    requires Sound(se) && WellFormed(se, n) && Proper(d) && d.Mul? && i <= |d.ops| && Suits(se, env)
    requires Carries(se, n, q) && Congruent(Eval(n, env), Eval(q, env) * Product(Values(d.ops[..i], env)), se.half)
    requires DivideByFactors(se, n, d, i, q, fuel).Some? && FaithfulFactors(se, n, d, i, q, fuel)
    ensures Right(se, n, d, DivideByFactors(se, n, d, i, q, fuel).value, env)
    decreases fuel, d, n, 2, |d.ops| - i
  {
    hide Sound, Congruent, Divide, Faithful, WellFormed, Product, Values;
    if i == |d.ops| {
      assert d.ops[..i] == d.ops;
      EvalOps(d, env);
      assert Eval(q, env) * Eval(d, env) + Eval(Zero, env) == Eval(q, env) * Product(Values(d.ops, env));
      ZeroCarries(se, n);
    } else {
      var r := Divide(se, q, d.ops[i], fuel).value;
      if r.remainder != Zero {
        NotDivided(se, n, d, env);
      } else {
        DivideRight(se, q, d.ops[i], fuel, env);
        assert d.ops[..i + 1] == d.ops[..i] + [d.ops[i]];
        ValuesSnoc(d.ops[..i], d.ops[i], env);
        OneFactorMore(Eval(n, env), Eval(q, env), Product(Values(d.ops[..i], env)), Eval(r.quotient, env),
                      Eval(d.ops[i], env), se.half);
        FactorsRight(se, n, d, i + 1, r.quotient, fuel, env);
      }
    }
  }

  lemma ZeroCarries(se: Builders, n: SCEV)
    requires Sound(se)
    ensures Carries(se, n, Zero)
  {
    hide KeepsValues, KeepsForm, Substitutes, Simplifies, KeepsInvariance;
  }

  lemma NotDivided(se: Builders, n: SCEV, d: SCEV, env: Env)
    requires Sound(se) && WellFormed(se, n)
    ensures Right(se, n, d, CannotDivide(n), env)
  {
    hide KeepsValues, KeepsForm, Substitutes, Simplifies, KeepsInvariance;
    CongruentSymm(Eval(n, env), Eval(n, env), se.half);
    ZeroCarries(se, n);
    assert Eval(Zero, env) * Eval(d, env) == 0;
  }

  lemma {:induction false} VisitRight(se: Builders, n: SCEV, d: SCEV, fuel: nat, env: Env)
    requires Sound(se) && WellFormed(se, n) && Proper(d) && !d.Mul? && Suits(se, env)
    requires Visit(se, n, d, fuel).Some? && FaithfulVisit(se, n, d, fuel)
    ensures Right(se, n, d, Visit(se, n, d, fuel).value, env)
    decreases fuel, d, n, 1, 0
  {
    hide Sound, Congruent, Divide, DivideTerms, DivideProduct, DivideConstants, Right, Faithful, Hit;
    match n {
      case Constant(v) =>
        if d.Constant? {
          ConstantRight(se, v, d.v, env);
        } else {
          NotDivided(se, n, d, env);
        }
      case AddRec(ops, loop) =>
        if |ops| == 2 {
          DivideRight(se, ops[0], d, fuel, env);
          DivideRight(se, ops[1], d, fuel, env);
          RecurrenceRight(se, n, d, Divide(se, ops[0], d, fuel).value, Divide(se, ops[1], d, fuel).value, env);
        } else {
          NotDivided(se, n, d, env);
        }
      case Add(ops) =>
        TermsRight(se, n, d, |ops|, fuel, env);
        var (qs, rs) := DivideTerms(se, n, d, |ops|, fuel).value;
        SumRight(se, n, d, qs, rs, env);
      case Mul(ops) =>
        ProductRight(se, n, d, fuel, env);
      case _ =>
        NotDivided(se, n, d, env);
    }
  }

  lemma ConstantRight(se: Builders, v: int, d: int, env: Env)
    requires Sound(se) && d != 0
    ensures Right(se, Constant(v), Constant(d), DivideConstants(v, d, se.half), env)
  {
    hide KeepsValues, KeepsForm, Substitutes, Simplifies, KeepsInvariance, Congruent;
    ConstantsExact(v, d, se.half, env);
  }

  /** Dividing start and step divides the recurrence: neither quotients nor remainders change in its loop. */
  lemma RecurrenceRight(se: Builders, n: SCEV, d: SCEV, start: DivisionResult, step: DivisionResult, env: Env)
    requires Sound(se) && WellFormed(se, n) && n.AddRec? && |n.ops| == 2 && Suits(se, env)
    requires Right(se, n.ops[0], d, start, env) && Right(se, n.ops[1], d, step, env)
    ensures Right(se, n, d, DivisionResult(se.getAddRec(start.quotient, step.quotient, n.loop),
                                           se.getAddRec(start.remainder, step.remainder, n.loop)), env)
  {
    hide Sound, WellFormed, Congruent;
    OperandsStay(se, n);
    RecurrenceCarries(se, n, start.quotient, step.quotient, env);
    RecurrenceCarries(se, n, start.remainder, step.remainder, env);
    var i := env.iteration(n.loop);
    EvalOps(n, env);
    assert Values(n.ops, env) == [Eval(n.ops[0], env), Eval(n.ops[1], env)];
    AffineRecurrence(Eval(n.ops[0], env), Eval(n.ops[1], env), i);
    RecurrenceValues(Eval(n.ops[0], env), Eval(n.ops[1], env), Eval(start.quotient, env), Eval(start.remainder, env),
                     Eval(step.quotient, env), Eval(step.remainder, env), Eval(d, env), i,
                     Eval(se.getAddRec(start.quotient, step.quotient, n.loop), env),
                     Eval(se.getAddRec(start.remainder, step.remainder, n.loop), env), se.half);
  }

  lemma OperandsStay(se: Builders, n: SCEV)
    requires Sound(se) && WellFormed(se, n) && n.AddRec? && |n.ops| == 2
    ensures RecurrenceOperands(se, n.ops[0], n.ops[1], n.loop)
  {
  }

  /** What is built from parts of start and step. */
  lemma RecurrenceCarries(se: Builders, n: SCEV, s: SCEV, t: SCEV, env: Env)
    requires Sound(se) && n.AddRec? && |n.ops| == 2 && RecurrenceOperands(se, n.ops[0], n.ops[1], n.loop) && Suits(se, env)
    requires Carries(se, n.ops[0], s) && Carries(se, n.ops[1], t)
    ensures Carries(se, n, se.getAddRec(s, t, n.loop))
    ensures Congruent(Eval(se.getAddRec(s, t, n.loop), env), Eval(s, env) + Eval(t, env) * env.iteration(n.loop), se.half)
  {
    hide Sound, Congruent, WellFormed;
    assert RecurrenceOperands(se, s, t, n.loop);
    RecurrenceBuilt(se, s, t, n.loop, env);
    forall loop | se.isLoopInvariant(n, loop)
      ensures se.isLoopInvariant(se.getAddRec(s, t, n.loop), loop)
    {
      RecurrenceStays(se, n, s, t, loop);
    }
  }

  lemma RecurrenceStays(se: Builders, n: SCEV, s: SCEV, t: SCEV, loop: Loop)
    requires Sound(se) && n.AddRec? && |n.ops| == 2 && se.isLoopInvariant(n, loop) && RecurrenceOperands(se, s, t, n.loop)
    requires Carries(se, n.ops[0], s) && Carries(se, n.ops[1], t)
    ensures se.isLoopInvariant(se.getAddRec(s, t, n.loop), loop)
  {
    hide KeepsValues, KeepsForm, Substitutes, Simplifies, WellFormed, RecurrenceOperands;
    assert OperandsInvariant(se, n, loop);
    assert n == AddRec(n.ops, n.loop);
    assert AllInvariant(se, [s, t], loop);
  }

  /** All of `es` are well formed, and do not change in any loop in which `n` does not change. */
  ghost predicate AllCarry(se: Builders, n: SCEV, es: seq<SCEV>) {
    forall i :: 0 <= i < |es| ==> Carries(se, n, es[i])
  }

  lemma CarriedForms(se: Builders, n: SCEV, es: seq<SCEV>)
    requires AllCarry(se, n, es) && es != []
    ensures AllFormed(se, es) && forall loop :: se.isLoopInvariant(n, loop) ==> AllInvariant(se, es, loop)
  {
    hide WellFormed;
  }

  /** Operands of sums and products. */
  lemma OperandCarries(se: Builders, n: SCEV, i: nat, e: SCEV)
    requires Sound(se) && (n.Add? || n.Mul?) && i < |n.ops| && Carries(se, n.ops[i], e)
    ensures Carries(se, n, e)
  {
    hide KeepsValues, KeepsForm, Substitutes, Simplifies, KeepsInvariance, WellFormed;
    forall loop | se.isLoopInvariant(n, loop)
      ensures se.isLoopInvariant(e, loop)
    {
      assert OperandsInvariant(se, n, loop);
    }
  }

  /** The quotients and remainders of terms. */
  ghost predicate TermsExact(se: Builders, n: SCEV, d: SCEV, k: nat, qs: seq<SCEV>, rs: seq<SCEV>, env: Env)
    requires n.Add? && k <= |n.ops|
  {
    Congruent(Sum(Values(n.ops[..k], env)), Sum(Values(qs, env)) * Eval(d, env) + Sum(Values(rs, env)), se.half)
  }

  lemma {:induction false} TermsRight(se: Builders, n: SCEV, d: SCEV, k: nat, fuel: nat, env: Env)
    requires Sound(se) && WellFormed(se, n) && Proper(d) && !d.Mul? && n.Add? && k <= |n.ops| && Suits(se, env)
    requires DivideTerms(se, n, d, k, fuel).Some? && FaithfulVisit(se, n, d, fuel)
    ensures var (qs, rs) := DivideTerms(se, n, d, k, fuel).value;
            TermsExact(se, n, d, k, qs, rs, env) && AllCarry(se, n, qs) && AllCarry(se, n, rs)
    decreases fuel, d, n, 0, k
  {
    hide Sound, Congruent, Divide, Carries, Faithful, FaithfulVisit, TermsExact;
    if k == 0 {
      NoTerms(se, n, d, env);
    } else {
      TermsRight(se, n, d, k - 1, fuel, env);
      var (qs, rs) := DivideTerms(se, n, d, k - 1, fuel).value;
      var op := n.ops[k - 1];
      TermFaithful(se, n, d, k - 1, fuel);
      DivideRight(se, op, d, fuel, env);
      var r := Divide(se, op, d, fuel).value;
      TermBehind(se, n, d, k, qs, rs, r, env);
      OperandCarries(se, n, k - 1, r.quotient);
      OperandCarries(se, n, k - 1, r.remainder);
    }
  }

  lemma NoTerms(se: Builders, n: SCEV, d: SCEV, env: Env)
    requires n.Add?
    ensures TermsExact(se, n, d, 0, [], [], env)
  {
    assert n.ops[..0] == [];
    CongruentSymm(0, 0, se.half);
  }

  lemma TermFaithful(se: Builders, n: SCEV, d: SCEV, i: nat, fuel: nat)
    requires Proper(d) && n.Add? && i < |n.ops| && FaithfulVisit(se, n, d, fuel)
    ensures Faithful(se, n.ops[i], d, fuel)
  {
    hide Faithful;
  }

  lemma TermBehind(se: Builders, n: SCEV, d: SCEV, k: nat, qs: seq<SCEV>, rs: seq<SCEV>, r: DivisionResult, env: Env)
    requires n.Add? && 0 < k <= |n.ops| && TermsExact(se, n, d, k - 1, qs, rs, env)
    requires Exact(n.ops[k - 1], d, r, env, se.half)
    ensures TermsExact(se, n, d, k, qs + [r.quotient], rs + [r.remainder], env)
  {
    hide Congruent, Eval, Values, Sum;
    var op := n.ops[k - 1];
    assert n.ops[..k] == n.ops[..k - 1] + [op];
    ValuesSnoc(n.ops[..k - 1], op, env);
    ValuesSnoc(qs, r.quotient, env);
    ValuesSnoc(rs, r.remainder, env);
    OneTermMore(Sum(Values(n.ops[..k - 1], env)), Sum(Values(qs, env)), Sum(Values(rs, env)), Eval(d, env),
                Eval(op, env), Eval(r.quotient, env), Eval(r.remainder, env), se.half);
  }

  lemma SumRight(se: Builders, n: SCEV, d: SCEV, qs: seq<SCEV>, rs: seq<SCEV>, env: Env)
    requires Sound(se) && n.Add? && n.ops != [] && |qs| == |rs| == |n.ops| && Suits(se, env)
    requires TermsExact(se, n, d, |n.ops|, qs, rs, env) && AllCarry(se, n, qs) && AllCarry(se, n, rs)
    ensures Right(se, n, d, if |n.ops| == 1 then DivisionResult(qs[0], rs[0])
                            else DivisionResult(se.getAdd(qs), se.getAdd(rs)), env)
  {
    hide Sound, Congruent, Carries, Values, Sum, Eval;
    EvalOps(n, env);
    assert n.ops[..|n.ops|] == n.ops;
    if |n.ops| == 1 {
      OneOperand(qs[0], env);
      OneOperand(rs[0], env);
      assert qs == [qs[0]] && rs == [rs[0]];
    } else {
      SumCarries(se, n, qs, env);
      SumCarries(se, n, rs, env);
      SameResult(Eval(n, env), Sum(Values(qs, env)), Sum(Values(rs, env)), Eval(se.getAdd(qs), env),
                 Eval(se.getAdd(rs), env), Eval(d, env), se.half);
    }
  }

  lemma OneOperand(e: SCEV, env: Env)
    ensures Sum(Values([e], env)) == Eval(e, env) && Product(Values([e], env)) == Eval(e, env)
  {
    OneValue(Eval(e, env));
    assert Values([e], env) == [Eval(e, env)];
  }

  lemma OneValue(x: int)
    ensures Sum([x]) == x && Product([x]) == x
  {
    assert [x][1..] == [];
  }

  lemma SumCarries(se: Builders, n: SCEV, es: seq<SCEV>, env: Env)
    requires Sound(se) && es != [] && AllCarry(se, n, es) && Suits(se, env)
    ensures Carries(se, n, se.getAdd(es)) && Congruent(Eval(se.getAdd(es), env), Sum(Values(es, env)), se.half)
  {
    hide Substitutes, Simplifies, TellsInvariance, WellFormed, AllFormed, AllInvariant, Congruent;
    CarriedForms(se, n, es);
  }

  lemma ProductCarries(se: Builders, n: SCEV, es: seq<SCEV>, env: Env)
    requires Sound(se) && es != [] && AllCarry(se, n, es) && Suits(se, env)
    ensures Carries(se, n, se.getMul(es)) && Congruent(Eval(se.getMul(es), env), Product(Values(es, env)), se.half)
  {
    hide Substitutes, Simplifies, TellsInvariance, WellFormed, AllFormed, AllInvariant, Congruent;
    CarriedForms(se, n, es);
  }

  /** The factors with one of them replaced by its quotient, or all factors when the denominator divides none. */
  ghost predicate FactorExact(se: Builders, n: SCEV, d: SCEV, k: nat, found: bool, qs: seq<SCEV>, env: Env)
    requires n.Mul? && k <= |n.ops|
  {
    if found then Congruent(Product(Values(n.ops[..k], env)), Product(Values(qs, env)) * Eval(d, env), se.half)
    else qs == n.ops[..k]
  }

  lemma {:induction false} FactorRight(se: Builders, n: SCEV, d: SCEV, k: nat, fuel: nat, env: Env)
    requires Sound(se) && WellFormed(se, n) && Proper(d) && !d.Mul? && n.Mul? && k <= |n.ops| && Suits(se, env)
    requires DivideFactor(se, n, d, k, fuel).Some? && FaithfulVisit(se, n, d, fuel)
    ensures var (found, qs) := DivideFactor(se, n, d, k, fuel).value;
            FactorExact(se, n, d, k, found, qs, env) && AllCarry(se, n, qs)
    decreases fuel, d, n, 0, k
  {
    hide Sound, Congruent, Divide, FactorExact, Carries, Faithful, FaithfulVisit, Hit, Eval;
    if k == 0 {
      NoFactors(se, n, d, env);
    } else {
      FactorRight(se, n, d, k - 1, fuel, env);
      var (found, qs) := DivideFactor(se, n, d, k - 1, fuel).value;
      OwnFactorCarries(se, n, k - 1);
      if found {
        FactorBehind(se, n, d, k, qs, env);
      } else {
        var r := Divide(se, n.ops[k - 1], d, fuel).value;
        if r.remainder == Zero {
          HitFaithful(se, n, d, k - 1, fuel);
          DivideRight(se, n.ops[k - 1], d, fuel, env);
          FactorHit(se, n, d, k, qs, r, env);
          OperandCarries(se, n, k - 1, r.quotient);
        } else {
          FactorMissed(se, n, d, k, qs, env);
        }
      }
    }
  }

  lemma OwnFactorCarries(se: Builders, n: SCEV, i: nat)
    requires Sound(se) && n.Mul? && i < |n.ops| && WellFormed(se, n)
    ensures Carries(se, n, n.ops[i]) && WellFormed(se, n.ops[i])
  {
    hide Sound;
    ItselfCarries(se, n.ops[i]);
    OperandCarries(se, n, i, n.ops[i]);
  }

  lemma HitFaithful(se: Builders, n: SCEV, d: SCEV, i: nat, fuel: nat)
    requires Proper(d) && n.Mul? && i < |n.ops| && FaithfulVisit(se, n, d, fuel)
    requires var f, r := DivideFactor(se, n, d, i, fuel), Divide(se, n.ops[i], d, fuel);
             f.Some? && !f.value.0 && r.Some? && r.value.remainder == Zero
    ensures Faithful(se, n.ops[i], d, fuel)
  {
    hide Divide, DivideFactor, Faithful, FaithfulByUnknown;
    assert Hit(se, n, d, i, fuel);
  }

  lemma ItselfCarries(se: Builders, e: SCEV)
    requires WellFormed(se, e)
    ensures Carries(se, e, e)
  {
  }

  lemma NoFactors(se: Builders, n: SCEV, d: SCEV, env: Env)
    requires n.Mul?
    ensures FactorExact(se, n, d, 0, false, [], env)
  {
  }

  lemma FactorBehind(se: Builders, n: SCEV, d: SCEV, k: nat, qs: seq<SCEV>, env: Env)
    requires n.Mul? && 0 < k <= |n.ops|
    requires FactorExact(se, n, d, k - 1, true, qs, env)
    ensures FactorExact(se, n, d, k, true, qs + [n.ops[k - 1]], env)
  {
    hide Congruent, Eval;
    var op := n.ops[k - 1];
    var front, q, x, y := Product(Values(n.ops[..k - 1], env)), Product(Values(qs, env)), Eval(d, env), Eval(op, env);
    assert n.ops[..k] == n.ops[..k - 1] + [op];
    ValuesSnoc(n.ops[..k - 1], op, env);
    ValuesSnoc(qs, op, env);
    CongruentScaled(front, q * x, y, se.half);
    Swapped(q, x, y);
  }

  lemma FactorHit(se: Builders, n: SCEV, d: SCEV, k: nat, qs: seq<SCEV>, r: DivisionResult, env: Env)
    requires n.Mul? && 0 < k <= |n.ops|
    requires FactorExact(se, n, d, k - 1, false, qs, env)
    requires Exact(n.ops[k - 1], d, r, env, se.half) && r.remainder == Zero
    ensures FactorExact(se, n, d, k, true, qs + [r.quotient], env)
  {
    hide Congruent;
    var op := n.ops[k - 1];
    var front, q, x := Product(Values(n.ops[..k - 1], env)), Eval(r.quotient, env), Eval(d, env);
    assert n.ops[..k] == n.ops[..k - 1] + [op];
    ValuesSnoc(n.ops[..k - 1], op, env);
    ValuesSnoc(qs, r.quotient, env);
    CongruentScaled(Eval(op, env), q * x, front, se.half);
    Associative(front, q, x);
  }

  lemma FactorMissed(se: Builders, n: SCEV, d: SCEV, k: nat, qs: seq<SCEV>, env: Env)
    requires n.Mul? && 0 < k <= |n.ops|
    requires FactorExact(se, n, d, k - 1, false, qs, env)
    ensures FactorExact(se, n, d, k, false, qs + [n.ops[k - 1]], env)
  {
    assert n.ops[..k] == n.ops[..k - 1] + [n.ops[k - 1]];
  }

  lemma {:induction false} ProductRight(se: Builders, n: SCEV, d: SCEV, fuel: nat, env: Env)
    requires Sound(se) && WellFormed(se, n) && Proper(d) && !d.Mul? && n.Mul? && Suits(se, env)
    requires DivideProduct(se, n, d, fuel).Some? && FaithfulVisit(se, n, d, fuel)
    ensures Right(se, n, d, DivideProduct(se, n, d, fuel).value, env)
    decreases fuel, d, n, 0, |n.ops| + 1
  {
    hide Sound, Right, Divide, DivideFactor, FactorExact, AllCarry, DivideByUnknown, FaithfulByUnknown;
    FactorRight(se, n, d, |n.ops|, fuel, env);
    var (found, qs) := DivideFactor(se, n, d, |n.ops|, fuel).value;
    if found {
      ProductDivided(se, n, d, qs, env);
    } else if d.Unknown? {
      ByUnknownRight(se, n, d, fuel, env);
    } else {
      NotDivided(se, n, d, env);
    }
  }

  lemma ProductDivided(se: Builders, n: SCEV, d: SCEV, qs: seq<SCEV>, env: Env)
    requires Sound(se) && n.Mul? && n.ops != [] && |qs| == |n.ops| && FactorExact(se, n, d, |n.ops|, true, qs, env)
    requires AllCarry(se, n, qs) && Suits(se, env)
    ensures Right(se, n, d, DivisionResult(if |qs| == 1 then qs[0] else se.getMul(qs), Zero), env)
  {
    hide Sound, Congruent, Carries;
    EvalOps(n, env);
    ZeroCarries(se, n);
    assert n.ops[..|n.ops|] == n.ops;
    if |qs| == 1 {
      OneOperand(qs[0], env);
      assert qs == [qs[0]];
    } else {
      ProductCarries(se, n, qs, env);
      CongruentSymm(0, 0, se.half);
      SameResult(Eval(n, env), Product(Values(qs, env)), 0, Eval(se.getMul(qs), env), 0, Eval(d, env), se.half);
    }
  }

  // ---------- Products that an unknown divides no factor of ----------

  lemma {:induction false} ByUnknownRight(se: Builders, n: SCEV, d: SCEV, fuel: nat, env: Env)
    requires Sound(se) && WellFormed(se, n) && n.Mul? && d.Unknown? && Suits(se, env) && NoHit(se, n, d, fuel)
    requires DivideByUnknown(se, n, d, fuel).Some? && FaithfulByUnknown(se, n, d, fuel)
    ensures Right(se, n, d, DivideByUnknown(se, n, d, fuel).value, env)
    decreases fuel, d, n, 0, 0
  {
    hide Sound, WellFormed, Congruent, Divide, Proportional, Independent, SizeOf, NoHit, Faithful, Eval;
    var zeroed := se.rewrite(n, d.id, Zero);
    var diff := se.getMinus(n, zeroed);
    Rewritten(se, n, d.id, 0, env);
    Rewritten(se, n, d.id, 1, env);
    ZeroCarries(se, n);
    if zeroed == Zero {
      ReplacedByOne(se, n, d, env);
    } else {
      DifferenceCarries(se, n, d.id, env);
      if SizeOf(diff) > SizeOf(n) || Divide(se, diff, d, fuel - 1).value.remainder != Zero {
        OnlyRemainder(se, n, d, env);
      } else {
        DivideRight(se, diff, d, fuel - 1, env);
        var r := Divide(se, diff, d, fuel - 1).value;
        DifferenceDivided(se, n, d, r.quotient, env);
        CarriesTrans(se, n, diff, r.quotient);
      }
    }
  }

  lemma CarriesTrans(se: Builders, n: SCEV, e: SCEV, f: SCEV)
    requires Carries(se, n, e) && Carries(se, e, f)
    ensures Carries(se, n, f)
  {
    hide WellFormed;
  }

  lemma Rewritten(se: Builders, n: SCEV, id: nat, v: int, env: Env)
    requires Sound(se) && WellFormed(se, n) && Suits(se, env)
    ensures Carries(se, n, se.rewrite(n, id, Constant(v)))
    ensures Congruent(Eval(se.rewrite(n, id, Constant(v)), env), Eval(n, Assign(env, id, v)), se.half)
  {
    hide KeepsValues, Simplifies, TellsInvariance, WellFormed, Congruent;
  }

  lemma DifferenceCarries(se: Builders, n: SCEV, id: nat, env: Env)
    requires Sound(se) && WellFormed(se, n) && Suits(se, env)
    ensures var zeroed := se.rewrite(n, id, Zero); var diff := se.getMinus(n, zeroed);
            Carries(se, n, diff) && Congruent(Eval(diff, env), Eval(n, env) - Eval(zeroed, env), se.half)
  {
    hide Substitutes, Simplifies, TellsInvariance, WellFormed, Congruent;
  }

  lemma ReplacedByOne(se: Builders, n: SCEV, d: SCEV, env: Env)
    requires Sound(se) && WellFormed(se, n) && d.Unknown? && Suits(se, env)
    ensures Congruent(Eval(n, env), Eval(n, Assign(env, d.id, 1)) * Eval(d, env), se.half) <==>
            Exact(n, d, DivisionResult(se.rewrite(n, d.id, One), Zero), env, se.half)
    ensures Proportional(se, n, d.id) ==> Exact(n, d, DivisionResult(se.rewrite(n, d.id, One), Zero), env, se.half)
  {
    hide Sound, WellFormed, Congruent;
    Rewritten(se, n, d.id, 1, env);
    var q, x := Eval(se.rewrite(n, d.id, One), env), env.unknown(d.id);
    CongruentScaled(q, Eval(n, Assign(env, d.id, 1)), x, se.half);
    assert q * Eval(d, env) + Eval(Zero, env) == q * x;
    CongruentEither(Eval(n, env), q * x, Eval(n, Assign(env, d.id, 1)) * x, se.half);
  }

  /** Congruent numbers are congruent to the same numbers. */
  lemma CongruentEither(a: int, b: int, c: int, half: nat)
    requires half > 0 && Congruent(b, c, half)
    ensures Congruent(a, b, half) <==> Congruent(a, c, half)
  {
    hide Congruent;
    CongruentSymm(b, c, half);
    if Congruent(a, b, half) {
      CongruentTrans(a, b, c, half);
    }
    if Congruent(a, c, half) {
      CongruentTrans(a, c, b, half);
    }
  }

  lemma OnlyRemainder(se: Builders, n: SCEV, d: SCEV, env: Env)
    requires Sound(se) && WellFormed(se, n) && d.Unknown? && Suits(se, env)
    ensures Congruent(Eval(n, env), Eval(n, Assign(env, d.id, 0)), se.half) <==>
            Exact(n, d, DivisionResult(Zero, se.rewrite(n, d.id, Zero)), env, se.half)
    ensures Independent(se, n, d.id) ==> Exact(n, d, DivisionResult(Zero, se.rewrite(n, d.id, Zero)), env, se.half)
  {
    hide Sound, WellFormed, Congruent;
    Rewritten(se, n, d.id, 0, env);
    assert Eval(Zero, env) * Eval(d, env) == 0;
    CongruentEither(Eval(n, env), Eval(se.rewrite(n, d.id, Zero), env), Eval(n, Assign(env, d.id, 0)), se.half);
  }

  /** The quotient of the difference is that of the product. */
  lemma DifferenceDivided(se: Builders, n: SCEV, d: SCEV, q: SCEV, env: Env)
    requires Sound(se) && WellFormed(se, n) && d.Unknown? && Suits(se, env)
    ensures var zeroed := se.rewrite(n, d.id, Zero);
            Exact(se.getMinus(n, zeroed), d, DivisionResult(q, Zero), env, se.half) <==>
            Exact(n, d, DivisionResult(q, zeroed), env, se.half)
  {
    hide Sound, WellFormed, Congruent;
    DifferenceCarries(se, n, d.id, env);
    var zeroed := se.rewrite(n, d.id, Zero);
    var diff := se.getMinus(n, zeroed);
    var a, b, p, z := Eval(diff, env), Eval(n, env), Eval(q, env) * Eval(d, env), Eval(zeroed, env);
    CongruentSymm(a, b - z, se.half);
    CongruentSymm(z, z, se.half);
    CongruentSymm(p, a, se.half);
    CongruentSymm(p, b - z, se.half);
    CongruentEither(p, a, b - z, se.half);
    if Congruent(b - z, p, se.half) {
      CongruentSum(b - z, p, z, z, se.half);
    }
    if Congruent(b, p + z, se.half) {
      CongruentSum(b, p + z, z, z, se.half);
    }
  }

  /**
   Exactly when the division of such a product is exact: where the unknown makes the product zero, its value has to be
   proportional to the unknown; where the difference does not simplify or is not divided, it must not depend on the
   unknown; otherwise the division of the difference has to be exact.
   */
  lemma FallbackExactly(se: Builders, n: SCEV, d: SCEV, fuel: nat)
    requires Sound(se) && WellFormed(se, n) && n.Mul? && d.Unknown? && DivideByUnknown(se, n, d, fuel).Some?
    ensures var zeroed := se.rewrite(n, d.id, Zero);
            var diff := se.getMinus(n, zeroed);
            AlwaysExact(se, n, d, DivideByUnknown(se, n, d, fuel).value) <==>
              if zeroed == Zero then Proportional(se, n, d.id)
              else if SizeOf(diff) > SizeOf(n) || Divide(se, diff, d, fuel - 1).value.remainder != Zero
              then Independent(se, n, d.id)
              else AlwaysExact(se, diff, d, Divide(se, diff, d, fuel - 1).value)
  {
    hide Sound, WellFormed, Congruent, Divide, SizeOf, Exact;
    var zeroed := se.rewrite(n, d.id, Zero);
    var r := DivideByUnknown(se, n, d, fuel).value;
    forall env | Suits(se, env)
      ensures zeroed == Zero ==>
                (Exact(n, d, r, env, se.half) <==>
                 Congruent(Eval(n, env), Eval(n, Assign(env, d.id, 1)) * env.unknown(d.id), se.half))
      ensures r == DivisionResult(Zero, zeroed) ==>
                (Exact(n, d, r, env, se.half) <==> Congruent(Eval(n, env), Eval(n, Assign(env, d.id, 0)), se.half))
      ensures r.remainder == zeroed ==>
                (Exact(n, d, r, env, se.half) <==>
                 Exact(se.getMinus(n, zeroed), d, DivisionResult(r.quotient, Zero), env, se.half))
    {
      assert Eval(d, env) == env.unknown(d.id);
      ReplacedByOne(se, n, d, env);
      OnlyRemainder(se, n, d, env);
      DifferenceDivided(se, n, d, r.quotient, env);
    }
    if forall env :: Suits(se, env) ==> Congruent(Eval(n, env), Eval(n, Assign(env, d.id, 0)), se.half) {
      SameForAll(se, n, d.id);
    }
  }

  /** What has the value for zero has the same value for all. */
  lemma SameForAll(se: Builders, n: SCEV, id: nat)
    requires forall env :: Suits(se, env) ==> Congruent(Eval(n, env), Eval(n, Assign(env, id, 0)), se.half)
    ensures Independent(se, n, id)
  {
    hide Congruent;
    forall env, v | Suits(se, env)
      ensures Congruent(Eval(n, env), Eval(n, Assign(env, id, v)), se.half)
    {
      var other := Assign(env, id, v);
      assert Suits(se, other);
      SameValue(n, Assign(other, id, 0), Assign(env, id, 0));
      CongruentSymm(Eval(n, other), Eval(n, Assign(env, id, 0)), se.half);
      CongruentTrans(Eval(n, env), Eval(n, Assign(env, id, 0)), Eval(n, other), se.half);
    }
  }
}

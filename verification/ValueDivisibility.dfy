/** Divisibility of the values of expressions, under every assignment and in every iteration. */
module ValueDivisibility {
  import opened Arithmetic
  import opened ScalarEvolution
  import opened ScevDivision
  import opened WordArithmetic

  /** The product of `ds` divides the value of `e` under every assignment and in every iteration. */
  ghost predicate Divides(se: Builders, ds: seq<SCEV>, e: SCEV) {
    forall env :: Suits(se, env) ==> Divisible(Eval(e, env), Product(Values(ds, env)), se.half)
  }

  /** Some of the divisors: the product of all of them is a multiple of theirs. */
  ghost predicate Selected(se: Builders, all: seq<SCEV>, some: seq<SCEV>) {
    forall env :: Suits(se, env) ==> Divisible(Product(Values(all, env)), Product(Values(some, env)), se.half)
  }

  lemma UnitDivides(se: Builders, t: SCEV)
    ensures Divides(se, [], t) && Selected(se, [], [])
  {
    forall env | Suits(se, env)
      ensures Divisible(Eval(t, env), Product(Values([], env)), se.half)
      ensures Divisible(Product(Values([], env)), Product(Values([], env)), se.half)
    {
      assert Values([], env) == [];
      DivisibleBy(Eval(t, env), Eval(t, env), 1, se.half);
      DivisibleBy(1, 1, 1, se.half);
    }
  }

  lemma ZeroDivided(se: Builders, ds: seq<SCEV>)
    ensures Divides(se, ds, Zero)
  {
    forall env | Suits(se, env)
      ensures Divisible(Eval(Zero, env), Product(Values(ds, env)), se.half)
    {
      DivisibleBy(0, 0, Product(Values(ds, env)), se.half);
    }
  }

  lemma ItselfDivides(se: Builders, t: SCEV)
    ensures Divides(se, [t], t)
  {
    forall env | Suits(se, env)
      ensures Divisible(Eval(t, env), Product(Values([t], env)), se.half)
    {
      OneOperand(t, env);
      DivisibleBy(Eval(t, env), 1, Eval(t, env), se.half);
    }
  }

  lemma FactorsDivide(se: Builders, t: SCEV)
    requires t.Mul?
    ensures Divides(se, t.ops, t)
  {
    forall env | Suits(se, env)
      ensures Divisible(Eval(t, env), Product(Values(t.ops, env)), se.half)
    {
      EvalOps(t, env);
      DivisibleBy(Eval(t, env), 1, Eval(t, env), se.half);
    }
  }

  /** What divides an exact quotient divides the numerator together with the denominator. */
  lemma OneMoreDivisor(se: Builders, n: SCEV, d: SCEV, q: SCEV, ds: seq<SCEV>)
    requires AlwaysExact(se, n, d, DivisionResult(q, Zero)) && Divides(se, ds, q)
    ensures Divides(se, [d] + ds, n)
  {
    hide Congruent, Divisible;
    forall env | Suits(se, env)
      ensures Divisible(Eval(n, env), Product(Values([d] + ds, env)), se.half)
    {
      var x, y, z, p := Eval(n, env), Eval(q, env), Eval(d, env), Product(Values(ds, env));
      ValuesCons(d, ds, env);
      assert Exact(n, d, DivisionResult(q, Zero), env, se.half);
      assert Congruent(x, y * z, se.half);
      ProductDivisible(x, y, z, p, se.half);
    }
  }

  lemma ProductDivisible(x: int, y: int, z: int, p: int, half: Half)
    requires Congruent(x, y * z + 0, half) && Divisible(y, p, half)
    ensures Divisible(x, z * p, half)
  {
    hide Congruent;
    var k :| IsMultiple(y, k, p, half);
    CongruentScaled(y, k * p, z, half);
    Swapped(k, p, z);
    Associative(k, z, p);
    CongruentTrans(x, y * z, k * (z * p), half);
    assert IsMultiple(x, k, z * p, half);
  }

  lemma SelectedSkip(se: Builders, all: seq<SCEV>, some: seq<SCEV>, d: SCEV)
    requires Selected(se, all, some)
    ensures Selected(se, [d] + all, some)
  {
    hide Divisible;
    forall env | Suits(se, env)
      ensures Divisible(Product(Values([d] + all, env)), Product(Values(some, env)), se.half)
    {
      ValuesCons(d, all, env);
      var x, y := Product(Values(all, env)), Eval(d, env);
      DivisibleBy(y * x, y, x, se.half);
      DivisibleTrans(y * x, x, Product(Values(some, env)), se.half);
    }
  }

  lemma SelectedStep(se: Builders, all: seq<SCEV>, some: seq<SCEV>, d: SCEV)
    requires Selected(se, all, some)
    ensures Selected(se, [d] + all, [d] + some)
  {
    hide Divisible;
    forall env | Suits(se, env)
      ensures Divisible(Product(Values([d] + all, env)), Product(Values([d] + some, env)), se.half)
    {
      ValuesCons(d, all, env);
      ValuesCons(d, some, env);
      DivisibleTimes(Product(Values(all, env)), Product(Values(some, env)), Eval(d, env), se.half);
    }
  }

  lemma DivisibleTimes(x: int, y: int, z: int, half: Half)
    requires Divisible(x, y, half)
    ensures Divisible(z * x, z * y, half)
  {
    hide Congruent;
    var q :| IsMultiple(x, q, y, half);
    CongruentScaled(x, q * y, z, half);
    Associative(z, q, y);
    Swapped(1, z, q);
    Associative(q, z, y);
    assert IsMultiple(z * x, q, z * y, half);
  }

  lemma SelectedDivides(se: Builders, all: seq<SCEV>, some: seq<SCEV>, e: SCEV)
    requires Selected(se, all, some) && Divides(se, all, e)
    ensures Divides(se, some, e)
  {
    hide Divisible;
    forall env | Suits(se, env)
      ensures Divisible(Eval(e, env), Product(Values(some, env)), se.half)
    {
      DivisibleTrans(Eval(e, env), Product(Values(all, env)), Product(Values(some, env)), se.half);
    }
  }

  /** What the product of the divisors divides is divided by the expression for it. */
  lemma ProductDivides(se: Builders, ds: seq<SCEV>, e: SCEV)
    requires Sound(se) && AllFormed(se, ds) && Divides(se, ds, e)
    ensures Divides(se, [se.getMul(ds)], e)
  {
    hide Congruent, Substitutes, KeepsForm, Simplifies, TellsInvariance, KeepsInvariance, AllFormed;
    var g := se.getMul(ds);
    forall env | Suits(se, env)
      ensures Divisible(Eval(e, env), Product(Values([g], env)), se.half)
    {
      OneOperand(g, env);
      var p := Product(Values(ds, env));
      CongruentSymm(Eval(g, env), p, se.half);
      assert IsMultiple(p, 1, Eval(g, env), se.half);
      DivisibleTrans(Eval(e, env), p, Eval(g, env), se.half);
    }
  }
}

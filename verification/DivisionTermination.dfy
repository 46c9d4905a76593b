/**
 Which divisions of lib/Support/SCEVUtils.cpp end and are exact, in terms of their operands: all by constants and by
 expressions that are no unknowns, those by unknowns that stand in products only as factors, and those by products
 whose factors, one after the other, are met by such quotients.
 */
module DivisionTermination {
  import opened ScalarEvolution
  import opened ScevDivision
  import opened WordArithmetic
  import opened Wrappers

  // ---------- The bound does not matter ----------

  /** A division that has ended gives the same result with any larger bound. */
  lemma {:induction false} MoreFuel(se: Builders, n: SCEV, d: SCEV, f: nat, g: nat)
    requires Proper(d) && f <= g && Divide(se, n, d, f).Some?
    ensures Divide(se, n, d, g) == Divide(se, n, d, f)
    decreases f, d, n, 3, 0
  {
    if n == d || n == Zero || d == One {
    } else if d.Mul? {
      MoreFuelByFactors(se, n, d, 0, n, f, g);
    } else {
      hide DivideTerms, DivideProduct;
      match n
      case AddRec(ops, _) =>
        if |ops| == 2 {
          MoreFuel(se, ops[0], d, f, g);
          MoreFuel(se, ops[1], d, f, g);
        }
      case Add(ops) => MoreFuelTerms(se, n, d, |ops|, f, g);
      case Mul(ops) =>
        ProductDivision(se, n, d, f);
        ProductDivision(se, n, d, g);
        MoreFuelProduct(se, n, d, f, g);
      case _ =>
    }
  }

  lemma ProductDivision(se: Builders, n: SCEV, d: SCEV, fuel: nat)
    requires Proper(d) && n.Mul? && !d.Mul? && d != One
    ensures Divide(se, n, d, fuel) == DivideProduct(se, n, d, fuel)
    ensures Faithful(se, n, d, fuel) <==> FaithfulVisit(se, n, d, fuel)
  {
  }

  lemma {:induction false} MoreFuelProduct(se: Builders, n: SCEV, d: SCEV, f: nat, g: nat)
    requires Proper(d) && n.Mul? && f <= g && DivideProduct(se, n, d, f).Some?
    ensures DivideProduct(se, n, d, g) == DivideProduct(se, n, d, f)
    decreases f, d, n, 0, |n.ops| + 1
  {
    hide DivideFactor, DivideByUnknown;
    MoreFuelFactor(se, n, d, |n.ops|, f, g);
    if d.Unknown? && NoHit(se, n, d, f) {
      MoreFuelByUnknown(se, n, d, f, g);
    }
  }

  lemma {:induction false} MoreFuelByFactors(se: Builders, n: SCEV, d: SCEV, i: nat, q: SCEV, f: nat, g: nat)
    requires Proper(d) && d.Mul? && i <= |d.ops| && f <= g && DivideByFactors(se, n, d, i, q, f).Some?
    ensures DivideByFactors(se, n, d, i, q, g) == DivideByFactors(se, n, d, i, q, f)
    decreases f, d, n, 2, |d.ops| - i
  {
    hide Divide;
    if i < |d.ops| {
      MoreFuel(se, q, d.ops[i], f, g);
      var r := Divide(se, q, d.ops[i], f).value;
      if r.remainder == Zero {
        MoreFuelByFactors(se, n, d, i + 1, r.quotient, f, g);
      }
    }
  }

  lemma {:induction false} MoreFuelTerms(se: Builders, n: SCEV, d: SCEV, k: nat, f: nat, g: nat)
    requires Proper(d) && n.Add? && k <= |n.ops| && f <= g && DivideTerms(se, n, d, k, f).Some?
    ensures DivideTerms(se, n, d, k, g) == DivideTerms(se, n, d, k, f)
    decreases f, d, n, 0, k
  {
    hide Divide;
    if k > 0 {
      MoreFuelTerms(se, n, d, k - 1, f, g);
      MoreFuel(se, n.ops[k - 1], d, f, g);
    }
  }

  lemma {:induction false} MoreFuelFactor(se: Builders, n: SCEV, d: SCEV, k: nat, f: nat, g: nat)
    requires Proper(d) && n.Mul? && k <= |n.ops| && f <= g && DivideFactor(se, n, d, k, f).Some?
    ensures DivideFactor(se, n, d, k, g) == DivideFactor(se, n, d, k, f)
    decreases f, d, n, 0, k
  {
    hide Divide;
    if k > 0 {
      MoreFuelFactor(se, n, d, k - 1, f, g);
      if !DivideFactor(se, n, d, k - 1, f).value.0 {
        MoreFuel(se, n.ops[k - 1], d, f, g);
      }
    }
  }

  lemma {:induction false} MoreFuelByUnknown(se: Builders, n: SCEV, d: SCEV, f: nat, g: nat)
    requires n.Mul? && d.Unknown? && f <= g && DivideByUnknown(se, n, d, f).Some?
    ensures DivideByUnknown(se, n, d, g) == DivideByUnknown(se, n, d, f)
    decreases f, d, n, 0, 0
  {
    hide Divide, SizeOf;
    var zeroed := se.rewrite(n, d.id, Zero);
    var diff := se.getMinus(n, zeroed);
    if zeroed != Zero && SizeOf(diff) <= SizeOf(n) {
      MoreFuel(se, diff, d, f - 1, g - 1);
    }
  }

  // ---------- Numerators that fit their denominator ----------

  /** Inside sums and recurrences the unknown stands in products only as one of their factors. */
  predicate Direct(n: SCEV, id: nat) {
    match n
    case Add(ops) => forall i :: 0 <= i < |ops| ==> Direct(ops[i], id)
    case AddRec(ops, _) => |ops| == 2 ==> Direct(ops[0], id) && Direct(ops[1], id)
    case Mul(ops) => forall i :: 0 <= i < |ops| ==> ops[i] == Unknown(id) || !Occurs(id, ops[i])
    case _ => true
  }

  /** The numerator, and for a product also the quotients by its factors in front, fit the denominator. */
  predicate Fits(se: Builders, n: SCEV, d: SCEV)
    requires Proper(d)
    decreases d, 1, 0
  {
    if d.Mul? then FitsFrom(se, d, 0, n) else d.Unknown? ==> Direct(n, d.id)
  }

  predicate FitsFrom(se: Builders, d: SCEV, i: nat, q: SCEV)
    requires Proper(d) && d.Mul? && i <= |d.ops|
    decreases d, 0, |d.ops| - i
  {
    i < |d.ops| ==>
      && Fits(se, q, d.ops[i])
      && var r := Divide(se, q, d.ops[i], 1);
         r.Some? && r.value.remainder == Zero ==> FitsFrom(se, d, i + 1, r.value.quotient)
  }

  lemma {:induction false} AbsentIsDirect(n: SCEV, id: nat)
    requires !Occurs(id, n)
    ensures Direct(n, id)
  {
    match n
    case Add(ops) =>
      forall i | 0 <= i < |ops|
        ensures Direct(ops[i], id)
      {
        AbsentIsDirect(ops[i], id);
      }
    case AddRec(ops, _) =>
      if |ops| == 2 {
        AbsentIsDirect(ops[0], id);
        AbsentIsDirect(ops[1], id);
      }
    case _ =>
  }

  /** The division has a result, at most one difference being divided, and it can be trusted. */
  ghost predicate Works(se: Builders, n: SCEV, d: SCEV)
    requires Proper(d)
  {
    Divide(se, n, d, 1).Some? && Faithful(se, n, d, 1)
  }

  lemma {:induction false} SingleWorks(se: Builders, n: SCEV, d: SCEV)
    requires Sound(se) && Proper(d) && !d.Mul? && (d.Unknown? ==> Direct(n, d.id))
    ensures Works(se, n, d)
    decreases n, 1, 0
  {
    hide Sound, DivideTerms, DivideFactor, DivideByUnknown, Hit;
    if n != d && n != Zero && d != One {
      match n
      case AddRec(ops, _) =>
        if |ops| == 2 {
          SingleWorks(se, ops[0], d);
          SingleWorks(se, ops[1], d);
        }
        RecurrenceWorks(se, n, d);
      case Add(ops) =>
        forall i | 0 <= i < |ops|
          ensures Works(se, ops[i], d)
        {
          SingleWorks(se, ops[i], d);
        }
        SumWorks(se, n, d);
      case Mul(ops) =>
        forall i | 0 <= i < |ops|
          ensures Works(se, ops[i], d)
        {
          if d.Unknown? && ops[i] != d {
            AbsentIsDirect(ops[i], d.id);
          }
          SingleWorks(se, ops[i], d);
        }
        ProductDivision(se, n, d, 1);
        ProductWorks(se, n, d);
      case _ =>
        LeafWorks(se, n, d);
    }
  }

  lemma LeafWorks(se: Builders, n: SCEV, d: SCEV)
    requires Proper(d) && !d.Mul? && !n.AddRec? && !n.Add? && !n.Mul?
    ensures Works(se, n, d)
  {
    assert Visit(se, n, d, 1).Some? && FaithfulVisit(se, n, d, 1);
  }

  lemma ProductWorks(se: Builders, n: SCEV, d: SCEV)
    requires Sound(se) && Proper(d) && n.Mul? && (d.Unknown? ==> Direct(n, d.id))
    requires forall i :: 0 <= i < |n.ops| ==> Works(se, n.ops[i], d)
    ensures DivideProduct(se, n, d, 1).Some? && FaithfulVisit(se, n, d, 1)
  {
    hide Sound, Divide, DivideFactor, DivideByUnknown, Faithful, FaithfulByUnknown, Hit;
    FactorsWork(se, n, d, |n.ops|);
    assert n.ops[..|n.ops|] == n.ops;
    if d.Unknown? {
      AbsentWorks(se, n, d);
    }
  }

  lemma RecurrenceWorks(se: Builders, n: SCEV, d: SCEV)
    requires Proper(d) && !d.Mul? && n.AddRec? && (|n.ops| == 2 ==> Works(se, n.ops[0], d) && Works(se, n.ops[1], d))
    ensures Works(se, n, d)
  {
    assert Visit(se, n, d, 1).Some? && FaithfulVisit(se, n, d, 1);
  }

  lemma SumWorks(se: Builders, n: SCEV, d: SCEV)
    requires Proper(d) && !d.Mul? && n.Add? && forall i :: 0 <= i < |n.ops| ==> Works(se, n.ops[i], d)
    ensures Works(se, n, d)
  {
    hide DivideTerms, DivideFactor, DivideByUnknown, FaithfulByUnknown, Hit;
    TermsWork(se, n, d, |n.ops|);
    assert FaithfulVisit(se, n, d, 1);
    assert d != One && n != d ==> Divide(se, n, d, 1) == Visit(se, n, d, 1);
  }

  lemma {:induction false} TermsWork(se: Builders, n: SCEV, d: SCEV, k: nat)
    requires Proper(d) && n.Add? && k <= |n.ops| && forall i :: 0 <= i < |n.ops| ==> Divide(se, n.ops[i], d, 1).Some?
    ensures DivideTerms(se, n, d, k, 1).Some?
  {
    hide Divide;
    if k > 0 {
      TermsWork(se, n, d, k - 1);
    }
  }

  lemma {:induction false} FactorsWork(se: Builders, n: SCEV, d: SCEV, k: nat)
    requires Proper(d) && n.Mul? && k <= |n.ops| && forall i :: 0 <= i < |n.ops| ==> Divide(se, n.ops[i], d, 1).Some?
    ensures var r := DivideFactor(se, n, d, k, 1); r.Some? && (!r.value.0 ==> d !in n.ops[..k])
  {
    hide Divide;
    if k > 0 {
      FactorsWork(se, n, d, k - 1);
      assert n.ops[..k] == n.ops[..k - 1] + [n.ops[k - 1]];
      DivideItself(se, d);
    }
  }

  lemma DivideItself(se: Builders, d: SCEV)
    requires Proper(d)
    ensures Divide(se, d, d, 1) == Some(DivisionResult(One, Zero))
  {
  }

  /** Replacing an unknown that does not occur leaves the difference zero. */
  lemma AbsentWorks(se: Builders, n: SCEV, d: SCEV)
    requires Sound(se) && n.Mul? && d.Unknown? && Direct(n, d.id)
    requires NoHit(se, n, d, 1) ==> d !in n.ops
    ensures FaithfulByUnknown(se, n, d, 1) && (NoHit(se, n, d, 1) ==> DivideByUnknown(se, n, d, 1).Some?)
  {
    hide KeepsValues, KeepsForm, Substitutes, TellsInvariance, KeepsInvariance, NoHit;
    if NoHit(se, n, d, 1) {
      assert forall i :: 0 <= i < |n.ops| ==> n.ops[i] in n.ops;
      assert !Occurs(d.id, n);
      ZeroSize();
      assert Divide(se, Zero, d, 0) == Some(DivisionResult(Zero, Zero));
    }
  }

  lemma ZeroSize()
    ensures SizeOf(Zero) == 1
  {
    assert Nodes(Zero) == {Zero};
  }

  lemma {:induction false} FitsWorks(se: Builders, n: SCEV, d: SCEV)
    requires Sound(se) && Proper(d) && Fits(se, n, d)
    ensures Works(se, n, d)
    decreases d, 1, 0
  {
    if d.Mul? {
      FactorsFit(se, n, d, 0, n);
    } else {
      SingleWorks(se, n, d);
    }
  }

  lemma {:induction false} FactorsFit(se: Builders, n: SCEV, d: SCEV, i: nat, q: SCEV)
    requires Sound(se) && Proper(d) && d.Mul? && i <= |d.ops| && FitsFrom(se, d, i, q)
    ensures DivideByFactors(se, n, d, i, q, 1).Some? && FaithfulFactors(se, n, d, i, q, 1)
    decreases d, 0, |d.ops| - i
  {
    hide Sound, Divide, Faithful;
    if i < |d.ops| {
      FitsWorks(se, q, d.ops[i]);
      var r := Divide(se, q, d.ops[i], 1).value;
      if r.remainder == Zero {
        FactorsFit(se, n, d, i + 1, r.quotient);
      }
    }
  }

  /** The division of a numerator that fits ends, with the same result for every bound, and that is exact. */
  lemma FittingRight(se: Builders, n: SCEV, d: SCEV, fuel: nat, env: Env)
    requires Sound(se) && WellFormed(se, n) && Proper(d) && Fits(se, n, d) && fuel > 0 && Suits(se, env)
    ensures Divide(se, n, d, fuel).Some? && Divide(se, n, d, fuel) == Divide(se, n, d, 1)
    ensures Right(se, n, d, Divide(se, n, d, fuel).value, env)
  {
    hide Sound, WellFormed, Divide, Faithful, Fits, Right;
    FitsWorks(se, n, d);
    MoreFuel(se, n, d, 1, fuel);
    DivideRight(se, n, d, 1, env);
  }

  // ---------- Expressions in expanded form ----------

  predicate Atom(e: SCEV) {
    e.Constant? || e.Unknown?
  }

  /** A constant, an unknown, or a product of these. */
  predicate Monomial(e: SCEV) {
    Atom(e) || (e.Mul? && e.ops != [] && forall i :: 0 <= i < |e.ops| ==> Atom(e.ops[i]))
  }

  /**
   Affine recurrences, of any loops, over products of constants and unknowns and whatever stands outside products; with
   `sums` also sums of these.
   */
  predicate Expanded(e: SCEV, sums: bool) {
    match e
    case Add(ops) => sums && forall i :: 0 <= i < |ops| ==> Expanded(ops[i], sums)
    case AddRec(ops, _) => |ops| == 2 && Expanded(ops[0], sums) && Expanded(ops[1], sums)
    case Mul(ops) => Monomial(e)
    case _ => true
  }

  /** Products of constants and unknowns are constants, unknowns, or products of these. */
  ghost predicate KeepsProducts(se: Builders) {
    forall ops {:trigger se.getMul(ops)} ::
      ops != [] && (forall i :: 0 <= i < |ops| ==> Atom(ops[i])) ==> Monomial(se.getMul(ops))
  }

  /** Moreover recurrences and, with `sums`, sums stay expanded. */
  ghost predicate KeepsExpanded(se: Builders, sums: bool) {
    && KeepsProducts(se)
    && (forall s, t, loop {:trigger se.getAddRec(s, t, loop)} ::
          RecurrenceOperands(se, s, t, loop) && Expanded(s, sums) && Expanded(t, sums) ==>
          Expanded(se.getAddRec(s, t, loop), sums))
    && (sums ==> forall ops {:trigger se.getAdd(ops)} ::
          AllFormed(se, ops) && (forall i :: 0 <= i < |ops| ==> Expanded(ops[i], sums)) ==> Expanded(se.getAdd(ops), sums))
  }

  /** The same with sums in any case, but unless `sums` no recurrence is a term of a sum. */
  predicate Layered(e: SCEV, sums: bool) {
    match e
    case Add(ops) => forall i :: 0 <= i < |ops| ==> Layered(ops[i], sums) && (sums || RecurrenceFree(ops[i]))
    case AddRec(ops, _) => |ops| == 2 && Layered(ops[0], sums) && Layered(ops[1], sums)
    case Mul(ops) => Monomial(e)
    case _ => true
  }

  ghost predicate KeepsLayered(se: Builders, sums: bool) {
    && KeepsProducts(se)
    && (forall s, t, loop {:trigger se.getAddRec(s, t, loop)} ::
          RecurrenceOperands(se, s, t, loop) && Layered(s, sums) && Layered(t, sums) ==>
          Layered(se.getAddRec(s, t, loop), sums))
    && (sums ==> forall ops {:trigger se.getAdd(ops)} ::
          AllFormed(se, ops) && (forall i :: 0 <= i < |ops| ==> Layered(ops[i], sums)) ==> Layered(se.getAdd(ops), sums))
  }

  lemma {:induction false} ExpandedIsDirect(n: SCEV, sums: bool, id: nat)
    requires Expanded(n, sums)
    ensures Direct(n, id)
  {
    match n
    case Add(ops) =>
      forall i | 0 <= i < |ops|
        ensures Direct(ops[i], id)
      {
        ExpandedIsDirect(ops[i], sums, id);
      }
    case AddRec(ops, _) =>
      ExpandedIsDirect(ops[0], sums, id);
      ExpandedIsDirect(ops[1], sums, id);
    case _ =>
  }

  /** Whatever is built, expressions in expanded form fit every constant and every unknown. */
  lemma ExpandedFitsAtom(se: Builders, n: SCEV, sums: bool, d: SCEV)
    requires Expanded(n, sums) && Proper(d) && Atom(d)
    ensures Fits(se, n, d)
  {
    if d.Unknown? {
      ExpandedIsDirect(n, sums, d.id);
    }
  }

  // ---------- Quotients of expressions in expanded form ----------

  lemma {:induction false} FactorAtoms(se: Builders, n: SCEV, d: SCEV, k: nat)
    requires Proper(d) && Atom(d) && n.Mul? && Monomial(n) && k <= |n.ops| && DivideFactor(se, n, d, k, 1).Some?
    ensures forall i :: 0 <= i < k ==> Atom(DivideFactor(se, n, d, k, 1).value.1[i])
  {
    hide Divide;
    if k > 0 {
      FactorAtoms(se, n, d, k - 1);
      AtomQuotient(se, n.ops[k - 1], d);
    }
  }

  lemma AtomQuotient(se: Builders, n: SCEV, d: SCEV)
    requires Proper(d) && Atom(n) && Atom(d)
    ensures var r := Divide(se, n, d, 1); r.Some? && Atom(r.value.quotient)
  {
  }

  /** The quotient of a product by a constant or an unknown is a product again, or zero. */
  lemma ProductQuotient(se: Builders, n: SCEV, d: SCEV)
    requires Sound(se) && KeepsProducts(se) && n.Mul? && Monomial(n) && Proper(d) && Atom(d) && d != One
    ensures Divide(se, n, d, 1).Some? && Monomial(Divide(se, n, d, 1).value.quotient)
  {
    hide Sound, KeepsProducts, DivideFactor, DivideByUnknown, Divide;
    ProductDivision(se, n, d, 1);
    forall i | 0 <= i < |n.ops|
      ensures Divide(se, n.ops[i], d, 1).Some?
    {
      AtomQuotient(se, n.ops[i], d);
    }
    FactorsWork(se, n, d, |n.ops|);
    assert n.ops[..|n.ops|] == n.ops;
    FactorAtoms(se, n, d, |n.ops|);
    var (found, qs) := DivideFactor(se, n, d, |n.ops|, 1).value;
    if found {
      ProductOfAtoms(se, qs);
    } else if d.Unknown? {
      AbsentQuotient(se, n, d);
    }
  }

  lemma ProductOfAtoms(se: Builders, ops: seq<SCEV>)
    requires KeepsProducts(se) && ops != [] && forall i :: 0 <= i < |ops| ==> Atom(ops[i])
    ensures Monomial(se.getMul(ops))
  {
  }

  /** For an unknown that is none of the factors the quotient is zero. */
  lemma AbsentQuotient(se: Builders, n: SCEV, d: SCEV)
    requires Sound(se) && n.Mul? && Monomial(n) && d.Unknown? && d !in n.ops
    ensures DivideByUnknown(se, n, d, 1) == Some(DivisionResult(Zero, n))
  {
    hide KeepsValues, KeepsForm, Substitutes, TellsInvariance, KeepsInvariance;
    assert forall i :: 0 <= i < |n.ops| ==> n.ops[i] in n.ops;
    assert !Occurs(d.id, n);
    ZeroSize();
    assert Divide(se, Zero, d, 0) == Some(DivisionResult(Zero, Zero));
  }

  lemma MonomialQuotient(se: Builders, n: SCEV, d: SCEV)
    requires Sound(se) && KeepsProducts(se) && Monomial(n) && Proper(d) && Atom(d)
    ensures Works(se, n, d) && Monomial(Divide(se, n, d, 1).value.quotient)
  {
    hide Sound, KeepsProducts, Divide, Faithful;
    ExpandedFitsAtom(se, n, false, d);
    FitsWorks(se, n, d);
    if Atom(n) {
      AtomQuotient(se, n, d);
    } else if d == One {
      DivideByOne(se, n);
    } else {
      ProductQuotient(se, n, d);
    }
  }

  lemma DivideByOne(se: Builders, n: SCEV)
    requires n != One && n != Zero
    ensures Divide(se, n, One, 1) == Some(DivisionResult(n, Zero))
  {
  }

  /** The quotient of an expression in expanded form by a constant or an unknown is one again, whatever remains. */
  lemma {:induction false} ExpandedQuotient(se: Builders, n: SCEV, d: SCEV, sums: bool)
    requires Sound(se) && KeepsExpanded(se, sums) && WellFormed(se, n) && Expanded(n, sums) && Proper(d) && Atom(d)
    ensures Works(se, n, d)
    ensures var q := Divide(se, n, d, 1).value.quotient; Expanded(q, sums) && Carries(se, n, q)
    decreases n, 1, 0
  {
    hide Sound, KeepsExpanded, DivideTerms, DivideFactor, DivideByUnknown, DivideConstants, Faithful, Carries;
    ExpandedFitsAtom(se, n, sums, d);
    FitsWorks(se, n, d);
    QuotientCarries(se, n, d);
    if n != d && n != Zero && d != One {
      match n
      case Constant(_) =>
        AtomQuotient(se, n, d);
      case AddRec(ops, loop) =>
        PartsFormed(se, n);
        ExpandedQuotient(se, ops[0], d, sums);
        ExpandedQuotient(se, ops[1], d, sums);
        RecurrenceExpanded(se, n, Divide(se, ops[0], d, 1).value.quotient, Divide(se, ops[1], d, 1).value.quotient, sums);
      case Add(ops) =>
        PartsFormed(se, n);
        TermsExpanded(se, n, d, |ops|, sums);
        SumExpanded(se, n, DivideTerms(se, n, d, |ops|, 1).value.0, sums);
      case Mul(ops) =>
        KeptProducts(se, sums);
        MonomialQuotient(se, n, d);
      case _ =>
    }
  }

  lemma QuotientCarries(se: Builders, n: SCEV, d: SCEV)
    requires Sound(se) && WellFormed(se, n) && Proper(d) && Works(se, n, d)
    ensures Carries(se, n, Divide(se, n, d, 1).value.quotient)
  {
    hide Sound, Carries, Divide, Faithful;
    DivideRight(se, n, d, 1, Env(_ => 0, _ => 0, se.operations));
  }

  lemma KeptProducts(se: Builders, sums: bool)
    requires KeepsExpanded(se, sums)
    ensures KeepsProducts(se)
  {
  }

  lemma PartsFormed(se: Builders, n: SCEV)
    requires WellFormed(se, n) && (n.Add? || n.AddRec?)
    ensures forall i :: 0 <= i < |n.ops| ==> WellFormed(se, n.ops[i])
  {
  }

  lemma RecurrenceExpanded(se: Builders, n: SCEV, s: SCEV, t: SCEV, sums: bool)
    requires Sound(se) && KeepsExpanded(se, sums) && WellFormed(se, n) && n.AddRec? && |n.ops| == 2
    requires Carries(se, n.ops[0], s) && Carries(se, n.ops[1], t) && Expanded(s, sums) && Expanded(t, sums)
    ensures Expanded(se.getAddRec(s, t, n.loop), sums)
  {
    hide Sound, WellFormed, Expanded;
    OperandsStay(se, n);
  }

  lemma {:induction false} TermsExpanded(se: Builders, n: SCEV, d: SCEV, k: nat, sums: bool)
    requires Sound(se) && KeepsExpanded(se, sums) && WellFormed(se, n) && Expanded(n, sums) && Proper(d) && Atom(d)
    requires n.Add? && k <= |n.ops| && DivideTerms(se, n, d, k, 1).Some?
    ensures var qs := DivideTerms(se, n, d, k, 1).value.0;
            AllCarry(se, n, qs) && forall i :: 0 <= i < k ==> Expanded(qs[i], sums)
    decreases n, 0, k
  {
    hide Sound, KeepsExpanded, Divide, Faithful, Carries;
    if k > 0 {
      PartsFormed(se, n);
      TermsExpanded(se, n, d, k - 1, sums);
      ExpandedQuotient(se, n.ops[k - 1], d, sums);
      OperandCarries(se, n, k - 1, Divide(se, n.ops[k - 1], d, 1).value.quotient);
    }
  }

  lemma SumExpanded(se: Builders, n: SCEV, qs: seq<SCEV>, sums: bool)
    requires KeepsExpanded(se, sums) && sums && qs != [] && AllCarry(se, n, qs)
    requires forall i :: 0 <= i < |qs| ==> Expanded(qs[i], sums)
    ensures Expanded(se.getAdd(qs), sums)
  {
    hide WellFormed, Expanded;
    CarriedForms(se, n, qs);
  }

  // ---------- Denominators that are products of constants and unknowns ----------

  lemma {:induction false} ExpandedFitsFrom(se: Builders, d: SCEV, i: nat, q: SCEV, sums: bool)
    requires Sound(se) && KeepsExpanded(se, sums) && WellFormed(se, q) && Expanded(q, sums)
    requires Proper(d) && d.Mul? && Monomial(d) && i <= |d.ops|
    ensures FitsFrom(se, d, i, q)
    decreases |d.ops| - i
  {
    hide Sound, KeepsExpanded, WellFormed, Expanded, Divide, Direct, Faithful;
    if i < |d.ops| {
      ExpandedFitsAtom(se, q, sums, d.ops[i]);
      ExpandedQuotient(se, q, d.ops[i], sums);
      ExpandedFitsFrom(se, d, i + 1, Divide(se, q, d.ops[i], 1).value.quotient, sums);
    }
  }

  /** Expressions in expanded form fit every product of constants and unknowns. */
  lemma ExpandedFits(se: Builders, n: SCEV, d: SCEV, sums: bool)
    requires Sound(se) && KeepsExpanded(se, sums) && WellFormed(se, n) && Expanded(n, sums) && Monomial(d) && Proper(d)
    ensures Fits(se, n, d)
  {
    if d.Mul? {
      ExpandedFitsFrom(se, d, 0, n, sums);
    } else {
      ExpandedFitsAtom(se, n, sums, d);
    }
  }

  /**
   On expressions in expanded form, with a constant, an unknown or a product of these as denominator, `divide` ends with
   the same result for every bound, and the value of the numerator is the quotient times the denominator plus the
   remainder.
   */
  lemma ExpandedRight(se: Builders, n: SCEV, d: SCEV, sums: bool, fuel: nat, env: Env)
    requires Sound(se) && KeepsExpanded(se, sums) && WellFormed(se, n) && Expanded(n, sums) && Monomial(d) && Proper(d)
    requires fuel > 0 && Suits(se, env)
    ensures Divide(se, n, d, fuel).Some? && Divide(se, n, d, fuel) == Divide(se, n, d, 1)
    ensures Exact(n, d, Divide(se, n, d, fuel).value, env, se.half)
  {
    hide Sound, KeepsExpanded, WellFormed, Expanded, Divide, Fits, Exact;
    ExpandedFits(se, n, d, sums);
    FittingRight(se, n, d, fuel, env);
  }
}

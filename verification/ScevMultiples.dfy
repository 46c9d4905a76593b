/**
 Which divisions of lib/Support/SCEVUtils.cpp have no remainder: those of multiples of the denominator, of sums of these
 and of affine recurrences over them.
 */
module ScevMultiples {
  import opened DivisionTermination
  import opened ScalarEvolution
  import opened ScevDivision
  import opened WordArithmetic
  import opened Wrappers

  // ---------- Multiples of a denominator that is no product ----------

  /** A multiple by its form: a factor of every product is the denominator, or a constant that it divides. */
  predicate MultipleOf(n: SCEV, d: SCEV)
    requires Proper(d)
  {
    n == d || n == Zero || d == One
    || match n
       case Constant(v) => d.Constant? && v % d.v == 0
       case Add(ops) => ops != [] && forall i :: 0 <= i < |ops| ==> MultipleOf(ops[i], d)
       case AddRec(ops, _) => |ops| == 2 && MultipleOf(ops[0], d) && MultipleOf(ops[1], d)
       case Mul(ops) => exists i :: 0 <= i < |ops| && MultipleOf(ops[i], d)
       case _ => false
  }

  predicate AllZero(ops: seq<SCEV>) {
    forall i :: 0 <= i < |ops| ==> ops[i] == Zero
  }

  /** Sums of zeros and recurrences over zeros are zero. */
  ghost predicate KeepsZero(se: Builders) {
    && (forall ops {:trigger se.getAdd(ops)} :: ops != [] && AllZero(ops) ==> se.getAdd(ops) == Zero)
    && forall loop :: se.getAddRec(Zero, Zero, loop) == Zero
  }

  /** The division has no remainder, if it ends. */
  predicate NoRemainder(se: Builders, n: SCEV, d: SCEV, fuel: nat)
    requires Proper(d)
  {
    var r := Divide(se, n, d, fuel);
    r.Some? ==> r.value.remainder == Zero
  }

  lemma {:induction false} MultipleDivided(se: Builders, n: SCEV, d: SCEV, fuel: nat)
    requires KeepsZero(se) && Proper(d) && !d.Mul? && MultipleOf(n, d)
    ensures NoRemainder(se, n, d, fuel)
    decreases n, 1, 0
  {
    hide KeepsZero, DivideTerms, DivideFactor, DivideByUnknown, NoRemainder;
    if n == d || n == Zero || d == One {
      TrivialMultiple(se, n, d, fuel);
    } else {
      match n {
        case Constant(v) => ConstantMultiple(se, v, d.v, fuel);
        case AddRec(ops, loop) =>
          MultipleDivided(se, ops[0], d, fuel);
          MultipleDivided(se, ops[1], d, fuel);
          RecurrenceMultiple(se, n, d, fuel);
        case Add(ops) =>
          TermsMultiple(se, n, d, |ops|, fuel);
          SumMultiple(se, n, d, fuel);
        case Mul(ops) =>
          var i :| 0 <= i < |ops| && MultipleOf(ops[i], d);
          MultipleDivided(se, ops[i], d, fuel);
          FactorMultiple(se, n, d, i, |ops|, fuel);
          ProductMultiple(se, n, d, fuel);
      }
    }
  }

  lemma TrivialMultiple(se: Builders, n: SCEV, d: SCEV, fuel: nat)
    requires Proper(d) && (n == d || n == Zero || d == One)
    ensures NoRemainder(se, n, d, fuel)
  {
  }

  lemma ConstantMultiple(se: Builders, n: int, d: int, fuel: nat)
    requires d != 0 && n % d == 0
    ensures NoRemainder(se, Constant(n), Constant(d), fuel)
  {
    hide Rounded, Truncated;
    TruncatedRounds(n, d);
    RoundedExactly(n, d, n - Truncated(n, d) * d);
    SignedSmall(0, se.half);
    assert DivideConstants(n, d, se.half).remainder == Zero;
    assert Constant(n) != Constant(d) && n != 0 && d != 1 ==>
             Divide(se, Constant(n), Constant(d), fuel) == Visit(se, Constant(n), Constant(d), fuel);
  }

  lemma RecurrenceMultiple(se: Builders, n: SCEV, d: SCEV, fuel: nat)
    requires KeepsZero(se) && Proper(d) && !d.Mul? && n.AddRec? && |n.ops| == 2
    requires NoRemainder(se, n.ops[0], d, fuel) && NoRemainder(se, n.ops[1], d, fuel)
    ensures NoRemainder(se, n, d, fuel)
  {
    assert n != d && d != One ==> Divide(se, n, d, fuel) == Visit(se, n, d, fuel);
  }

  lemma {:induction false} TermsMultiple(se: Builders, n: SCEV, d: SCEV, k: nat, fuel: nat)
    requires KeepsZero(se) && Proper(d) && !d.Mul? && n.Add? && k <= |n.ops|
    requires forall i :: 0 <= i < |n.ops| ==> MultipleOf(n.ops[i], d)
    ensures var r := DivideTerms(se, n, d, k, fuel); r.Some? ==> AllZero(r.value.1)
    decreases n, 0, k
  {
    hide KeepsZero, Divide, MultipleOf;
    if k > 0 {
      TermsMultiple(se, n, d, k - 1, fuel);
      MultipleDivided(se, n.ops[k - 1], d, fuel);
    }
  }

  lemma SumMultiple(se: Builders, n: SCEV, d: SCEV, fuel: nat)
    requires KeepsZero(se) && Proper(d) && !d.Mul? && n.Add? && n.ops != []
    requires var r := DivideTerms(se, n, d, |n.ops|, fuel); r.Some? ==> AllZero(r.value.1)
    ensures NoRemainder(se, n, d, fuel)
  {
    hide DivideTerms;
    assert n != d && d != One ==> Divide(se, n, d, fuel) == Visit(se, n, d, fuel);
  }

  /** A factor without a remainder is found, if no other one has been found in front of it. */
  lemma {:induction false} FactorMultiple(se: Builders, n: SCEV, d: SCEV, i: nat, k: nat, fuel: nat)
    requires Proper(d) && !d.Mul? && n.Mul? && i < k <= |n.ops| && NoRemainder(se, n.ops[i], d, fuel)
    ensures var r := DivideFactor(se, n, d, k, fuel); r.Some? ==> r.value.0
    decreases k
  {
    hide Divide;
    if i < k - 1 {
      FactorMultiple(se, n, d, i, k - 1, fuel);
    }
  }

  lemma ProductMultiple(se: Builders, n: SCEV, d: SCEV, fuel: nat)
    requires Proper(d) && !d.Mul? && n.Mul? && d != One
    requires var r := DivideFactor(se, n, d, |n.ops|, fuel); r.Some? ==> r.value.0
    ensures NoRemainder(se, n, d, fuel)
  {
    hide DivideFactor, DivideByUnknown;
    ProductDivision(se, n, d, fuel);
  }

  /** A multiple that fits the denominator is divided without a remainder. */
  lemma FittingMultiple(se: Builders, n: SCEV, d: SCEV, fuel: nat)
    requires Sound(se) && KeepsZero(se) && Proper(d) && !d.Mul? && MultipleOf(n, d) && Fits(se, n, d) && fuel > 0
    ensures var r := Divide(se, n, d, fuel); r.Some? && r.value.remainder == Zero
  {
    hide Sound, KeepsZero, Divide, Fits, Faithful, MultipleOf;
    FitsWorks(se, n, d);
    MoreFuel(se, n, d, 1, fuel);
    MultipleDivided(se, n, d, fuel);
  }

  // ---------- The factors of a product ----------

  /** How often an unknown is a factor. */
  function Times(e: SCEV, u: SCEV): nat {
    if e.Mul? then multiset(e.ops)[u] else if e == u then 1 else 0
  }

  predicate Word(v: int, half: nat) {
    v != 0 && -(half as int) <= v < half
  }

  /** A constant, an unknown, or a product of unknowns with at most one constant, which comes first; none is zero. */
  predicate Term(e: SCEV, half: nat) {
    match e
    case Constant(v) => Word(v, half)
    case Unknown(_) => true
    case Mul(ops) =>
      && ops != [] && (ops[0].Unknown? || (ops[0].Constant? && Word(ops[0].v, half) && ops[0] != One))
      && forall i :: 1 <= i < |ops| ==> ops[i].Unknown?
    case _ => false
  }

  predicate HasConstant(e: SCEV) {
    e.Constant? || (e.Mul? && e.ops != [] && e.ops[0].Constant?)
  }

  /** The constant factor. */
  function Part(e: SCEV): int {
    if e.Constant? then e.v else if e.Mul? && e.ops != [] && e.ops[0].Constant? then e.ops[0].v else 1
  }

  /** Constants and unknowns with at most one constant that is neither zero nor one. */
  predicate Foldable(ops: seq<SCEV>, half: nat) {
    && ops != [] && (forall i :: 0 <= i < |ops| ==> Atom(ops[i]) && (ops[i].Constant? ==> Word(ops[i].v, half)))
    && forall i, j :: 0 <= i < j < |ops| && ops[i].Constant? && ops[j].Constant? ==> ops[i] == One || ops[j] == One
  }

  /** The constant among the operands. */
  predicate PartOf(ops: seq<SCEV>, c: int) {
    (c == 1 || Constant(c) in ops) && forall i :: 0 <= i < |ops| && ops[i].Constant? ==> ops[i].v == c || ops[i] == One
  }

  /** Products are built with these factors. */
  ghost predicate KeepsTerms(se: Builders) {
    && se.half > 1
    && forall ops {:trigger se.getMul(ops)} :: Foldable(ops, se.half) ==> HoldsFactors(se.getMul(ops), ops, se.half)
  }

  ghost predicate HoldsFactors(p: SCEV, ops: seq<SCEV>, half: nat) {
    && Term(p, half) && (forall u: SCEV :: u.Unknown? ==> Times(p, u) == multiset(ops)[u])
    && forall c :: PartOf(ops, c) ==> Part(p) == c
  }

  lemma AtomDivision(se: Builders, n: SCEV, d: SCEV)
    requires Proper(d) && Atom(n) && Atom(d) && n != Zero
    ensures var r := Divide(se, n, d, 1);
            && r.Some? && (d.Unknown? ==> (r.value.remainder == Zero <==> n == d))
            && (d.Unknown? && n == d ==> r.value.quotient == One)
            && (d.Constant? && n.Unknown? ==> r.value == if d == One then DivisionResult(n, Zero) else CannotDivide(n))
  {
  }

  /** The factors with the first one that is the unknown replaced by one. */
  lemma {:induction false} UnknownReplaced(se: Builders, n: SCEV, u: SCEV, k: nat)
    requires n.Mul? && Monomial(n) && Zero !in n.ops && u.Unknown? && k <= |n.ops|
    ensures DivideFactor(se, n, u, k, 1).Some?
    ensures var (found, qs) := DivideFactor(se, n, u, k, 1).value;
            if found then exists i :: 0 <= i < k && n.ops[i] == u && qs == n.ops[..k][i := One]
            else qs == n.ops[..k] && u !in n.ops[..k]
  {
    hide Divide;
    if k > 0 {
      UnknownReplaced(se, n, u, k - 1);
      var op := n.ops[k - 1];
      AtomDivision(se, op, u);
      assert n.ops[..k] == n.ops[..k - 1] + [op];
      var (found, qs) := DivideFactor(se, n, u, k - 1, 1).value;
      if found {
        var i :| 0 <= i < k - 1 && n.ops[i] == u && qs == n.ops[..k - 1][i := One];
        assert qs + [op] == n.ops[..k][i := One];
      } else if op == u {
        assert qs + [One] == n.ops[..k][k - 1 := One];
      }
    }
  }

  lemma ReplacedFactors(n: SCEV, i: nat, half: nat)
    requires Term(n, half) && n.Mul? && i < |n.ops| && n.ops[i].Unknown? && half > 1
    ensures var qs := n.ops[i := One];
            && Foldable(qs, half) && PartOf(qs, Part(n))
            && forall u: SCEV :: u.Unknown? ==> multiset(qs)[u] == Times(n, u) - if u == n.ops[i] then 1 else 0
  {
    var qs := n.ops[i := One];
    assert forall j :: 0 <= j < |qs| ==> qs[j] == if j == i then One else n.ops[j];
    if n.ops[0].Constant? {
      assert qs[0] == n.ops[0];
    }
  }

  /** What is built from the factors, or the only one. */
  lemma QuotientBuilt(se: Builders, qs: seq<SCEV>)
    requires KeepsTerms(se) && Foldable(qs, se.half)
    ensures HoldsFactors(if |qs| == 1 then qs[0] else se.getMul(qs), qs, se.half)
  {
    if |qs| == 1 {
      SingleFactor(qs[0], se.half);
      assert qs == [qs[0]];
    }
  }

  lemma SingleFactor(q: SCEV, half: nat)
    requires Foldable([q], half)
    ensures HoldsFactors(q, [q], half)
  {
    assert [q][0] == q && multiset([q]) == multiset{q};
    forall c | PartOf([q], c)
      ensures Part(q) == c
    {
      assert Constant(c) in [q] ==> Constant(c) == q;
    }
  }

  /** Which divisor divides, and how the factors of the quotient differ from those of the term. */
  ghost predicate Without(q: SCEV, n: SCEV, u: SCEV, half: nat) {
    && Term(q, half) && Part(q) == Part(n)
    && forall v: SCEV :: v.Unknown? ==> Times(q, v) == Times(n, v) - if v == u then 1 else 0
  }

  lemma ProductByUnknown(se: Builders, n: SCEV, u: SCEV)
    requires Sound(se) && KeepsTerms(se) && Term(n, se.half) && n.Mul? && u.Unknown?
    ensures Divide(se, n, u, 1).Some?
    ensures var r := Divide(se, n, u, 1).value;
            if Times(n, u) == 0 then r.remainder != Zero else r.remainder == Zero && Without(r.quotient, n, u, se.half)
  {
    hide Sound, KeepsTerms, DivideFactor, DivideByUnknown, Divide, Foldable, PartOf;
    var half := se.half;
    TermIsMonomial(n, half);
    ProductDivision(se, n, u, 1);
    UnknownReplaced(se, n, u, |n.ops|);
    assert n.ops[..|n.ops|] == n.ops;
    var (found, qs) := DivideFactor(se, n, u, |n.ops|, 1).value;
    if found {
      var i :| 0 <= i < |n.ops| && n.ops[i] == u && qs == n.ops[i := One];
      LargeWords(se);
      ReplacedFactors(n, i, half);
      QuotientBuilt(se, qs);
      assert Times(n, u) > 0;
    } else {
      AbsentQuotient(se, n, u);
      assert Times(n, u) == 0;
    }
  }

  lemma LargeWords(se: Builders)
    requires KeepsTerms(se)
    ensures se.half > 1
  {
  }

  lemma TermIsMonomial(n: SCEV, half: nat)
    requires Term(n, half)
    ensures Monomial(n) && (n.Mul? ==> Zero !in n.ops) && n != Zero
  {
  }

  /** An unknown divides a term exactly when it is a factor, and the quotient has the other factors. */
  lemma TermByUnknown(se: Builders, n: SCEV, u: SCEV)
    requires Sound(se) && KeepsTerms(se) && Term(n, se.half) && u.Unknown?
    ensures Divide(se, n, u, 1).Some?
    ensures var r := Divide(se, n, u, 1).value;
            if Times(n, u) == 0 then r.remainder != Zero else r.remainder == Zero && Without(r.quotient, n, u, se.half)
  {
    hide Sound, KeepsTerms, DivideFactor, DivideByUnknown;
    LargeWords(se);
    if n.Mul? {
      ProductByUnknown(se, n, u);
    } else {
      AtomDivision(se, n, u);
    }
  }

  /** The divisor is one, or it divides the constant factor. */
  predicate ConstantDivides(c: int, n: SCEV)
    requires c != 0
  {
    c == 1 || (HasConstant(n) && Part(n) % c == 0)
  }

  ghost predicate SameUnknowns(q: SCEV, n: SCEV, half: nat) {
    Term(q, half) && forall v: SCEV :: v.Unknown? ==> Times(q, v) == Times(n, v)
  }

  lemma WordDivision(se: Builders, v: int, c: int)
    requires se.half > 1 && Word(v, se.half) && Word(c, se.half)
    ensures var r := Divide(se, Constant(v), Constant(c), 1);
            r.Some? && r.value.quotient.Constant?
            && if v % c == 0 then r.value.remainder == Zero && Word(r.value.quotient.v, se.half) else r.value.remainder != Zero
  {
    hide DivideConstants, Rounded;
    if v == c {
      SelfRemainder(v);
    } else if c != 1 {
      ConstantsTruncated(v, c, se.half);
      var r := DivideConstants(v, c, se.half);
      RoundedExactly(v, c, r.remainder.v);
      assert r.quotient.v == 0 ==> r.quotient.v * c == 0;
    }
  }

  lemma SelfRemainder(v: int)
    requires v != 0
    ensures v % v == 0
  {
  }

  lemma RoundedExactly(n: int, d: int, m: int)
    requires d != 0 && Rounded(n, d, m)
    ensures m == 0 <==> n % d == 0
  {
  }

  /** A constant other than one is looked for in front. */
  lemma {:induction false} ConstantReplaced(se: Builders, n: SCEV, c: int, k: nat)
    requires se.half > 1 && Term(n, se.half) && n.Mul? && Word(c, se.half) && c != 1 && 1 <= k <= |n.ops|
    ensures DivideFactor(se, n, Constant(c), k, 1).Some? && Divide(se, n.ops[0], Constant(c), 1).Some?
    ensures var (found, qs) := DivideFactor(se, n, Constant(c), k, 1).value;
            if ConstantDivides(c, n)
            then found && qs == n.ops[..k][0 := Divide(se, n.ops[0], Constant(c), 1).value.quotient]
            else !found && qs == n.ops[..k]
  {
    hide Divide;
    var d := Constant(c);
    assert n.ops[..k] == n.ops[..k - 1] + [n.ops[k - 1]];
    assert DivideFactor(se, n, d, 0, 1) == Some((false, []));
    if k == 1 {
      assert n.ops[..0] == [] && [] + [n.ops[0]] == [n.ops[0]];
      if n.ops[0].Constant? {
        WordDivision(se, n.ops[0].v, c);
        assert [] + [Divide(se, n.ops[0], d, 1).value.quotient] == [n.ops[0]][0 := Divide(se, n.ops[0], d, 1).value.quotient];
      } else {
        AtomDivision(se, n.ops[0], d);
      }
    } else {
      ConstantReplaced(se, n, c, k - 1);
      AtomDivision(se, n.ops[k - 1], d);
      if ConstantDivides(c, n) {
        var q := Divide(se, n.ops[0], d, 1).value.quotient;
        assert n.ops[..k - 1][0 := q] + [n.ops[k - 1]] == n.ops[..k][0 := q];
      }
    }
  }

  lemma ConstantInFront(n: SCEV, q: int, half: nat)
    requires Term(n, half) && n.Mul? && n.ops[0].Constant? && Word(q, half)
    ensures Foldable(n.ops[0 := Constant(q)], half)
    ensures forall u: SCEV :: u.Unknown? ==> multiset(n.ops[0 := Constant(q)])[u] == Times(n, u)
  {
    var qs := n.ops[0 := Constant(q)];
    assert forall j :: 0 <= j < |qs| ==> qs[j] == if j == 0 then Constant(q) else n.ops[j];
  }

  /** A constant divides a term exactly when it is one or divides the constant factor, and the unknowns stay. */
  lemma TermByConstant(se: Builders, n: SCEV, c: int)
    requires Sound(se) && KeepsTerms(se) && Term(n, se.half) && Word(c, se.half)
    ensures Divide(se, n, Constant(c), 1).Some?
    ensures var r := Divide(se, n, Constant(c), 1).value;
            if ConstantDivides(c, n) then r.remainder == Zero && SameUnknowns(r.quotient, n, se.half) else r.remainder != Zero
  {
    hide Sound, KeepsTerms, DivideFactor;
    LargeWords(se);
    if c == 1 {
    } else if n.Mul? {
      ProductByConstant(se, n, c);
    } else if n.Constant? {
      WordDivision(se, n.v, c);
    } else {
      AtomDivision(se, n, Constant(c));
    }
  }

  lemma ProductByConstant(se: Builders, n: SCEV, c: int)
    requires Sound(se) && KeepsTerms(se) && Term(n, se.half) && n.Mul? && Word(c, se.half) && c != 1
    ensures Divide(se, n, Constant(c), 1).Some?
    ensures var r := Divide(se, n, Constant(c), 1).value;
            if ConstantDivides(c, n) then r.remainder == Zero && SameUnknowns(r.quotient, n, se.half) else r.remainder != Zero
  {
    hide Sound, KeepsTerms, DivideFactor, Divide, Foldable;
    LargeWords(se);
    ProductDivision(se, n, Constant(c), 1);
    ConstantReplaced(se, n, c, |n.ops|);
    assert n.ops[..|n.ops|] == n.ops;
    if ConstantDivides(c, n) {
      WordDivision(se, n.ops[0].v, c);
      var q := Divide(se, n.ops[0], Constant(c), 1).value.quotient;
      ConstantInFront(n, q.v, se.half);
      QuotientBuilt(se, n.ops[0 := q]);
    }
  }
}

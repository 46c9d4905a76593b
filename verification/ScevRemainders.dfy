/**
 What is left by the divisions of lib/Support/SCEVUtils.cpp, and that sums and affine recurrences are divided part by
 part, whether or not something is left.
 */
module ScevRemainders {
  import opened ScalarEvolution
  import opened ScevDivision
  import opened WordArithmetic
  import opened Wrappers

  // ---------- The remainder of an unknown ----------

  /** Sums and affine recurrences over products, and over whatever else the unknown does not occur in. */
  predicate Open(n: SCEV, id: nat) {
    match n
    case Add(ops) => forall i :: 0 <= i < |ops| ==> Open(ops[i], id)
    case AddRec(ops, _) => if |ops| == 2 then Open(ops[0], id) && Open(ops[1], id) else !Occurs(id, n)
    case Cast(_, _) => !Occurs(id, n)
    case Opaque(_, _) => !Occurs(id, n)
    case _ => true
  }

  /** A part of `n` whose value does not depend on the unknown. */
  ghost predicate Free(se: Builders, n: SCEV, e: SCEV, id: nat) {
    Carries(se, n, e) && Independent(se, e, id)
  }

  /** No multiple of an unknown is left over: the value of the remainder does not depend on it. */
  lemma {:induction false} RemainderIsFree(se: Builders, n: SCEV, d: SCEV, fuel: nat)
    requires Sound(se) && WellFormed(se, n) && d.Unknown? && Open(n, d.id) && Divide(se, n, d, fuel).Some?
    ensures Free(se, n, Divide(se, n, d, fuel).value.remainder, d.id)
    decreases n, 1, 0
  {
    hide Sound, DivideTerms, DivideProduct, Free, Carries;
    if n == d || n == Zero {
      ZeroIsFree(se, n, d.id);
    } else {
      match n
      case AddRec(ops, loop) =>
        if |ops| == 2 {
          RemainderIsFree(se, ops[0], d, fuel);
          RemainderIsFree(se, ops[1], d, fuel);
          RecurrenceIsFree(se, n, Divide(se, ops[0], d, fuel).value.remainder, Divide(se, ops[1], d, fuel).value.remainder,
                           d.id);
        } else {
          AbsentIsFree(se, n, d.id);
        }
      case Add(ops) =>
        TermsAreFree(se, n, d, |ops|, fuel);
        SumIsFree(se, n, DivideTerms(se, n, d, |ops|, fuel).value.1, d.id);
      case Mul(ops) =>
        ProductIsFree(se, n, d, fuel);
      case _ =>
        AbsentIsFree(se, n, d.id);
    }
  }

  lemma ZeroIsFree(se: Builders, n: SCEV, id: nat)
    requires Sound(se)
    ensures Free(se, n, Zero, id)
  {
    hide Sound, Carries, Independent;
    ZeroCarries(se, n);
    AbsentIsIndependent(se, Zero, id);
  }

  lemma AbsentIsFree(se: Builders, n: SCEV, id: nat)
    requires WellFormed(se, n) && !Occurs(id, n)
    ensures Free(se, n, n, id)
  {
    hide Independent, Occurs, WellFormed;
    AbsentIsIndependent(se, n, id);
  }

  lemma RecurrenceIsFree(se: Builders, n: SCEV, s: SCEV, t: SCEV, id: nat)
    requires Sound(se) && WellFormed(se, n) && n.AddRec? && |n.ops| == 2
    requires Free(se, n.ops[0], s, id) && Free(se, n.ops[1], t, id)
    ensures Free(se, n, se.getAddRec(s, t, n.loop), id)
  {
    hide Sound, WellFormed, Congruent, Carries;
    OperandsStay(se, n);
    forall env, v | Suits(se, env)
      ensures Congruent(Eval(se.getAddRec(s, t, n.loop), env), Eval(se.getAddRec(s, t, n.loop), Assign(env, id, v)), se.half)
    {
      var other, i := Assign(env, id, v), env.iteration(n.loop);
      RecurrenceCarries(se, n, s, t, env);
      RecurrenceCarries(se, n, s, t, other);
      CongruentScaled(Eval(t, env), Eval(t, other), i, se.half);
      CongruentSum(Eval(s, env), Eval(s, other), Eval(t, env) * i, Eval(t, other) * i, se.half);
      CongruentEnds(Eval(se.getAddRec(s, t, n.loop), env), Eval(s, env) + Eval(t, env) * i,
                    Eval(s, other) + Eval(t, other) * i, Eval(se.getAddRec(s, t, n.loop), other), se.half);
    }
    assert Carries(se, n, se.getAddRec(s, t, n.loop)) by {
      RecurrenceCarries(se, n, s, t, Env((_) => 0, (_) => 0, se.operations));
    }
  }

  lemma CongruentEnds(a: int, b: int, c: int, d: int, half: nat)
    requires half > 0 && Congruent(a, b, half) && Congruent(b, c, half) && Congruent(d, c, half)
    ensures Congruent(a, d, half)
  {
    hide Congruent;
    CongruentTrans(a, b, c, half);
    CongruentSymm(d, c, half);
    CongruentTrans(a, c, d, half);
  }

  ghost predicate AllFree(se: Builders, n: SCEV, es: seq<SCEV>, id: nat) {
    forall i :: 0 <= i < |es| ==> Free(se, n, es[i], id)
  }

  lemma {:induction false} TermsAreFree(se: Builders, n: SCEV, d: SCEV, k: nat, fuel: nat)
    requires Sound(se) && WellFormed(se, n) && n.Add? && d.Unknown? && Open(n, d.id) && k <= |n.ops|
    requires DivideTerms(se, n, d, k, fuel).Some?
    ensures AllFree(se, n, DivideTerms(se, n, d, k, fuel).value.1, d.id)
    decreases n, 0, k
  {
    hide Sound, Divide, Carries, Independent;
    if k > 0 {
      TermsAreFree(se, n, d, k - 1, fuel);
      RemainderIsFree(se, n.ops[k - 1], d, fuel);
      OperandCarries(se, n, k - 1, Divide(se, n.ops[k - 1], d, fuel).value.remainder);
    }
  }

  lemma {:induction false} SameSums(es: seq<SCEV>, env: Env, other: Env, half: nat)
    requires half > 0 && forall i :: 0 <= i < |es| ==> Congruent(Eval(es[i], env), Eval(es[i], other), half)
    ensures Congruent(Sum(Values(es, env)), Sum(Values(es, other)), half)
  {
    hide Congruent;
    if es == [] {
      CongruentSymm(0, 0, half);
    } else {
      SameSums(es[1..], env, other, half);
      assert es == [es[0]] + es[1..];
      ValuesCons(es[0], es[1..], env);
      ValuesCons(es[0], es[1..], other);
      CongruentSum(Eval(es[0], env), Eval(es[0], other), Sum(Values(es[1..], env)), Sum(Values(es[1..], other)), half);
    }
  }

  lemma SumIsFree(se: Builders, n: SCEV, rs: seq<SCEV>, id: nat)
    requires Sound(se) && rs != [] && AllFree(se, n, rs, id)
    ensures Free(se, n, if |rs| == 1 then rs[0] else se.getAdd(rs), id)
  {
    hide Sound, Congruent, Carries, Sum, Values;
    if |rs| > 1 {
      forall env, v | Suits(se, env)
        ensures Congruent(Eval(se.getAdd(rs), env), Eval(se.getAdd(rs), Assign(env, id, v)), se.half)
      {
        var other := Assign(env, id, v);
        SumCarries(se, n, rs, env);
        SumCarries(se, n, rs, other);
        SameSums(rs, env, other, se.half);
        CongruentEnds(Eval(se.getAdd(rs), env), Sum(Values(rs, env)), Sum(Values(rs, other)), Eval(se.getAdd(rs), other),
                      se.half);
      }
      assert Carries(se, n, se.getAdd(rs)) by {
        SumCarries(se, n, rs, Env((_) => 0, (_) => 0, se.operations));
      }
    }
  }

  lemma ProductIsFree(se: Builders, n: SCEV, d: SCEV, fuel: nat)
    requires Sound(se) && WellFormed(se, n) && n.Mul? && d.Unknown? && DivideProduct(se, n, d, fuel).Some?
    ensures Free(se, n, DivideProduct(se, n, d, fuel).value.remainder, d.id)
  {
    hide Sound, Divide, DivideFactor, Free;
    ZeroIsFree(se, n, d.id);
    ZeroedIsFree(se, n, d.id);
  }

  lemma ZeroedIsFree(se: Builders, n: SCEV, id: nat)
    requires Sound(se) && WellFormed(se, n)
    ensures Free(se, n, se.rewrite(n, id, Zero), id)
  {
    hide Sound, WellFormed, Congruent, Carries, Eval;
    var e := se.rewrite(n, id, Zero);
    forall env, v | Suits(se, env)
      ensures Congruent(Eval(e, env), Eval(e, Assign(env, id, v)), se.half)
    {
      var other := Assign(env, id, v);
      Rewritten(se, n, id, 0, env);
      Rewritten(se, n, id, 0, other);
      AssignedAgain(n, env, id, v, 0);
      CongruentSymm(Eval(e, other), Eval(n, Assign(env, id, 0)), se.half);
      CongruentTrans(Eval(e, env), Eval(n, Assign(env, id, 0)), Eval(e, other), se.half);
    }
    Rewritten(se, n, id, 0, Env((_) => 0, (_) => 0, se.operations));
  }

  /** Only the last value given to an unknown matters. */
  lemma AssignedAgain(n: SCEV, env: Env, id: nat, v: int, w: int)
    ensures Eval(n, Assign(Assign(env, id, v), id, w)) == Eval(n, Assign(env, id, w))
  {
    SameValue(n, Assign(Assign(env, id, v), id, w), Assign(env, id, w));
  }

  // ---------- Part by part ----------

  /** The value of the quotient. */
  function QuotientValue(se: Builders, n: SCEV, d: SCEV, fuel: nat, env: Env): int
    requires Proper(d)
  {
    var r := Divide(se, n, d, fuel); if r.Some? then Eval(r.value.quotient, env) else 0
  }

  /** The value of what is left. */
  function RemainderValue(se: Builders, n: SCEV, d: SCEV, fuel: nat, env: Env): int
    requires Proper(d)
  {
    var r := Divide(se, n, d, fuel); if r.Some? then Eval(r.value.remainder, env) else 0
  }

  function QuotientValues(se: Builders, ops: seq<SCEV>, d: SCEV, fuel: nat, env: Env): (vs: seq<int>)
    requires Proper(d)
    ensures |vs| == |ops|
  {
    seq(|ops|, i requires 0 <= i < |ops| => QuotientValue(se, ops[i], d, fuel, env))
  }

  function RemainderValues(se: Builders, ops: seq<SCEV>, d: SCEV, fuel: nat, env: Env): (vs: seq<int>)
    requires Proper(d)
    ensures |vs| == |ops|
  {
    seq(|ops|, i requires 0 <= i < |ops| => RemainderValue(se, ops[i], d, fuel, env))
  }

  /** A denominator that is taken apart no further, and does not divide at once. */
  predicate DividesParts(n: SCEV, d: SCEV) {
    Proper(d) && !d.Mul? && n != d && d != One
  }

  /** A sum is divided term by term: quotients and remainders are the sums of those of the terms. */
  lemma SumByTerms(se: Builders, n: SCEV, d: SCEV, fuel: nat, env: Env)
    requires Sound(se) && WellFormed(se, n) && n.Add? && DividesParts(n, d) && Suits(se, env)
    requires Divide(se, n, d, fuel).Some? && Faithful(se, n, d, fuel)
    ensures Congruent(QuotientValue(se, n, d, fuel, env), Sum(QuotientValues(se, n.ops, d, fuel, env)), se.half)
    ensures Congruent(RemainderValue(se, n, d, fuel, env), Sum(RemainderValues(se, n.ops, d, fuel, env)), se.half)
  {
    hide Sound, Congruent, Carries, Sum, Eval, TermsExact, DivideTerms;
    assert FaithfulVisit(se, n, d, fuel) && Divide(se, n, d, fuel) == Visit(se, n, d, fuel);
    TermsRight(se, n, d, |n.ops|, fuel, env);
    var (qs, rs) := DivideTerms(se, n, d, |n.ops|, fuel).value;
    TermByTerm(se, n, d, |n.ops|, fuel, env);
    assert Values(qs, env) == QuotientValues(se, n.ops, d, fuel, env);
    assert Values(rs, env) == RemainderValues(se, n.ops, d, fuel, env);
    if |n.ops| == 1 {
      assert qs == [qs[0]] && rs == [rs[0]];
      OneOperand(qs[0], env);
      OneOperand(rs[0], env);
      CongruentSymm(Eval(qs[0], env), Eval(qs[0], env), se.half);
      CongruentSymm(Eval(rs[0], env), Eval(rs[0], env), se.half);
    } else {
      SumCarries(se, n, qs, env);
      SumCarries(se, n, rs, env);
    }
  }

  lemma {:induction false} TermByTerm(se: Builders, n: SCEV, d: SCEV, k: nat, fuel: nat, env: Env)
    requires Proper(d) && n.Add? && k <= |n.ops| && DivideTerms(se, n, d, k, fuel).Some?
    ensures var (qs, rs) := DivideTerms(se, n, d, k, fuel).value;
            forall i :: 0 <= i < k ==>
              && Eval(qs[i], env) == QuotientValue(se, n.ops[i], d, fuel, env)
              && Eval(rs[i], env) == RemainderValue(se, n.ops[i], d, fuel, env)
  {
    hide Divide, Eval;
    if k > 0 {
      TermByTerm(se, n, d, k - 1, fuel, env);
    }
  }

  /** An affine recurrence is divided in its start and its step: so is its value in every iteration. */
  lemma RecurrenceByParts(se: Builders, n: SCEV, d: SCEV, fuel: nat, env: Env)
    requires Sound(se) && WellFormed(se, n) && n.AddRec? && |n.ops| == 2 && DividesParts(n, d) && Suits(se, env)
    requires Divide(se, n, d, fuel).Some? && Faithful(se, n, d, fuel)
    ensures var i, s, t := env.iteration(n.loop), n.ops[0], n.ops[1];
            && Congruent(QuotientValue(se, n, d, fuel, env),
                         QuotientValue(se, s, d, fuel, env) + QuotientValue(se, t, d, fuel, env) * i, se.half)
            && Congruent(RemainderValue(se, n, d, fuel, env),
                         RemainderValue(se, s, d, fuel, env) + RemainderValue(se, t, d, fuel, env) * i, se.half)
  {
    hide Sound, Congruent, Carries, Eval;
    assert FaithfulVisit(se, n, d, fuel) && Divide(se, n, d, fuel) == Visit(se, n, d, fuel);
    PartCarries(se, n, d, 0, fuel, env);
    PartCarries(se, n, d, 1, fuel, env);
    var start, step := Divide(se, n.ops[0], d, fuel).value, Divide(se, n.ops[1], d, fuel).value;
    OperandsStay(se, n);
    RecurrenceCarries(se, n, start.quotient, step.quotient, env);
    RecurrenceCarries(se, n, start.remainder, step.remainder, env);
  }

  lemma PartCarries(se: Builders, n: SCEV, d: SCEV, i: nat, fuel: nat, env: Env)
    requires Sound(se) && WellFormed(se, n) && n.AddRec? && i < |n.ops| && Proper(d) && Suits(se, env)
    requires Divide(se, n.ops[i], d, fuel).Some? && Faithful(se, n.ops[i], d, fuel)
    ensures var r := Divide(se, n.ops[i], d, fuel).value;
            Carries(se, n.ops[i], r.quotient) && Carries(se, n.ops[i], r.remainder)
  {
    hide Sound, Congruent, Divide, Carries, Faithful;
    DivideRight(se, n.ops[i], d, fuel, env);
  }
}

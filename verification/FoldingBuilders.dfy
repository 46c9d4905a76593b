/**
 Builders that simplify: constants are folded, products with zero are zero, common factors of two terms are taken out,
 and a recurrence with a recurrence of the same loop as its step becomes one of a higher order. They meet what is
 expected of the class `ScalarEvolution`.
 */
module FoldingBuilders {
  import opened Arithmetic
  import opened DivisionTermination
  import opened ScalarEvolution
  import opened ScevAddRec
  import opened ScevDivision
  import opened ScevGcd
  import opened ScevMultiples
  import opened ScevProducts
  import opened WordArithmetic

  // ---------- The builders ----------

  function ConstantSum(ops: seq<SCEV>): int {
    if ops == [] then 0 else (if ops[0].Constant? then ops[0].v else 0) + ConstantSum(ops[1..])
  }

  function ConstantProduct(ops: seq<SCEV>): int {
    if ops == [] then 1 else (if ops[0].Constant? then ops[0].v else 1) * ConstantProduct(ops[1..])
  }

  function NonConstants(ops: seq<SCEV>): (r: seq<SCEV>)
    ensures forall e :: e in r ==> e in ops && !e.Constant?
  {
    if ops == [] then []
    else (if ops[0].Constant? then [] else [ops[0]]) + NonConstants(ops[1..])
  }

  /** The sum of two terms: `x + x * y` is `x * (y + 1)`, and `x * y + x * z` is `x * (y + z)`. */
  function CommonFactor(a: SCEV, b: SCEV): SCEV {
    if b.Mul? && |b.ops| == 2 && b.ops[0] == a then Mul([a, Add([b.ops[1], One])])
    else if a.Mul? && b.Mul? && |a.ops| == |b.ops| == 2 && a.ops[0] == b.ops[0] then Mul([a.ops[0], Add([a.ops[1], b.ops[1]])])
    else Add([a, b])
  }

  function FoldedTerms(ops: seq<SCEV>, half: Half): seq<SCEV> {
    var c := Signed(ConstantSum(ops), half);
    if c == 0 then NonConstants(ops) else [Constant(c)] + NonConstants(ops)
  }

  function FoldAdd(ops: seq<SCEV>, half: Half): SCEV {
    var all := FoldedTerms(ops, half);
    if all == [] then Zero
    else if |all| == 1 then all[0]
    else if |all| == 2 then CommonFactor(all[0], all[1])
    else Add(all)
  }

  function FoldedFactors(ops: seq<SCEV>, half: Half): seq<SCEV> {
    var c := Signed(ConstantProduct(ops), half);
    if c == 1 then NonConstants(ops) else [Constant(c)] + NonConstants(ops)
  }

  function FoldMul(ops: seq<SCEV>, half: Half): SCEV {
    var all := FoldedFactors(ops, half);
    if Signed(ConstantProduct(ops), half) == 0 then Zero
    else if all == [] then One
    else if |all| == 1 then all[0]
    else Mul(all)
  }

  function FoldMinus(a: SCEV, b: SCEV, half: Half): SCEV {
    if a == b then Zero else FoldAdd([a, FoldMul([Constant(-1), b], half)], half)
  }

  function FoldAddRec(s: SCEV, t: SCEV, loop: Loop): SCEV {
    if t == Zero then s
    else if t.AddRec? && t.loop == loop then AddRec([s] + t.ops, loop)
    else AddRec([s, t], loop)
  }

  function FoldRewrite(e: SCEV, id: nat, put: SCEV, half: Half): SCEV {
    if !Occurs(id, e) then e
    else
      match e
      case Unknown(_) => put
      case Add(ops) => FoldAdd(seq(|ops|, i requires 0 <= i < |ops| => FoldRewrite(ops[i], id, put, half)), half)
      case Mul(ops) => FoldMul(seq(|ops|, i requires 0 <= i < |ops| => FoldRewrite(ops[i], id, put, half)), half)
      case AddRec(ops, loop) => AddRec(seq(|ops|, i requires 0 <= i < |ops| => FoldRewrite(ops[i], id, put, half)), loop)
      case Cast(kind, op) => Cast(kind, FoldRewrite(op, id, put, half))
      case Opaque(kind, ops) => Opaque(kind, seq(|ops|, i requires 0 <= i < |ops| => FoldRewrite(ops[i], id, put, half)))
      case _ => e
  }

  function Rewrites(ops: seq<SCEV>, id: nat, put: SCEV, half: Half): (r: seq<SCEV>)
    ensures |r| == |ops| && forall i :: 0 <= i < |ops| ==> r[i] == FoldRewrite(ops[i], id, put, half)
  {
    seq(|ops|, i requires 0 <= i < |ops| => FoldRewrite(ops[i], id, put, half))
  }

  function Folding(half: Half, operations: Operations): Builders {
    Builders(half, operations, ops => FoldAdd(ops, half), ops => FoldMul(ops, half), (a, b) => FoldMinus(a, b, half),
             (s, t, loop: Loop) => FoldAddRec(s, t, loop), (kind: nat, e) => Cast(kind, e),
             (e, id: nat, put) => FoldRewrite(e, id, put, half), (e, loop: Loop) => !Mentions(loop, e))
  }

  /** The operations that are not modelled compute words from words. */
  ghost predicate OnWords(operations: Operations, half: Half) {
    && (forall kind, x, y :: Congruent(x, y, half) ==>
          Congruent(operations.cast(kind, x), operations.cast(kind, y), half))
    && (forall kind, vs, ws :: AllCongruent(vs, ws, half) ==>
          Congruent(operations.opaque_(kind, vs), operations.opaque_(kind, ws), half))
  }

  ghost predicate AllCongruent(vs: seq<int>, ws: seq<int>, half: Half) {
    |vs| == |ws| && forall i :: 0 <= i < |vs| ==> Congruent(vs[i], ws[i], half)
  }

  // ---------- Values ----------

  lemma {:induction false} ConstantsOut(ops: seq<SCEV>, env: Env)
    ensures Sum(Values(ops, env)) == ConstantSum(ops) + Sum(Values(NonConstants(ops), env))
    ensures Product(Values(ops, env)) == ConstantProduct(ops) * Product(Values(NonConstants(ops), env))
  {
    hide Sum, Product, Values, Eval;
    if ops == [] {
      assert NonConstants(ops) == ops;
    } else {
      ConstantsOut(ops[1..], env);
      assert ops == [ops[0]] + ops[1..];
      ValuesCons(ops[0], ops[1..], env);
      var rest := NonConstants(ops[1..]);
      var e, p, r := Eval(ops[0], env), ConstantProduct(ops[1..]), Product(Values(rest, env));
      if ops[0].Constant? {
        assert NonConstants(ops) == rest;
        ConstantValue(ops[0].v, env);
        Associative(e, p, r);
      } else {
        assert NonConstants(ops) == [ops[0]] + rest;
        ValuesCons(ops[0], rest, env);
        Associative(e, p, r);
        Associative(p, e, r);
      }
    }
  }

  lemma PairValue(a: SCEV, b: SCEV, env: Env)
    ensures Eval(Add([a, b]), env) == Eval(a, env) + Eval(b, env)
    ensures Eval(Mul([a, b]), env) == Eval(a, env) * Eval(b, env)
  {
    EvalOps(Add([a, b]), env);
    EvalOps(Mul([a, b]), env);
    ValuesCons(a, [b], env);
    OneOperand(b, env);
    assert [a] + [b] == [a, b];
  }

  lemma CommonFactorValue(a: SCEV, b: SCEV, env: Env)
    ensures Eval(CommonFactor(a, b), env) == Eval(a, env) + Eval(b, env)
  {
    hide Eval;
    PairValue(a, b, env);
    if b.Mul? && |b.ops| == 2 {
      assert b.ops == [b.ops[0], b.ops[1]];
      PairValue(b.ops[0], b.ops[1], env);
      PairValue(b.ops[1], One, env);
      PairValue(a, Add([b.ops[1], One]), env);
      ConstantValue(1, env);
      if a.Mul? && |a.ops| == 2 {
        assert a.ops == [a.ops[0], a.ops[1]];
        PairValue(a.ops[0], a.ops[1], env);
        PairValue(a.ops[1], b.ops[1], env);
        PairValue(a.ops[0], Add([a.ops[1], b.ops[1]]), env);
      }
    }
  }

  lemma FoldAddValue(ops: seq<SCEV>, half: Half, env: Env)
    ensures Congruent(Eval(FoldAdd(ops, half), env), Sum(Values(ops, env)), half)
  {
    hide Congruent, CommonFactor, ConstantSum, NonConstants, Signed, Sum, Product, Values, Eval;
    var all, c, rest := FoldedTerms(ops, half), Signed(ConstantSum(ops), half), NonConstants(ops);
    ConstantsOut(ops, env);
    SignedCongruent(ConstantSum(ops), half);
    var r := Sum(Values(rest, env));
    CongruentSymm(r, r, half);
    CongruentSum(c, ConstantSum(ops), r, r, half);
    ValuesCons(Constant(c), rest, env);
    ConstantValue(c, env);
    assert Sum(Values(all, env)) == c + r;
    SumValue(all, half, env);
  }

  lemma SumValue(all: seq<SCEV>, half: Half, env: Env)
    ensures Eval(if all == [] then Zero else if |all| == 1 then all[0]
                 else if |all| == 2 then CommonFactor(all[0], all[1]) else Add(all), env) == Sum(Values(all, env))
  {
    hide CommonFactor;
    if all == [] {
      assert Values(all, env) == [];
    } else if |all| == 1 {
      OneOperand(all[0], env);
      assert all == [all[0]];
    } else if |all| == 2 {
      CommonFactorValue(all[0], all[1], env);
      ValuesCons(all[0], [all[1]], env);
      OneOperand(all[1], env);
      assert all == [all[0]] + [all[1]];
    } else {
      EvalOps(Add(all), env);
    }
  }

  lemma FoldMulValue(ops: seq<SCEV>, half: Half, env: Env)
    ensures Congruent(Eval(FoldMul(ops, half), env), Product(Values(ops, env)), half)
  {
    hide Congruent, ConstantProduct, NonConstants, Signed, Product, Values, Eval;
    var all, c, rest := FoldedFactors(ops, half), Signed(ConstantProduct(ops), half), NonConstants(ops);
    var p, r := ConstantProduct(ops), Product(Values(rest, env));
    ConstantsOut(ops, env);
    SignedCongruent(p, half);
    CongruentScaled(c, p, r, half);
    ValuesCons(Constant(c), rest, env);
    ConstantValue(c, env);
    assert Product(Values(all, env)) == c * r;
    if c == 0 {
      assert Congruent(0 * r, p * r, half);
    } else {
      ProductValue(all, env);
    }
  }

  lemma ProductValue(all: seq<SCEV>, env: Env)
    ensures Eval(if all == [] then One else if |all| == 1 then all[0] else Mul(all), env) == Product(Values(all, env))
  {
    if all == [] {
      assert Values(all, env) == [];
    } else if |all| == 1 {
      OneOperand(all[0], env);
      assert all == [all[0]];
    } else {
      EvalOps(Mul(all), env);
    }
  }

  lemma FoldMinusValue(a: SCEV, b: SCEV, half: Half, env: Env)
    ensures Congruent(Eval(FoldMinus(a, b, half), env), Eval(a, env) - Eval(b, env), half)
  {
    hide Congruent, FoldAdd, FoldMul, Eval;
    if a == b {
      ConstantValue(0, env);
      CongruentSymm(0, 0, half);
    } else {
      var m := Constant(-1);
      var minus := FoldMul([m, b], half);
      FoldMulValue([m, b], half, env);
      FoldAddValue([a, minus], half, env);
      PairValue(m, b, env);
      PairValue(a, minus, env);
      EvalOps(Mul([m, b]), env);
      EvalOps(Add([a, minus]), env);
      ConstantValue(-1, env);
      CongruentSymm(Eval(a, env), Eval(a, env), half);
      CongruentSum(Eval(a, env), Eval(a, env), Eval(minus, env), -Eval(b, env), half);
      CongruentTrans(Eval(FoldMinus(a, b, half), env), Eval(a, env) + Eval(minus, env), Eval(a, env) - Eval(b, env), half);
    }
  }

  lemma ConstantValue(c: int, env: Env)
    ensures Eval(Constant(c), env) == c
  {
  }

  lemma FoldAddRecValue(s: SCEV, t: SCEV, loop: Loop, env: Env)
    requires !Mentions(loop, t)
    ensures Eval(FoldAddRec(s, t, loop), env) == Eval(s, env) + Eval(t, env) * env.iteration(loop)
  {
    EvalOps(AddRec([s, t], loop), env);
    assert Values([s, t], env) == [Eval(s, env), Eval(t, env)];
    AffineRecurrence(Eval(s, env), Eval(t, env), env.iteration(loop));
  }

  lemma FoldingKeepsValues(half: Half, operations: Operations)
    ensures KeepsValues(Folding(half, operations))
  {
    hide Congruent, FoldAdd, FoldMul, FoldMinus, FoldAddRec, WellFormed, Mentions;
    var se := Folding(half, operations);
    forall ops, env
      ensures Congruent(Eval(se.getAdd(ops), env), Sum(Values(ops, env)), half)
      ensures Congruent(Eval(se.getMul(ops), env), Product(Values(ops, env)), half)
    {
      FoldAddValue(ops, half, env);
      FoldMulValue(ops, half, env);
    }
    forall a, b, env
      ensures Congruent(Eval(se.getMinus(a, b), env), Eval(a, env) - Eval(b, env), half)
    {
      FoldMinusValue(a, b, half, env);
    }
    forall s, t, loop, env | RecurrenceOperands(se, s, t, loop)
      ensures Congruent(Eval(se.getAddRec(s, t, loop), env), Eval(s, env) + Eval(t, env) * env.iteration(loop), half)
    {
      FoldAddRecValue(s, t, loop, env);
      CongruentSymm(Eval(se.getAddRec(s, t, loop), env), Eval(se.getAddRec(s, t, loop), env), half);
    }
  }

  // ---------- Values of rewritten expressions ----------

  lemma {:induction false} CongruentFolds(vs: seq<int>, ws: seq<int>, half: Half)
    requires AllCongruent(vs, ws, half)
    ensures Congruent(Sum(vs), Sum(ws), half) && Congruent(Product(vs), Product(ws), half)
  {
    hide Congruent;
    if vs == [] {
      CongruentSymm(0, 0, half);
      CongruentSymm(1, 1, half);
    } else {
      assert Congruent(vs[0], ws[0], half);
      CongruentFolds(vs[1..], ws[1..], half);
      CongruentSum(vs[0], ws[0], Sum(vs[1..]), Sum(ws[1..]), half);
      CongruentScaled(vs[0], ws[0], Product(vs[1..]), half);
      CongruentScaled(Product(vs[1..]), Product(ws[1..]), ws[0], half);
      CongruentTrans(Product(vs), ws[0] * Product(vs[1..]), Product(ws), half);
    }
  }

  lemma {:induction false} CongruentRecurrences(vs: seq<int>, ws: seq<int>, n: nat, k: nat, half: Half)
    requires AllCongruent(vs, ws, half)
    ensures Congruent(Recurrence(vs, n, k), Recurrence(ws, n, k), half)
  {
    hide Congruent, Choose;
    if vs == [] {
      CongruentSymm(0, 0, half);
    } else {
      assert Congruent(vs[0], ws[0], half);
      CongruentRecurrences(vs[1..], ws[1..], n, k + 1, half);
      CongruentScaled(vs[0], ws[0], Choose(n, k), half);
      CongruentSum(vs[0] * Choose(n, k), ws[0] * Choose(n, k),
                   Recurrence(vs[1..], n, k + 1), Recurrence(ws[1..], n, k + 1), half);
    }
  }

  lemma {:induction false} RewriteValue(e: SCEV, id: nat, v: int, half: Half, env: Env)
    requires OnWords(env.operations, half)
    ensures Congruent(Eval(FoldRewrite(e, id, Constant(v), half), env), Eval(e, Assign(env, id, v)), half)
  {
    hide Congruent, OnWords, FoldAdd, FoldMul;
    var r := FoldRewrite(e, id, Constant(v), half);
    if !Occurs(id, e) {
      AbsentValue(e, env, id, v);
      CongruentSymm(Eval(e, env), Eval(e, env), half);
    } else {
      match e
      case Unknown(_) =>
        CongruentSymm(v, v, half);
      case Cast(kind, op) =>
        RewriteValue(op, id, v, half, env);
        CastCongruent(kind, Eval(FoldRewrite(op, id, Constant(v), half), env), Eval(op, Assign(env, id, v)), half, env);
      case Constant(_) =>
      case CouldNotCompute =>
      case _ =>
        forall i | 0 <= i < |e.ops|
          ensures Congruent(Eval(FoldRewrite(e.ops[i], id, Constant(v), half), env), Eval(e.ops[i], Assign(env, id, v)), half)
        {
          RewriteValue(e.ops[i], id, v, half, env);
        }
        OperandsRewritten(e, id, v, half, env);
    }
  }

  lemma CastCongruent(kind: nat, x: int, y: int, half: Half, env: Env)
    requires OnWords(env.operations, half) && Congruent(x, y, half)
    ensures Congruent(env.operations.cast(kind, x), env.operations.cast(kind, y), half)
  {
    hide Congruent, AllCongruent;
  }

  lemma OpaqueCongruent(kind: nat, vs: seq<int>, ws: seq<int>, half: Half, env: Env)
    requires OnWords(env.operations, half) && AllCongruent(vs, ws, half)
    ensures Congruent(env.operations.opaque_(kind, vs), env.operations.opaque_(kind, ws), half)
  {
    hide Congruent, AllCongruent;
  }

  lemma OperandsRewritten(e: SCEV, id: nat, v: int, half: Half, env: Env)
    requires (e.Add? || e.Mul? || e.AddRec? || e.Opaque?) && Occurs(id, e) && OnWords(env.operations, half)
    requires forall i :: 0 <= i < |e.ops| ==>
               Congruent(Eval(FoldRewrite(e.ops[i], id, Constant(v), half), env), Eval(e.ops[i], Assign(env, id, v)), half)
    ensures Congruent(Eval(FoldRewrite(e, id, Constant(v), half), env), Eval(e, Assign(env, id, v)), half)
  {
    hide Congruent, OnWords, FoldAdd, FoldMul, Eval, Occurs;
    var other := Assign(env, id, v);
    var ops := Rewrites(e.ops, id, Constant(v), half);
    var vs, ws := Values(ops, env), Values(e.ops, other);
    assert AllCongruent(vs, ws, half);
    CongruentFolds(vs, ws, half);
    EvalOps(e, other);
    RewriteOps(e, id, Constant(v), half);
    if e.Add? {
      FoldAddValue(ops, half, env);
      CongruentTrans(Eval(FoldAdd(ops, half), env), Sum(vs), Sum(ws), half);
    } else if e.Mul? {
      FoldMulValue(ops, half, env);
      CongruentTrans(Eval(FoldMul(ops, half), env), Product(vs), Product(ws), half);
    } else if e.AddRec? {
      EvalOps(AddRec(ops, e.loop), env);
      CongruentRecurrences(vs, ws, env.iteration(e.loop), 0, half);
    } else {
      EvalOps(Opaque(e.kind, ops), env);
      OpaqueCongruent(e.kind, vs, ws, half, env);
    }
  }

  lemma RewriteOps(e: SCEV, id: nat, put: SCEV, half: Half)
    requires (e.Add? || e.Mul? || e.AddRec? || e.Opaque?) && Occurs(id, e)
    ensures var ops := Rewrites(e.ops, id, put, half);
            FoldRewrite(e, id, put, half) ==
              match e
              case Add(_) => FoldAdd(ops, half)
              case Mul(_) => FoldMul(ops, half)
              case AddRec(_, loop) => AddRec(ops, loop)
              case _ => Opaque(e.kind, ops)
  {
    hide FoldAdd, FoldMul, Occurs;
    assert seq(|e.ops|, i requires 0 <= i < |e.ops| => FoldRewrite(e.ops[i], id, put, half)) == Rewrites(e.ops, id, put, half);
  }

  lemma FoldingSubstitutes(half: Half, operations: Operations)
    requires OnWords(operations, half)
    ensures Substitutes(Folding(half, operations))
  {
    hide Congruent, OnWords, FoldRewrite, WellFormed;
    var se := Folding(half, operations);
    forall e, id, v, env: Env | Suits(se, env)
      ensures Congruent(Eval(se.rewrite(e, id, Constant(v)), env), Eval(e, Assign(env, id, v)), half)
    {
      RewriteValue(e, id, v, half, env);
    }
  }

  // ---------- Loops ----------

  predicate AllSilent(loop: Loop, ops: seq<SCEV>) {
    forall i :: 0 <= i < |ops| ==> !Mentions(loop, ops[i])
  }

  lemma FoldAddSilent(loop: Loop, ops: seq<SCEV>, half: Half)
    requires AllSilent(loop, ops)
    ensures !Mentions(loop, FoldAdd(ops, half))
  {
    hide CommonFactor, NonConstants, ConstantSum, Signed;
    var all := FoldedTerms(ops, half);
    forall i | 0 <= i < |all|
      ensures !Mentions(loop, all[i])
    {
      assert all[i].Constant? || all[i] in NonConstants(ops);
    }
    if |all| == 2 {
      CommonFactorSilent(loop, all[0], all[1]);
    }
  }

  lemma CommonFactorSilent(loop: Loop, a: SCEV, b: SCEV)
    requires !Mentions(loop, a) && !Mentions(loop, b)
    ensures !Mentions(loop, CommonFactor(a, b))
  {
    if b.Mul? && |b.ops| == 2 {
      assert !Mentions(loop, Add([b.ops[1], One]));
      if a.Mul? && |a.ops| == 2 {
        assert !Mentions(loop, Add([a.ops[1], b.ops[1]]));
      }
    }
  }

  lemma FoldMulSilent(loop: Loop, ops: seq<SCEV>, half: Half)
    requires AllSilent(loop, ops)
    ensures !Mentions(loop, FoldMul(ops, half))
  {
    hide NonConstants, ConstantProduct, Signed, Mentions;
    var all := FoldedFactors(ops, half);
    NoneMentioned(loop);
    forall i | 0 <= i < |all|
      ensures !Mentions(loop, all[i])
    {
      if all[i].Constant? {
        ConstantSilent(loop, all[i].v);
      } else {
        assert all[i] in NonConstants(ops);
      }
    }
    ProductSilent(loop, all);
  }

  lemma ConstantSilent(loop: Loop, v: int)
    ensures !Mentions(loop, Constant(v))
  {
  }

  lemma NoneMentioned(loop: Loop)
    ensures !Mentions(loop, Zero) && !Mentions(loop, One)
  {
  }

  lemma ProductSilent(loop: Loop, all: seq<SCEV>)
    requires AllSilent(loop, all)
    ensures !Mentions(loop, Mul(all))
  {
  }

  lemma FoldMinusSilent(loop: Loop, a: SCEV, b: SCEV, half: Half)
    requires !Mentions(loop, a) && !Mentions(loop, b)
    ensures !Mentions(loop, FoldMinus(a, b, half))
  {
    hide FoldAdd, FoldMul;
    if a != b {
      FoldMulSilent(loop, [Constant(-1), b], half);
      FoldAddSilent(loop, [a, FoldMul([Constant(-1), b], half)], half);
    }
  }

  lemma FoldAddRecSilent(loop: Loop, s: SCEV, t: SCEV, l: Loop)
    requires !Mentions(loop, s) && !Mentions(loop, t) && l != loop
    ensures !Mentions(loop, FoldAddRec(s, t, l))
  {
    var r := FoldAddRec(s, t, l);
    if r.AddRec? && t != Zero {
      forall i | 0 <= i < |r.ops|
        ensures !Mentions(loop, r.ops[i])
      {
        assert r.ops[i] == if i == 0 then s else if t.AddRec? && t.loop == l then t.ops[i - 1] else t;
      }
    }
  }

  lemma {:induction false} RewriteSilent(loop: Loop, e: SCEV, id: nat, v: int, half: Half)
    requires !Mentions(loop, e)
    ensures !Mentions(loop, FoldRewrite(e, id, Constant(v), half))
  {
    hide FoldAdd, FoldMul, Occurs;
    if Occurs(id, e) {
      match e
      case Cast(_, op) => RewriteSilent(loop, op, id, v, half);
      case Constant(_) =>
      case Unknown(_) =>
      case CouldNotCompute =>
      case _ =>
        var ops := Rewrites(e.ops, id, Constant(v), half);
        forall i | 0 <= i < |ops|
          ensures !Mentions(loop, ops[i])
        {
          RewriteSilent(loop, e.ops[i], id, v, half);
        }
        RewriteOps(e, id, Constant(v), half);
        FoldAddSilent(loop, ops, half);
        FoldMulSilent(loop, ops, half);
    }
  }

  lemma FoldingTellsInvariance(half: Half, operations: Operations)
    ensures TellsInvariance(Folding(half, operations))
  {
  }

  lemma FoldingKeepsInvariance(half: Half, operations: Operations)
    ensures KeepsInvariance(Folding(half, operations))
  {
    hide FoldAdd, FoldMul, FoldMinus, FoldAddRec, FoldRewrite, WellFormed, Mentions;
    var se := Folding(half, operations);
    forall ops, loop | AllInvariant(se, ops, loop)
      ensures se.isLoopInvariant(se.getAdd(ops), loop) && se.isLoopInvariant(se.getMul(ops), loop)
    {
      FoldAddSilent(loop, ops, half);
      FoldMulSilent(loop, ops, half);
    }
    forall a, b, loop | se.isLoopInvariant(a, loop) && se.isLoopInvariant(b, loop)
      ensures se.isLoopInvariant(se.getMinus(a, b), loop)
    {
      FoldMinusSilent(loop, a, b, half);
    }
    forall ops, s, t, l, loop | se.isLoopInvariant(AddRec(ops, l), loop) && AllInvariant(se, [s, t], loop)
      ensures se.isLoopInvariant(se.getAddRec(s, t, l), loop)
    {
      OtherLoop(ops, l, loop);
      assert [s, t][0] == s && [s, t][1] == t;
      FoldAddRecSilent(loop, s, t, l);
    }
    forall e, id, v, loop | se.isLoopInvariant(e, loop)
      ensures se.isLoopInvariant(se.rewrite(e, id, Constant(v)), loop)
    {
      RewriteSilent(loop, e, id, v, half);
    }
  }

  lemma OtherLoop(ops: seq<SCEV>, l: Loop, loop: Loop)
    requires !Mentions(loop, AddRec(ops, l))
    ensures l != loop
  {
  }

  // ---------- Form ----------

  lemma CommonFactorForm(se: Builders, a: SCEV, b: SCEV)
    requires WellFormed(se, a) && WellFormed(se, b) && a != Zero
    ensures WellFormed(se, CommonFactor(a, b))
  {
    if b.Mul? && |b.ops| == 2 {
      assert WellFormed(se, Add([b.ops[1], One]));
      if a.Mul? && |a.ops| == 2 {
        assert WellFormed(se, Add([a.ops[1], b.ops[1]]));
      }
    }
  }

  lemma FoldAddForm(se: Builders, ops: seq<SCEV>, half: Half)
    requires AllFormed(se, ops)
    ensures WellFormed(se, FoldAdd(ops, half))
  {
    hide CommonFactor, NonConstants, ConstantSum, Signed;
    var all := FoldedTerms(ops, half);
    forall i | 0 <= i < |all|
      ensures WellFormed(se, all[i]) && all[i] != Zero
    {
      assert all[i].Constant? || all[i] in NonConstants(ops);
    }
    if |all| == 2 {
      CommonFactorForm(se, all[0], all[1]);
    }
  }

  lemma FoldMulForm(se: Builders, ops: seq<SCEV>, half: Half)
    requires AllFormed(se, ops)
    ensures WellFormed(se, FoldMul(ops, half))
  {
    hide NonConstants, ConstantProduct, Signed;
    var all := FoldedFactors(ops, half);
    if Signed(ConstantProduct(ops), half) != 0 {
      forall i | 0 <= i < |all|
        ensures WellFormed(se, all[i]) && all[i] != Zero
      {
        assert all[i].Constant? || all[i] in NonConstants(ops);
      }
    }
  }

  lemma FoldMinusForm(se: Builders, a: SCEV, b: SCEV, half: Half)
    requires WellFormed(se, a) && WellFormed(se, b)
    ensures WellFormed(se, FoldMinus(a, b, half))
  {
    hide FoldAdd, FoldMul;
    if a != b {
      FoldMulForm(se, [Constant(-1), b], half);
      FoldAddForm(se, [a, FoldMul([Constant(-1), b], half)], half);
    }
  }

  lemma {:induction false} RewriteForm(se: Builders, e: SCEV, id: nat, v: int, half: Half)
    requires se.isLoopInvariant == ((e, loop: Loop) => !Mentions(loop, e)) && WellFormed(se, e)
    ensures WellFormed(se, FoldRewrite(e, id, Constant(v), half))
  {
    hide FoldAdd, FoldMul, Occurs, Mentions;
    if Occurs(id, e) {
      match e
      case Cast(_, op) => RewriteForm(se, op, id, v, half);
      case Constant(_) =>
      case Unknown(_) =>
      case CouldNotCompute =>
      case _ =>
        var ops := Rewrites(e.ops, id, Constant(v), half);
        forall i | 0 <= i < |ops|
          ensures WellFormed(se, ops[i])
          ensures forall loop :: !Mentions(loop, e.ops[i]) ==> !Mentions(loop, ops[i])
        {
          RewriteForm(se, e.ops[i], id, v, half);
          forall loop | !Mentions(loop, e.ops[i])
            ensures !Mentions(loop, ops[i])
          {
            RewriteSilent(loop, e.ops[i], id, v, half);
          }
        }
        RewriteOps(e, id, Constant(v), half);
        if e.Add? {
          FoldAddForm(se, ops, half);
        }
        if e.Mul? {
          FoldMulForm(se, ops, half);
        }
    }
  }

  lemma FoldingKeepsForm(half: Half, operations: Operations)
    ensures KeepsForm(Folding(half, operations))
  {
    hide FoldAdd, FoldMul, FoldMinus, FoldRewrite, Mentions, AllFormed, WellFormed;
    var se := Folding(half, operations);
    forall ops | AllFormed(se, ops)
      ensures WellFormed(se, se.getAdd(ops)) && WellFormed(se, se.getMul(ops))
    {
      FoldAddForm(se, ops, half);
      FoldMulForm(se, ops, half);
    }
    forall a, b | WellFormed(se, a) && WellFormed(se, b)
      ensures WellFormed(se, se.getMinus(a, b))
    {
      FoldMinusForm(se, a, b, half);
    }
    forall s, t, loop | RecurrenceOperands(se, s, t, loop)
      ensures WellFormed(se, se.getAddRec(s, t, loop))
    {
      FoldAddRecForm(se, s, t, loop);
    }
    forall e, id, v | WellFormed(se, e)
      ensures WellFormed(se, se.rewrite(e, id, Constant(v)))
    {
      RewriteForm(se, e, id, v, half);
    }
  }

  lemma FoldAddRecForm(se: Builders, s: SCEV, t: SCEV, loop: Loop)
    requires RecurrenceOperands(se, s, t, loop) && !Mentions(loop, t)
    ensures WellFormed(se, FoldAddRec(s, t, loop))
  {
  }

  // ---------- All expectations ----------

  /** A builder that simplifies meets the expectations. */
  lemma FoldingIsSound(half: Half, operations: Operations)
    requires OnWords(operations, half)
    ensures Sound(Folding(half, operations))
  {
    hide KeepsValues, Substitutes, KeepsForm, TellsInvariance, KeepsInvariance, OnWords, FoldAdd, FoldMul, FoldAddRec, Mentions;
    FoldingKeepsValues(half, operations);
    FoldingSubstitutes(half, operations);
    FoldingKeepsForm(half, operations);
    FoldingTellsInvariance(half, operations);
    FoldingKeepsInvariance(half, operations);
  }

  lemma FoldingKeepsProducts(half: Half, operations: Operations)
    ensures KeepsProducts(Folding(half, operations))
  {
    hide ConstantProduct, NonConstants, Signed;
    forall ops: seq<SCEV> | ops != [] && (forall i :: 0 <= i < |ops| ==> Atom(ops[i]))
      ensures Monomial(FoldMul(ops, half))
    {
      var all := FoldedFactors(ops, half);
      forall i | 0 <= i < |all|
        ensures Atom(all[i])
      {
        assert all[i].Constant? || all[i] in NonConstants(ops);
      }
    }
  }

  lemma FoldingKeepsExpanded(half: Half, operations: Operations)
    ensures KeepsExpanded(Folding(half, operations), false) && KeepsLayered(Folding(half, operations), false)
  {
    hide FoldMul, WellFormed, Mentions, Expanded, Layered, KeepsProducts;
    FoldingKeepsProducts(half, operations);
    var se := Folding(half, operations);
    forall s, t, loop | RecurrenceOperands(se, s, t, loop)
      ensures Expanded(s, false) && Expanded(t, false) ==> Expanded(se.getAddRec(s, t, loop), false)
      ensures Layered(s, false) && Layered(t, false) ==> Layered(se.getAddRec(s, t, loop), false)
    {
      FoldAddRecExpanded(s, t, loop, false);
    }
  }

  lemma FoldAddRecExpanded(s: SCEV, t: SCEV, loop: Loop, sums: bool)
    requires !Mentions(loop, t)
    ensures Expanded(s, sums) && Expanded(t, sums) ==> Expanded(FoldAddRec(s, t, loop), sums)
    ensures Layered(s, sums) && Layered(t, sums) ==> Layered(FoldAddRec(s, t, loop), sums)
  {
  }

  lemma {:induction false} ZeroSum(ops: seq<SCEV>)
    requires AllZero(ops)
    ensures ConstantSum(ops) == 0 && NonConstants(ops) == []
  {
    if ops != [] {
      ZeroSum(ops[1..]);
    }
  }

  lemma FoldingKeepsZero(half: Half, operations: Operations)
    ensures KeepsZero(Folding(half, operations))
  {
    hide Signed;
    SignedSmall(0, half);
    forall ops | AllZero(ops)
      ensures FoldAdd(ops, half) == Zero
    {
      ZeroSum(ops);
    }
  }

  /** At most one constant that is not one is their product. */
  lemma {:induction false} SingleConstant(ops: seq<SCEV>, c: int)
    requires (forall i :: 0 <= i < |ops| && ops[i].Constant? ==> ops[i].v == c || ops[i] == One)
    requires forall i, j :: 0 <= i < j < |ops| && ops[i].Constant? && ops[j].Constant? ==> ops[i] == One || ops[j] == One
    ensures ConstantProduct(ops) == if Constant(c) in ops then c else 1
  {
    if ops != [] {
      SingleConstant(ops[1..], c);
      assert ops == [ops[0]] + ops[1..];
    }
  }

  lemma {:induction false} UnknownsStay(ops: seq<SCEV>, u: SCEV)
    requires u.Unknown?
    ensures multiset(NonConstants(ops))[u] == multiset(ops)[u]
  {
    if ops != [] {
      UnknownsStay(ops[1..], u);
      assert ops == [ops[0]] + ops[1..];
    }
  }

  lemma FoldablePart(ops: seq<SCEV>, half: Half) returns (c: int)
    requires half > 1 && Foldable(ops, half)
    ensures Word(c, half) && PartOf(ops, c)
  {
    if i :| 0 <= i < |ops| && ops[i].Constant? && ops[i] != One {
      c := ops[i].v;
      assert Constant(c) in ops;
    } else {
      c := 1;
    }
  }

  /** What is left of factors with one constant. */
  function Factored(c: int, rest: seq<SCEV>): SCEV {
    if c != 1 && rest == [] then Constant(c)
    else if c != 1 then Mul([Constant(c)] + rest)
    else if rest == [] then One
    else if |rest| == 1 then rest[0]
    else Mul(rest)
  }

  lemma FactoredTerm(c: int, rest: seq<SCEV>, half: Half)
    requires half > 1 && Word(c, half) && forall i :: 0 <= i < |rest| ==> rest[i].Unknown?
    ensures Term(Factored(c, rest), half) && Part(Factored(c, rest)) == c
    ensures forall u: SCEV :: u.Unknown? ==> Times(Factored(c, rest), u) == multiset(rest)[u]
  {
    if |rest| == 1 {
      assert rest == [rest[0]];
    }
  }

  lemma FoldMulFactored(ops: seq<SCEV>, c: int, half: Half)
    requires half > 1 && Word(c, half) && ConstantProduct(ops) == c
    ensures FoldMul(ops, half) == Factored(c, NonConstants(ops))
  {
    hide ConstantProduct, NonConstants, Signed;
    SignedSmall(c, half);
    assert [Constant(c)] + [] == [Constant(c)];
  }

  lemma FoldMulTerm(ops: seq<SCEV>, half: Half)
    requires half > 1 && Foldable(ops, half)
    ensures HoldsFactors(FoldMul(ops, half), ops, half)
  {
    hide ConstantProduct, NonConstants, FoldMul, Factored, Times, Term, Part;
    var c := FoldablePart(ops, half);
    SingleConstant(ops, c);
    FoldMulFactored(ops, c, half);
    var rest := NonConstants(ops);
    assert forall i :: 0 <= i < |rest| ==> rest[i] in rest;
    FactoredTerm(c, rest, half);
    forall u: SCEV | u.Unknown?
      ensures Times(FoldMul(ops, half), u) == multiset(ops)[u]
    {
      UnknownsStay(ops, u);
    }
    forall d | PartOf(ops, d)
      ensures Part(FoldMul(ops, half)) == d
    {
      SingleConstant(ops, d);
    }
  }

  lemma FoldingKeepsTerms(half: Half, operations: Operations)
    requires half > 1
    ensures KeepsTerms(Folding(half, operations))
  {
    hide FoldMul, Foldable, HoldsFactors;
    forall ops | Foldable(ops, half)
      ensures HoldsFactors(FoldMul(ops, half), ops, half)
    {
      FoldMulTerm(ops, half);
    }
  }

  lemma FoldMulContents(ops: seq<SCEV>, half: Half, m: multiset<SCEV>)
    requires (forall i :: 0 <= i < |ops| ==> Atom(ops[i])) && Unknowns(m) && m <= multiset(ops)
    ensures Contains(FoldMul(ops, half), m)
  {
    hide ConstantProduct, NonConstants, Signed;
    var all, rest := FoldedFactors(ops, half), NonConstants(ops);
    forall u | u in m
      ensures m[u] <= multiset(rest)[u]
    {
      UnknownsStay(ops, u);
    }
    assert m <= multiset(rest) <= multiset(all);
    if |all| == 1 {
      assert all == [all[0]];
      if all[0].Constant? {
        NoUnknowns(m, all[0]);
      }
    }
  }

  lemma NoUnknowns(m: multiset<SCEV>, c: SCEV)
    requires Unknowns(m) && m <= multiset{c} && c.Constant?
    ensures m == multiset{}
  {
    assert c !in m;
  }

  lemma FoldAddRecContents(s: SCEV, t: SCEV, loop: Loop, m: multiset<SCEV>)
    requires !Mentions(loop, t) && Contains(s, m) && Contains(t, m)
    ensures Contains(FoldAddRec(s, t, loop), m)
  {
  }

  /** Products keep their unknowns, and recurrences those of their parts. */
  lemma FoldingKeepsContents(half: Half, operations: Operations)
    ensures KeepsContents(Folding(half, operations), false)
  {
    hide FoldMul, Contains, WellFormed, Mentions, Unknowns;
    var se := Folding(half, operations);
    forall ops, m | ops != [] && (forall i :: 0 <= i < |ops| ==> Atom(ops[i])) && Unknowns(m) && m <= multiset(ops)
      ensures Contains(se.getMul(ops), m)
    {
      FoldMulContents(ops, half, m);
    }
    forall s, t, loop, m | RecurrenceOperands(se, s, t, loop) && Contains(s, m) && Contains(t, m)
      ensures Contains(se.getAddRec(s, t, loop), m)
    {
      FoldAddRecContents(s, t, loop, m);
    }
  }

  lemma FoldingKeepsRecurrences(half: Half, operations: Operations)
    ensures KeepsRecurrences(Folding(half, operations))
  {
    hide WellFormed;
    var se := Folding(half, operations);
    forall s, t, loop | RecurrenceOperands(se, s, t, loop) && t != Zero
      ensures se.getAddRec(s, t, loop) == AddRec([s, t], loop)
    {
      assert !Mentions(loop, t);
    }
  }

  lemma CommonFactorAffine(a: SCEV, b: SCEV)
    requires Affine(a) && Affine(b)
    ensures Affine(CommonFactor(a, b))
  {
  }

  lemma FoldingKeepsAffine(half: Half, operations: Operations)
    ensures KeepsAffine(Folding(half, operations))
  {
    hide ConstantSum, NonConstants, Signed, CommonFactor, WellFormed, Mentions;
    var se := Folding(half, operations);
    forall ops: seq<SCEV> | AllFormed(se, ops) && (forall i :: 0 <= i < |ops| ==> Affine(ops[i]))
      ensures Affine(FoldAdd(ops, half))
    {
      var all := FoldedTerms(ops, half);
      forall i | 0 <= i < |all|
        ensures Affine(all[i])
      {
        assert all[i].Constant? || all[i] in NonConstants(ops);
      }
      if |all| == 2 {
        CommonFactorAffine(all[0], all[1]);
      }
    }
    forall s, t, loop | RecurrenceOperands(se, s, t, loop) && Affine(s) && Affine(t)
      ensures Affine(FoldAddRec(s, t, loop))
    {
      assert !Mentions(loop, t);
      FoldAddRecAffine(s, t, loop);
    }
  }

  lemma FoldAddRecAffine(s: SCEV, t: SCEV, loop: Loop)
    requires !Mentions(loop, t) && Affine(s) && Affine(t)
    ensures Affine(FoldAddRec(s, t, loop))
  {
  }

  /** Where casts keep values, those that are built do. */
  lemma FoldingIsTransparent(half: Half, operations: Operations, e: SCEV)
    ensures KeepsCasts(Folding(half, operations))
    ensures (forall kind, x :: CastBy(e, kind) ==> Congruent(operations.cast(kind, x), x, half)) ==>
              Transparent(Folding(half, operations), e)
  {
    hide FoldAdd, FoldMul, FoldMinus, FoldAddRec, FoldRewrite, Congruent;
    var se := Folding(half, operations);
    forall kind, x, env | Suits(se, env)
      ensures Congruent(Eval(se.getCast(kind, x), env), operations.cast(kind, Eval(x, env)), half)
    {
      CongruentSymm(Eval(se.getCast(kind, x), env), Eval(se.getCast(kind, x), env), half);
    }
  }

  // ---------- Other sums and products ----------

  /** `make` builds expressions for `value` of their operands. */
  ghost predicate Builds(se: Builders, make: seq<SCEV> -> SCEV, value: seq<int> -> int) {
    && (forall ops :: AllFormed(se, ops) ==> WellFormed(se, make(ops)))
    && (forall ops, env :: AllFormed(se, ops) && Suits(se, env) ==>
          Congruent(Eval(make(ops), env), value(Values(ops, env)), se.half))
    && (forall ops, loop :: AllFormed(se, ops) && AllInvariant(se, ops, loop) ==> se.isLoopInvariant(make(ops), loop))
  }

  lemma {:induction false} SameForm(f: Builders, g: Builders, e: SCEV)
    requires f.isLoopInvariant == g.isLoopInvariant
    ensures WellFormed(f, e) <==> WellFormed(g, e)
  {
    match e
    case Cast(_, op) => SameForm(f, g, op);
    case Constant(_) =>
    case Unknown(_) =>
    case CouldNotCompute =>
    case _ =>
      forall i | 0 <= i < |e.ops|
        ensures WellFormed(f, e.ops[i]) <==> WellFormed(g, e.ops[i])
      {
        SameForm(f, g, e.ops[i]);
      }
  }

  lemma SameForms(f: Builders, g: Builders)
    requires f.isLoopInvariant == g.isLoopInvariant
    ensures forall e :: WellFormed(f, e) <==> WellFormed(g, e)
    ensures forall ops :: AllFormed(f, ops) <==> AllFormed(g, ops)
    ensures forall s, t, loop :: RecurrenceOperands(f, s, t, loop) <==> RecurrenceOperands(g, s, t, loop)
    ensures forall ops, loop :: AllInvariant(f, ops, loop) <==> AllInvariant(g, ops, loop)
  {
    hide WellFormed;
    forall e
      ensures WellFormed(f, e) <==> WellFormed(g, e)
    {
      SameForm(f, g, e);
    }
  }

  lemma ReplacedValues(f: Builders, g: Builders)
    requires Sound(f) && g == f.(getAdd := g.getAdd, getMul := g.getMul)
    requires Builds(f, g.getAdd, Sum) && Builds(f, g.getMul, Product)
    ensures KeepsValues(g) && Substitutes(g)
  {
    hide WellFormed, AllFormed, AllInvariant, RecurrenceOperands, Congruent, Eval;
    hide Simplifies, TellsInvariance, KeepsInvariance, KeepsForm;
    SameForms(f, g);
    assert forall env :: Suits(f, env) <==> Suits(g, env);
  }

  lemma ReplacedForm(f: Builders, g: Builders)
    requires Sound(f) && g == f.(getAdd := g.getAdd, getMul := g.getMul)
    requires Builds(f, g.getAdd, Sum) && Builds(f, g.getMul, Product)
    ensures KeepsForm(g) && Simplifies(g)
  {
    hide WellFormed, AllFormed, AllInvariant, RecurrenceOperands, Congruent, Eval;
    hide Occurs, TellsInvariance, KeepsInvariance, KeepsValues;
    SameForms(f, g);
  }

  lemma ReplacedInvariance(f: Builders, g: Builders)
    requires Sound(f) && g == f.(getAdd := g.getAdd, getMul := g.getMul)
    requires Builds(f, g.getAdd, Sum) && Builds(f, g.getMul, Product)
    ensures TellsInvariance(g) && KeepsInvariance(g)
  {
    hide WellFormed, AllFormed, AllInvariant, RecurrenceOperands, Congruent, Eval;
    hide KeepsForm, KeepsValues, Substitutes, Simplifies;
    SameForms(f, g);
    assert forall e, loop :: OperandsInvariant(f, e, loop) <==> OperandsInvariant(g, e, loop);
  }

  /** Whatever sums and products are built instead, the builders meet the expectations when these do. */
  lemma ReplacedIsSound(f: Builders, g: Builders)
    requires Sound(f) && g == f.(getAdd := g.getAdd, getMul := g.getMul)
    requires Builds(f, g.getAdd, Sum) && Builds(f, g.getMul, Product)
    ensures Sound(g)
  {
    hide Builds, KeepsValues, Substitutes, KeepsForm, Simplifies, TellsInvariance, KeepsInvariance;
    ReplacedValues(f, g);
    ReplacedForm(f, g);
    ReplacedInvariance(f, g);
  }

  lemma OwnBuilds(f: Builders)
    requires Sound(f)
    ensures Builds(f, f.getAdd, Sum) && Builds(f, f.getMul, Product)
  {
    hide WellFormed, AllFormed, AllInvariant, RecurrenceOperands, Congruent, Eval;
    hide Substitutes, Simplifies, TellsInvariance;
  }

  // ---------- Sums without common factors ----------

  function PlainAdd(ops: seq<SCEV>, half: Half): SCEV {
    var all := FoldedTerms(ops, half);
    if all == [] then Zero else if |all| == 1 then all[0] else Add(all)
  }

  /** Builders that leave common factors in the terms. */
  function Expanding(half: Half, operations: Operations): Builders {
    Folding(half, operations).(getAdd := ops => PlainAdd(ops, half))
  }

  lemma PlainAddValue(ops: seq<SCEV>, half: Half, env: Env)
    ensures Congruent(Eval(PlainAdd(ops, half), env), Sum(Values(ops, env)), half)
  {
    hide Congruent, CommonFactor, FoldedTerms;
    var all := FoldedTerms(ops, half);
    FoldAddValue(ops, half, env);
    if |all| == 2 {
      CommonFactorValue(all[0], all[1], env);
      assert all == [all[0], all[1]];
      PairValue(all[0], all[1], env);
    }
  }

  lemma PlainAddSilent(loop: Loop, ops: seq<SCEV>, half: Half)
    requires AllSilent(loop, ops)
    ensures !Mentions(loop, PlainAdd(ops, half))
  {
    hide NonConstants, ConstantSum, Signed;
    var all := FoldedTerms(ops, half);
    forall i | 0 <= i < |all|
      ensures !Mentions(loop, all[i])
    {
      assert all[i].Constant? || all[i] in NonConstants(ops);
    }
  }

  lemma PlainAddForm(se: Builders, ops: seq<SCEV>, half: Half)
    requires AllFormed(se, ops)
    ensures WellFormed(se, PlainAdd(ops, half))
  {
    hide NonConstants, ConstantSum, Signed;
    var all := FoldedTerms(ops, half);
    forall i | 0 <= i < |all|
      ensures WellFormed(se, all[i])
    {
      assert all[i].Constant? || all[i] in NonConstants(ops);
    }
  }

  lemma PlainAddBuilds(half: Half, operations: Operations)
    ensures Builds(Folding(half, operations), ops => PlainAdd(ops, half), Sum)
  {
    hide PlainAdd, WellFormed, Mentions, Congruent, Eval;
    var se := Folding(half, operations);
    forall ops | AllFormed(se, ops)
      ensures WellFormed(se, PlainAdd(ops, half))
    {
      PlainAddForm(se, ops, half);
    }
    forall ops, env: Env
      ensures Congruent(Eval(PlainAdd(ops, half), env), Sum(Values(ops, env)), half)
    {
      PlainAddValue(ops, half, env);
    }
    forall ops, loop | AllInvariant(se, ops, loop)
      ensures !Mentions(loop, PlainAdd(ops, half))
    {
      PlainAddSilent(loop, ops, half);
    }
  }

  /** Builders that leave common factors in the terms meet the expectations as well. */
  lemma ExpandingIsSound(half: Half, operations: Operations)
    requires OnWords(operations, half)
    ensures Sound(Expanding(half, operations))
  {
    hide Sound, Builds, OnWords, FoldMul, FoldAdd, FoldMinus, FoldAddRec, FoldRewrite, PlainAdd, Mentions;
    FoldingIsSound(half, operations);
    OwnBuilds(Folding(half, operations));
    PlainAddBuilds(half, operations);
    ReplacedIsSound(Folding(half, operations), Expanding(half, operations));
  }

  lemma PlainAddExpanded(ops: seq<SCEV>, half: Half)
    ensures (forall i :: 0 <= i < |ops| ==> Expanded(ops[i], true)) ==> Expanded(PlainAdd(ops, half), true)
    ensures (forall i :: 0 <= i < |ops| ==> Layered(ops[i], true)) ==> Layered(PlainAdd(ops, half), true)
  {
    hide NonConstants, ConstantSum, Signed;
    var all := FoldedTerms(ops, half);
    assert forall i :: 0 <= i < |all| ==> all[i].Constant? || all[i] in NonConstants(ops);
  }

  /** With such builders sums stay expanded. */
  lemma ExpandingKeepsExpanded(half: Half, operations: Operations)
    ensures KeepsExpanded(Expanding(half, operations), true) && KeepsLayered(Expanding(half, operations), true)
  {
    hide FoldMul, PlainAdd, WellFormed, Mentions, Expanded, Layered, Monomial;
    FoldingKeepsProducts(half, operations);
    var se := Expanding(half, operations);
    forall s, t, loop | RecurrenceOperands(se, s, t, loop)
      ensures Expanded(s, true) && Expanded(t, true) ==> Expanded(se.getAddRec(s, t, loop), true)
      ensures Layered(s, true) && Layered(t, true) ==> Layered(se.getAddRec(s, t, loop), true)
    {
      FoldAddRecExpanded(s, t, loop, true);
    }
    forall ops
      ensures (forall i :: 0 <= i < |ops| ==> Expanded(ops[i], true)) ==> Expanded(se.getAdd(ops), true)
      ensures (forall i :: 0 <= i < |ops| ==> Layered(ops[i], true)) ==> Layered(se.getAdd(ops), true)
    {
      PlainAddExpanded(ops, half);
    }
  }

  lemma {:induction false} ConstantsCancel(ops: seq<SCEV>, m: multiset<SCEV>)
    requires m != multiset{} && AllContain(ops, m)
    ensures ConstantSum(ops) == 0
  {
    if ops != [] {
      assert Contains(ops[0], m);
      ConstantsCancel(ops[1..], m);
    }
  }

  lemma PlainAddContents(ops: seq<SCEV>, half: Half, m: multiset<SCEV>)
    requires AllContain(ops, m)
    ensures Contains(PlainAdd(ops, half), m)
  {
    hide NonConstants, ConstantSum, Signed;
    var all := FoldedTerms(ops, half);
    SignedSmall(0, half);
    if m != multiset{} {
      ConstantsCancel(ops, m);
    }
    forall i | 0 <= i < |all|
      ensures Contains(all[i], m)
    {
      assert all[i].Constant? || all[i] in NonConstants(ops);
    }
  }

  /** Sums that leave common factors in the terms keep the unknowns that all terms have. */
  lemma ExpandingKeepsContents(half: Half, operations: Operations)
    ensures KeepsContents(Expanding(half, operations), true)
  {
    hide FoldMul, PlainAdd, Contains, WellFormed, Mentions, Unknowns, AllContain;
    var se := Expanding(half, operations);
    forall ops, m | ops != [] && (forall i :: 0 <= i < |ops| ==> Atom(ops[i])) && Unknowns(m) && m <= multiset(ops)
      ensures Contains(se.getMul(ops), m)
    {
      FoldMulContents(ops, half, m);
    }
    forall s, t, loop, m | RecurrenceOperands(se, s, t, loop) && Contains(s, m) && Contains(t, m)
      ensures Contains(se.getAddRec(s, t, loop), m)
    {
      FoldAddRecContents(s, t, loop, m);
    }
    forall ops, m | AllContain(ops, m)
      ensures Contains(se.getAdd(ops), m)
    {
      PlainAddContents(ops, half, m);
    }
  }

  lemma ExpandingKeepsZero(half: Half, operations: Operations)
    ensures KeepsZero(Expanding(half, operations))
  {
    hide Signed;
    SignedSmall(0, half);
    forall ops | AllZero(ops)
      ensures PlainAdd(ops, half) == Zero
    {
      ZeroSum(ops);
    }
  }
}

/**
 `computeSCEVAddRec` of lib/Support/SCEVUtils.cpp: an expression is read as a linear function of the iteration of a
 loop.
 */
module ScevAddRec {
  import opened ScalarEvolution
  import opened WordArithmetic
  import opened Wrappers

  // ---------- A recurrence inside sums and products ----------

  function StepRecurrence(e: SCEV): SCEV
    requires e.AddRec? && |e.ops| >= 2
  {
    if |e.ops| == 2 then e.ops[1] else AddRec(e.ops[1..], e.loop)
  }

  /** `coef * count + free`, where `count` is the iteration of `loop`, when a loop has been found. */
  datatype Binomial = Binomial(loop: Option<Loop>, coef: SCEV, free: SCEV, safe: bool)

  /** The visitor `SCEVBionmialSearch`; `safe` is what is known in front of the visit. */
  function Search(se: Builders, e: SCEV, safe: bool): Binomial
    requires WellFormed(se, e)
    decreases e, 1, 0
  {
    match e
    case Cast(kind, op) =>
      var b := Search(se, op, false);
      Binomial(b.loop, if b.loop.Some? then se.getCast(kind, b.coef) else b.coef, se.getCast(kind, b.free), b.safe)
    case AddRec(ops, loop) => Binomial(Some(loop), StepRecurrence(e), ops[0], safe)
    case Mul(ops) =>
      var (k, b) := SearchOperands(se, e, 0, safe);
      if b.loop.None? then Binomial(None, b.coef, e, b.safe)
      else
        var others := ops[..k] + ops[k + 1..];
        Binomial(b.loop, se.getMul(others + [b.coef]), se.getMul(others + [b.free]), b.safe)
    case Add(ops) =>
      var (k, b) := SearchOperands(se, e, 0, safe);
      if b.loop.None? then Binomial(None, b.coef, e, b.safe)
      else Binomial(b.loop, b.coef, se.getAdd(ops[..k] + ops[k + 1..] + [b.free]), b.safe)
    case _ => Binomial(None, Zero, e, safe)
  }

  /** The first operand from the `i`-th on that has a loop. */
  function SearchOperands(se: Builders, e: SCEV, i: nat, safe: bool): (r: (nat, Binomial))
    requires (e.Add? || e.Mul?) && WellFormed(se, e) && i <= |e.ops|
    ensures r.1.loop.Some? ==> r.0 < |e.ops|
    decreases e, 0, |e.ops| - i
  {
    if i == |e.ops| then (i, Binomial(None, Zero, e, safe))
    else
      var b := Search(se, e.ops[i], safe);
      if b.loop.Some? then (i, b) else SearchOperands(se, e, i + 1, b.safe)
  }

  /** The tests of `computeSCEVAddRec`. */
  predicate Accepted(se: Builders, b: Binomial) {
    b.loop.Some? && se.isLoopInvariant(b.coef, b.loop.value) && se.isLoopInvariant(b.free, b.loop.value)
  }

  /** The recurrence that the expression is, and whether it has been found without casts. */
  function ComputeSCEVAddRec(se: Builders, e: SCEV): (SCEV, bool)
    requires WellFormed(se, e)
  {
    var b := Search(se, e, true);
    if Accepted(se, b) then (se.getAddRec(b.free, b.coef, b.loop.value), b.safe) else (e, true)
  }

  // ---------- The recurrence that is found ----------

  /** The recurrence the search arrives at. */
  function Found(e: SCEV): (r: Option<SCEV>)
    ensures r.Some? ==> r.value.AddRec?
    decreases e, 1, 0
  {
    match e
    case AddRec(_, _) => Some(e)
    case Cast(_, op) => Found(op)
    case Add(ops) => if FirstFound(e, 0) < |ops| then Found(ops[FirstFound(e, 0)]) else None
    case Mul(ops) => if FirstFound(e, 0) < |ops| then Found(ops[FirstFound(e, 0)]) else None
    case _ => None
  }

  /** The operand it is found in. */
  function FirstFound(e: SCEV, i: nat): (k: nat)
    requires (e.Add? || e.Mul?) && i <= |e.ops|
    ensures i <= k <= |e.ops| && (k < |e.ops| ==> Found(e.ops[k]).Some?)
    ensures forall j :: i <= j < k ==> Found(e.ops[j]).None?
    decreases e, 0, |e.ops| - i
  {
    if i == |e.ops| then i else if Found(e.ops[i]).Some? then i else FirstFound(e, i + 1)
  }

  /** No product has, beside the factor with that recurrence, another one with a recurrence of the same loop. */
  predicate Alone(e: SCEV) {
    match e
    case Cast(_, op) => Alone(op)
    case Add(ops) => var k := FirstFound(e, 0); k < |ops| ==> Alone(ops[k])
    case Mul(ops) =>
      var k := FirstFound(e, 0);
      k < |ops| ==> Alone(ops[k]) && forall i :: 0 <= i < |ops| && i != k ==> !Mentions(Found(ops[k]).value.loop, ops[i])
    case _ => true
  }

  /** The recurrence is affine, or no product multiplies it with another one of its loop. */
  predicate Separate(e: SCEV) {
    Found(e).Some? && |Found(e).value.ops| > 2 ==> Alone(e)
  }

  /** Casts are built well formed, and of what does not change in a loop they do not either. */
  ghost predicate KeepsCasts(se: Builders) {
    && (forall kind, e :: WellFormed(se, e) ==> WellFormed(se, se.getCast(kind, e)))
    && (forall kind, e, loop :: se.isLoopInvariant(e, loop) ==> se.isLoopInvariant(se.getCast(kind, e), loop))
  }

  /** The recurrence is inside of a cast of this kind. */
  predicate CastBy(e: SCEV, kind: nat) {
    match e
    case Cast(k, op) => k == kind || CastBy(op, kind)
    case Add(ops) => var k := FirstFound(e, 0); k < |ops| && CastBy(ops[k], kind)
    case Mul(ops) => var k := FirstFound(e, 0); k < |ops| && CastBy(ops[k], kind)
    case _ => false
  }

  /** The casts around the recurrence keep values, and casts are built with their values. */
  ghost predicate Transparent(se: Builders, e: SCEV) {
    && KeepsCasts(se)
    && (forall kind, x :: CastBy(e, kind) ==> Congruent(se.operations.cast(kind, x), x, se.half))
    && (forall kind, x, env {:trigger Eval(se.getCast(kind, x), env)} :: WellFormed(se, x) && Suits(se, env) ==>
          Congruent(Eval(se.getCast(kind, x), env), se.operations.cast(kind, Eval(x, env)), se.half))
  }

  /** What has been found can be relied on. */
  ghost predicate Clear(se: Builders, e: SCEV, b: Binomial) {
    b.loop.Some? && (b.safe || Transparent(se, e))
  }

  lemma OperandClear(se: Builders, e: SCEV, b: Binomial)
    requires (e.Add? || e.Mul?) && FirstFound(e, 0) < |e.ops| && Clear(se, e, b)
    ensures Clear(se, e.ops[FirstFound(e, 0)], b)
  {
    hide Congruent;
  }

  lemma CastClear(se: Builders, kind: nat, op: SCEV, b: Binomial)
    requires Clear(se, Cast(kind, op), b)
    ensures Clear(se, op, b) && CastBy(Cast(kind, op), kind)
  {
    hide Congruent;
  }

  /** What is known of the result of every search. */
  ghost predicate Binds(se: Builders, e: SCEV, safe: bool, b: Binomial) {
    && (b.safe ==> safe)
    && (b.loop.Some? <==> Found(e).Some?) && (b.loop.Some? ==> b.loop.value == Found(e).value.loop)
    && (Clear(se, e, b) ==> WellFormed(se, b.coef) && WellFormed(se, b.free))
  }

  lemma {:induction false} SearchBinds(se: Builders, e: SCEV, safe: bool)
    requires Sound(se) && WellFormed(se, e)
    ensures Binds(se, e, safe, Search(se, e, safe))
    decreases e, 1, 0
  {
    hide Sound, Binds, WellFormed;
    match e {
      case Cast(_, op) =>
        PartFormed(se, e);
        SearchBinds(se, op, false);
        CastBinds(se, e, safe);
      case AddRec(ops, loop) =>
        RecurrenceBinds(se, e, safe);
      case Mul(_) =>
        OperandsBind(se, e, 0, safe);
        FoundBinds(se, e, safe);
      case Add(_) =>
        OperandsBind(se, e, 0, safe);
        FoundBinds(se, e, safe);
      case _ =>
        LeafBinds(se, e, safe);
    }
  }

  lemma PartFormed(se: Builders, e: SCEV)
    requires WellFormed(se, e) && e.Cast?
    ensures WellFormed(se, e.op)
  {
  }

  lemma LeafBinds(se: Builders, e: SCEV, safe: bool)
    requires WellFormed(se, e) && !e.Cast? && !e.AddRec? && !e.Mul? && !e.Add?
    ensures Binds(se, e, safe, Search(se, e, safe))
  {
  }

  lemma CastBinds(se: Builders, e: SCEV, safe: bool)
    requires WellFormed(se, e) && e.Cast? && Binds(se, e.op, false, Search(se, e.op, false))
    ensures Binds(se, e, safe, Search(se, e, safe))
  {
    assert !Search(se, e.op, false).safe;
    assert Found(e) == Found(e.op);
  }

  lemma RecurrenceBinds(se: Builders, e: SCEV, safe: bool)
    requires WellFormed(se, e) && e.AddRec?
    ensures Binds(se, e, safe, Search(se, e, safe))
  {
    StepFormed(se, e);
  }

  lemma FoundBinds(se: Builders, e: SCEV, safe: bool)
    requires Sound(se) && (e.Add? || e.Mul?) && WellFormed(se, e)
    requires OperandBinds(se, e, 0, safe)
    ensures Binds(se, e, safe, Search(se, e, safe))
  {
    hide Sound, SearchOperands, FirstFound;
    var (k, b) := SearchOperands(se, e, 0, safe);
    assert Found(e) == if FirstFound(e, 0) < |e.ops| then Found(e.ops[FirstFound(e, 0)]) else None;
    if Clear(se, e, b) {
      OperandClear(se, e, b);
      OthersFormed(se, e, k, b.coef);
      OthersFormed(se, e, k, b.free);
    }
  }

  /** What is known of the operand in which a loop is found. */
  ghost predicate OperandBinds(se: Builders, e: SCEV, i: nat, safe: bool)
    requires (e.Add? || e.Mul?) && WellFormed(se, e) && i <= |e.ops|
  {
    var (k, b) := SearchOperands(se, e, i, safe);
    && (b.safe ==> safe)
    && (b.loop.Some? <==> FirstFound(e, i) < |e.ops|)
    && (b.loop.Some? ==> k == FirstFound(e, i) && Binds(se, e.ops[k], safe, b))
  }

  lemma StepFormed(se: Builders, e: SCEV)
    requires WellFormed(se, e) && e.AddRec?
    ensures WellFormed(se, StepRecurrence(e)) && WellFormed(se, e.ops[0])
  {
  }

  lemma {:induction false} OperandsBind(se: Builders, e: SCEV, i: nat, safe: bool)
    requires Sound(se) && (e.Add? || e.Mul?) && WellFormed(se, e) && i <= |e.ops|
    ensures OperandBinds(se, e, i, safe)
    decreases e, 0, |e.ops| - i
  {
    hide Sound;
    if i < |e.ops| {
      SearchBinds(se, e.ops[i], safe);
      var b := Search(se, e.ops[i], safe);
      if b.loop.None? {
        OperandsBind(se, e, i + 1, b.safe);
      }
    }
  }

  /** All operands but one, and something else in its place. */
  function Others(e: SCEV, k: nat, put: SCEV): (r: seq<SCEV>)
    requires (e.Add? || e.Mul?) && k < |e.ops|
    ensures |r| == |e.ops|
  {
    e.ops[..k] + e.ops[k + 1..] + [put]
  }

  lemma OthersAre(e: SCEV, k: nat, put: SCEV)
    requires (e.Add? || e.Mul?) && k < |e.ops|
    ensures forall i :: 0 <= i < |e.ops| ==>
              Others(e, k, put)[i] == put || exists j :: 0 <= j < |e.ops| && Others(e, k, put)[i] == e.ops[j]
  {
    var others := Others(e, k, put);
    forall i | 0 <= i < |e.ops|
      ensures others[i] == put || exists j :: 0 <= j < |e.ops| && others[i] == e.ops[j]
    {
      assert others[i] == if i < k then e.ops[i] else if i < |e.ops| - 1 then e.ops[i + 1] else put;
    }
  }

  lemma OthersFormed(se: Builders, e: SCEV, k: nat, put: SCEV)
    requires Sound(se) && (e.Add? || e.Mul?) && WellFormed(se, e) && k < |e.ops| && WellFormed(se, put)
    ensures AllFormed(se, Others(e, k, put))
    ensures WellFormed(se, se.getAdd(Others(e, k, put))) && WellFormed(se, se.getMul(Others(e, k, put)))
  {
    hide KeepsValues, Substitutes, Simplifies, TellsInvariance, KeepsInvariance;
    OthersAre(e, k, put);
    var others := Others(e, k, put);
    assert forall i :: 0 <= i < |others| ==> WellFormed(se, others[i]);
  }

  /** The values of the sum and the product built from the other operands. */
  lemma OthersValue(se: Builders, e: SCEV, k: nat, put: SCEV, env: Env)
    requires Sound(se) && (e.Add? || e.Mul?) && WellFormed(se, e) && k < |e.ops| && WellFormed(se, put) && Suits(se, env)
    ensures var others := e.ops[..k] + e.ops[k + 1..];
            && Congruent(Eval(se.getAdd(Others(e, k, put)), env), Sum(Values(others, env)) + Eval(put, env), se.half)
            && Congruent(Eval(se.getMul(Others(e, k, put)), env), Product(Values(others, env)) * Eval(put, env), se.half)
  {
    hide Substitutes, Simplifies, KeepsForm, TellsInvariance, KeepsInvariance, Congruent, WellFormed, AllFormed;
    OthersFormed(se, e, k, put);
    ValuesSnoc(e.ops[..k] + e.ops[k + 1..], put, env);
  }

  // ---------- Affine recurrences ----------

  /** A binomial has the value of the expression. */
  ghost predicate Linear(se: Builders, e: SCEV, b: Binomial, env: Env) {
    Clear(se, e, b) ==>
      Congruent(Eval(e, env), Eval(b.free, env) + Eval(b.coef, env) * env.iteration(b.loop.value), se.half)
  }

  /** When the recurrence that is found is affine, the binomial has the value of the expression. */
  lemma {:induction false} SearchLinear(se: Builders, e: SCEV, safe: bool, env: Env)
    requires Sound(se) && WellFormed(se, e) && Suits(se, env) && Found(e).Some? && |Found(e).value.ops| == 2
    ensures Linear(se, e, Search(se, e, safe), env)
    decreases e, 1, 0
  {
    hide Sound, Congruent, Eval, Transparent, CastBy;
    match e {
      case Cast(kind, op) =>
        SearchBinds(se, op, false);
        SearchLinear(se, op, false, env);
        var b := Search(se, op, false);
        if Clear(se, e, b) {
          CastClear(se, kind, op, b);
          CastLinear(se, kind, op, b, env);
        }
      case AddRec(ops, loop) =>
        EvalOps(e, env);
        assert Values(e.ops, env) == [Eval(e.ops[0], env), Eval(e.ops[1], env)];
        AffineRecurrence(Eval(e.ops[0], env), Eval(e.ops[1], env), env.iteration(e.loop));
        CongruentSymm(Eval(e, env), Eval(e, env), se.half);
      case Mul(ops) =>
        OperandsBind(se, e, 0, safe);
        var (k, b) := SearchOperands(se, e, 0, safe);
        OperandsLinear(se, e, 0, safe, env);
        if Clear(se, e, b) {
          OperandClear(se, e, b);
          ProductLinear(se, e, k, b, env);
        }
      case Add(ops) =>
        OperandsBind(se, e, 0, safe);
        var (k, b) := SearchOperands(se, e, 0, safe);
        OperandsLinear(se, e, 0, safe, env);
        if Clear(se, e, b) {
          OperandClear(se, e, b);
          SumLinear(se, e, k, b, env);
        }
    }
  }

  lemma CastLinear(se: Builders, kind: nat, op: SCEV, b: Binomial, env: Env)
    requires Clear(se, op, b) && Transparent(se, Cast(kind, op)) && Suits(se, env)
    requires WellFormed(se, b.coef) && WellFormed(se, b.free)
    requires Linear(se, op, b, env)
    ensures Linear(se, Cast(kind, op), Binomial(b.loop, se.getCast(kind, b.coef), se.getCast(kind, b.free), b.safe), env)
  {
    hide Congruent, WellFormed, Transparent;
    var x, f, c := Eval(op, env), Eval(b.free, env), Eval(b.coef, env);
    CastValue(se, kind, op, env);
    CastBuilt(se, Cast(kind, op), kind, b.free, env);
    CastBuilt(se, Cast(kind, op), kind, b.coef, env);
    CongruentTrans(Eval(Cast(kind, op), env), x, f + c * env.iteration(b.loop.value), se.half);
    ScaledLinear(1, Eval(Cast(kind, op), env), f, c, env.iteration(b.loop.value), Eval(se.getCast(kind, b.free), env),
                 Eval(se.getCast(kind, b.coef), env), se.half);
  }

  lemma CastValue(se: Builders, kind: nat, op: SCEV, env: Env)
    requires Transparent(se, Cast(kind, op)) && Suits(se, env)
    ensures Congruent(Eval(Cast(kind, op), env), Eval(op, env), se.half)
  {
    hide Congruent, WellFormed;
  }

  lemma CastBuilt(se: Builders, c: SCEV, kind: nat, e: SCEV, env: Env)
    requires Transparent(se, c) && CastBy(c, kind) && Suits(se, env) && WellFormed(se, e)
    ensures Congruent(Eval(se.getCast(kind, e), env), Eval(e, env), se.half)
  {
    hide Congruent, WellFormed;
    CongruentTrans(Eval(se.getCast(kind, e), env), se.operations.cast(kind, Eval(e, env)), Eval(e, env), se.half);
  }

  lemma {:induction false} OperandsLinear(se: Builders, e: SCEV, i: nat, safe: bool, env: Env)
    requires Sound(se) && (e.Add? || e.Mul?) && WellFormed(se, e) && i <= |e.ops| && Suits(se, env)
    requires FirstFound(e, i) < |e.ops| && |Found(e.ops[FirstFound(e, i)]).value.ops| == 2
    ensures var (k, b) := SearchOperands(se, e, i, safe); b.loop.Some? ==> Linear(se, e.ops[k], b, env)
    decreases e, 0, |e.ops| - i
  {
    hide Sound, Linear, Congruent;
    SearchBinds(se, e.ops[i], safe);
    var b := Search(se, e.ops[i], safe);
    if b.loop.None? {
      OperandsLinear(se, e, i + 1, b.safe, env);
    } else {
      SearchLinear(se, e.ops[i], safe, env);
    }
  }

  lemma ProductLinear(se: Builders, e: SCEV, k: nat, b: Binomial, env: Env)
    requires Sound(se) && e.Mul? && WellFormed(se, e) && k < |e.ops| && Clear(se, e.ops[k], b) && Suits(se, env)
    requires WellFormed(se, b.coef) && WellFormed(se, b.free) && Linear(se, e.ops[k], b, env)
    ensures Linear(se, e, Binomial(b.loop, se.getMul(Others(e, k, b.coef)), se.getMul(Others(e, k, b.free)), b.safe), env)
  {
    hide Sound, Congruent, WellFormed;
    var others := e.ops[..k] + e.ops[k + 1..];
    EvalOps(e, env);
    OneOut(e.ops, k, env);
    OthersValue(se, e, k, b.coef, env);
    OthersValue(se, e, k, b.free, env);
    ScaledLinear(Product(Values(others, env)), Eval(e.ops[k], env), Eval(b.free, env), Eval(b.coef, env),
                 env.iteration(b.loop.value), Eval(se.getMul(Others(e, k, b.free)), env),
                 Eval(se.getMul(Others(e, k, b.coef)), env), se.half);
  }

  lemma SumLinear(se: Builders, e: SCEV, k: nat, b: Binomial, env: Env)
    requires Sound(se) && e.Add? && WellFormed(se, e) && k < |e.ops| && Clear(se, e.ops[k], b) && Suits(se, env)
    requires WellFormed(se, b.free) && Linear(se, e.ops[k], b, env)
    ensures Linear(se, e, Binomial(b.loop, b.coef, se.getAdd(Others(e, k, b.free)), b.safe), env)
  {
    hide Sound, Congruent, WellFormed;
    EvalOps(e, env);
    OneOut(e.ops, k, env);
    OthersValue(se, e, k, b.free, env);
    ShiftedLinear(Sum(Values(e.ops[..k] + e.ops[k + 1..], env)), Eval(e.ops[k], env), Eval(b.free, env),
                  Eval(b.coef, env) * env.iteration(b.loop.value), Eval(se.getAdd(Others(e, k, b.free)), env), se.half);
  }

  // ---------- Recurrences of any order ----------

  /** What the expression has beyond the free term. */
  function Beyond(e: SCEV, b: Binomial, env: Env): int {
    Eval(e, env) - Eval(b.free, env)
  }

  /** What is beyond the free term is nothing in the first iteration, and grows by the coefficient in iteration `n`. */
  ghost predicate Grows(se: Builders, e: SCEV, b: Binomial, env: Env, n: nat) {
    Clear(se, e, b) ==>
      var now, next := InIteration(env, b.loop.value, n), InIteration(env, b.loop.value, n + 1);
      && Congruent(Beyond(e, b, InIteration(env, b.loop.value, 0)), 0, se.half)
      && Congruent(Beyond(e, b, next), Beyond(e, b, now) + Eval(b.coef, now), se.half)
  }

  lemma {:induction false} SearchGrows(se: Builders, e: SCEV, safe: bool, env: Env, n: nat)
    requires Sound(se) && WellFormed(se, e) && Suits(se, env) && Alone(e)
    ensures Grows(se, e, Search(se, e, safe), env, n)
    decreases e, 1, 0
  {
    hide Sound, Congruent, Eval, Beyond, Transparent, CastBy;
    match e {
      case Cast(kind, op) =>
        SearchBinds(se, op, false);
        SearchGrows(se, op, false, env, n);
        var b := Search(se, op, false);
        if Clear(se, e, b) {
          CastClear(se, kind, op, b);
          CastGrows(se, kind, op, b, env, n);
        }
      case AddRec(ops, loop) =>
        RecurrenceGrows(se, e, env, safe, n);
      case Mul(ops) =>
        OperandsBind(se, e, 0, safe);
        var (k, b) := SearchOperands(se, e, 0, safe);
        if Clear(se, e, b) {
          OperandClear(se, e, b);
          OperandsGrow(se, e, 0, safe, env, n);
          ProductGrows(se, e, k, b, env, n);
        }
      case Add(ops) =>
        OperandsBind(se, e, 0, safe);
        var (k, b) := SearchOperands(se, e, 0, safe);
        if Clear(se, e, b) {
          OperandClear(se, e, b);
          OperandsGrow(se, e, 0, safe, env, n);
          SumGrows(se, e, k, b, env, n);
        }
      case _ =>
    }
  }

  lemma CastGrows(se: Builders, kind: nat, op: SCEV, b: Binomial, env: Env, n: nat)
    requires Clear(se, op, b) && Transparent(se, Cast(kind, op)) && Suits(se, env)
    requires WellFormed(se, b.coef) && WellFormed(se, b.free)
    requires Grows(se, op, b, env, n)
    ensures Grows(se, Cast(kind, op), Binomial(b.loop, se.getCast(kind, b.coef), se.getCast(kind, b.free), b.safe), env, n)
  {
    hide Congruent, WellFormed, Beyond, Transparent, Eval;
    var loop, half := b.loop.value, se.half;
    var first, now, next := InIteration(env, loop, 0), InIteration(env, loop, n), InIteration(env, loop, n + 1);
    CastBeyond(se, kind, op, b, first);
    CastBeyond(se, kind, op, b, now);
    CastBeyond(se, kind, op, b, next);
    CastBuilt(se, Cast(kind, op), kind, b.coef, now);
    var e, c := Cast(kind, op), Binomial(b.loop, se.getCast(kind, b.coef), se.getCast(kind, b.free), b.safe);
    CongruentTrans(Beyond(e, c, first), Beyond(op, b, first), 0, half);
    GrowsAlike(1, Beyond(op, b, now), Beyond(op, b, next), Eval(b.coef, now), Beyond(e, c, now), Beyond(e, c, next),
               Eval(c.coef, now), half);
  }

  lemma CastBeyond(se: Builders, kind: nat, op: SCEV, b: Binomial, env: Env)
    requires Transparent(se, Cast(kind, op)) && Suits(se, env) && WellFormed(se, b.free)
    ensures Congruent(Beyond(Cast(kind, op), Binomial(b.loop, se.getCast(kind, b.coef), se.getCast(kind, b.free), b.safe), env),
                      Beyond(op, b, env), se.half)
  {
    hide Congruent, WellFormed, Transparent, Eval;
    CastValue(se, kind, op, env);
    CastBuilt(se, Cast(kind, op), kind, b.free, env);
    CongruentSum(Eval(Cast(kind, op), env), Eval(op, env), Eval(se.getCast(kind, b.free), env), Eval(b.free, env), se.half);
  }

  lemma {:induction false} OperandsGrow(se: Builders, e: SCEV, i: nat, safe: bool, env: Env, n: nat)
    requires Sound(se) && (e.Add? || e.Mul?) && WellFormed(se, e) && i <= |e.ops| && Suits(se, env)
    requires FirstFound(e, i) < |e.ops| && Alone(e.ops[FirstFound(e, i)])
    ensures var (k, b) := SearchOperands(se, e, i, safe); b.loop.Some? ==> Grows(se, e.ops[k], b, env, n)
    decreases e, 0, |e.ops| - i
  {
    hide Sound, Grows, Congruent, Alone;
    SearchBinds(se, e.ops[i], safe);
    var b := Search(se, e.ops[i], safe);
    if b.loop.None? {
      OperandsGrow(se, e, i + 1, b.safe, env, n);
    } else {
      SearchGrows(se, e.ops[i], safe, env, n);
    }
  }

  lemma {:induction false} FirstIteration(vs: seq<int>, k: nat)
    ensures Recurrence(vs, 0, k) == if vs == [] || k > 0 then 0 else vs[0]
  {
    if vs != [] {
      FirstIteration(vs[1..], k + 1);
    }
  }

  lemma {:induction false} NextIteration(vs: seq<int>, n: nat, k: nat)
    requires k > 0
    ensures Recurrence(vs, n + 1, k) == Recurrence(vs, n, k) + Recurrence(vs, n, k - 1)
  {
    if vs != [] {
      NextIteration(vs[1..], n, k + 1);
      assert Choose(n + 1, k) == Choose(n, k - 1) + Choose(n, k);
      assert vs[0] * Choose(n + 1, k) == vs[0] * Choose(n, k - 1) + vs[0] * Choose(n, k);
    }
  }

  /** The value of a recurrence in an iteration of its loop, from the values of its operands in any one. */
  lemma RecurrenceIn(se: Builders, e: SCEV, env: Env, n: nat)
    requires Sound(se) && WellFormed(se, e) && e.AddRec?
    ensures Eval(e, InIteration(env, e.loop, n)) == Recurrence(Values(e.ops, env), n, 0)
    ensures Eval(e.ops[0], InIteration(env, e.loop, n)) == Values(e.ops, env)[0]
    ensures Eval(StepRecurrence(e), InIteration(env, e.loop, n)) == Recurrence(Values(e.ops, env)[1..], n, 0)
  {
    hide KeepsValues, KeepsForm, Substitutes, Simplifies, KeepsInvariance, TellsInvariance;
    var now := InIteration(env, e.loop, n);
    forall i | 0 <= i < |e.ops|
      ensures Eval(e.ops[i], now) == Eval(e.ops[i], env)
    {
      InvariantIsSilent(se, e.ops[i], e.loop);
      SilentValue(e.ops[i], env, e.loop, n);
    }
    EvalOps(e, now);
    assert Values(e.ops, now) == Values(e.ops, env);
    if |e.ops| == 2 {
      assert Values(e.ops, env)[1..] == [Eval(e.ops[1], env)];
      assert Recurrence([Eval(e.ops[1], env)], n, 0) == Eval(e.ops[1], env) * 1 + Recurrence([], n, 1);
    } else {
      var step := StepRecurrence(e);
      EvalOps(step, now);
      assert Values(step.ops, now) == Values(e.ops, env)[1..];
    }
  }

  lemma RecurrenceGrows(se: Builders, e: SCEV, env: Env, safe: bool, n: nat)
    requires Sound(se) && WellFormed(se, e) && e.AddRec?
    ensures Grows(se, e, Binomial(Some(e.loop), StepRecurrence(e), e.ops[0], safe), env, n)
  {
    hide Sound, Congruent, StepRecurrence, Eval;
    var b, vs := Binomial(Some(e.loop), StepRecurrence(e), e.ops[0], safe), Values(e.ops, env);
    RecurrenceIn(se, e, env, 0);
    RecurrenceIn(se, e, env, n);
    RecurrenceIn(se, e, env, n + 1);
    FirstIteration(vs, 0);
    NextIteration(vs[1..], n, 1);
    CongruentSymm(0, 0, se.half);
    var next := Beyond(e, b, InIteration(env, e.loop, n + 1));
    CongruentSymm(next, next, se.half);
  }

  lemma SumGrows(se: Builders, e: SCEV, k: nat, b: Binomial, env: Env, n: nat)
    requires Sound(se) && e.Add? && WellFormed(se, e) && k < |e.ops| && Clear(se, e.ops[k], b) && Suits(se, env)
    requires WellFormed(se, b.free) && Grows(se, e.ops[k], b, env, n)
    ensures Grows(se, e, Binomial(b.loop, b.coef, se.getAdd(Others(e, k, b.free)), b.safe), env, n)
  {
    hide Sound, Congruent, WellFormed, Beyond;
    var loop, half := b.loop.value, se.half;
    SumBeyond(se, e, k, b, InIteration(env, loop, 0));
    SumBeyond(se, e, k, b, InIteration(env, loop, n));
    SumBeyond(se, e, k, b, InIteration(env, loop, n + 1));
    var now := InIteration(env, loop, n);
    var sum := Binomial(b.loop, b.coef, se.getAdd(Others(e, k, b.free)), b.safe);
    CongruentTrans(Beyond(e, sum, InIteration(env, loop, 0)), Beyond(e.ops[k], b, InIteration(env, loop, 0)), 0, half);
    GrowsAlike(1, Beyond(e.ops[k], b, now), Beyond(e.ops[k], b, InIteration(env, loop, n + 1)), Eval(b.coef, now),
               Beyond(e, sum, now), Beyond(e, sum, InIteration(env, loop, n + 1)), Eval(b.coef, now), half);
  }

  lemma SumBeyond(se: Builders, e: SCEV, k: nat, b: Binomial, env: Env)
    requires Sound(se) && e.Add? && WellFormed(se, e) && k < |e.ops| && Suits(se, env) && WellFormed(se, b.free)
    ensures Congruent(Beyond(e, Binomial(b.loop, b.coef, se.getAdd(Others(e, k, b.free)), b.safe), env),
                      Beyond(e.ops[k], b, env), se.half)
    ensures Congruent(Eval(b.coef, env), 1 * Eval(b.coef, env), se.half)
  {
    hide Sound, Congruent, WellFormed, Eval;
    EvalOps(e, env);
    OneOut(e.ops, k, env);
    OthersValue(se, e, k, b.free, env);
    var s, x, f := Sum(Values(e.ops[..k] + e.ops[k + 1..], env)), Eval(e.ops[k], env), Eval(b.free, env);
    CongruentSymm(s + x, s + x, se.half);
    CongruentSymm(Eval(b.coef, env), Eval(b.coef, env), se.half);
    CongruentSum(s + x, s + x, Eval(se.getAdd(Others(e, k, b.free)), env), s + f, se.half);
    assert s + x - (s + f) == x - f;
  }

  lemma ProductGrows(se: Builders, e: SCEV, k: nat, b: Binomial, env: Env, n: nat)
    requires Sound(se) && e.Mul? && WellFormed(se, e) && k < |e.ops| && Clear(se, e.ops[k], b) && Suits(se, env)
    requires WellFormed(se, b.coef) && WellFormed(se, b.free) && Grows(se, e.ops[k], b, env, n)
    requires forall i :: 0 <= i < |e.ops| && i != k ==> !Mentions(b.loop.value, e.ops[i])
    ensures Grows(se, e, Binomial(b.loop, se.getMul(Others(e, k, b.coef)), se.getMul(Others(e, k, b.free)), b.safe), env, n)
  {
    hide Sound, Congruent, WellFormed, Beyond, Mentions, Eval;
    var loop, half := b.loop.value, se.half;
    ProductBeyond(se, e, k, b, loop, env, 0);
    ProductBeyond(se, e, k, b, loop, env, n);
    ProductBeyond(se, e, k, b, loop, env, n + 1);
    var p := Product(Values(e.ops[..k] + e.ops[k + 1..], env));
    var first, now, next := InIteration(env, loop, 0), InIteration(env, loop, n), InIteration(env, loop, n + 1);
    var product := Binomial(b.loop, se.getMul(Others(e, k, b.coef)), se.getMul(Others(e, k, b.free)), b.safe);
    CongruentScaled(Beyond(e.ops[k], b, first), 0, p, half);
    CongruentTrans(Beyond(e, product, first), p * Beyond(e.ops[k], b, first), p * 0, half);
    GrowsAlike(p, Beyond(e.ops[k], b, now), Beyond(e.ops[k], b, next), Eval(b.coef, now),
               Beyond(e, product, now), Beyond(e, product, next), Eval(product.coef, now), half);
  }

  lemma ProductBeyond(se: Builders, e: SCEV, k: nat, b: Binomial, loop: Loop, env: Env, n: nat)
    requires Sound(se) && e.Mul? && WellFormed(se, e) && k < |e.ops| && Suits(se, env)
    requires WellFormed(se, b.coef) && WellFormed(se, b.free)
    requires forall i :: 0 <= i < |e.ops| && i != k ==> !Mentions(loop, e.ops[i])
    ensures var now, p := InIteration(env, loop, n), Product(Values(e.ops[..k] + e.ops[k + 1..], env));
            var product := Binomial(b.loop, se.getMul(Others(e, k, b.coef)), se.getMul(Others(e, k, b.free)), b.safe);
            && Congruent(Beyond(e, product, now), p * Beyond(e.ops[k], b, now), se.half)
            && Congruent(Eval(product.coef, now), p * Eval(b.coef, now), se.half)
  {
    hide Sound, Congruent, WellFormed, Eval;
    var now, others := InIteration(env, loop, n), e.ops[..k] + e.ops[k + 1..];
    OthersSilent(e, k, loop, env, n);
    EvalOps(e, now);
    OneOut(e.ops, k, now);
    OthersValue(se, e, k, b.coef, now);
    OthersValue(se, e, k, b.free, now);
    var p, x, f := Product(Values(others, env)), Eval(e.ops[k], now), Eval(b.free, now);
    ScaledRest(p, x, f, Eval(se.getMul(Others(e, k, b.free)), now), se.half);
  }

  lemma OthersSilent(e: SCEV, k: nat, loop: Loop, env: Env, n: nat)
    requires e.Mul? && k < |e.ops| && forall i :: 0 <= i < |e.ops| && i != k ==> !Mentions(loop, e.ops[i])
    ensures var others := e.ops[..k] + e.ops[k + 1..];
            Values(others, InIteration(env, loop, n)) == Values(others, env)
  {
    hide Mentions;
    var others := e.ops[..k] + e.ops[k + 1..];
    forall i | 0 <= i < |others|
      ensures Eval(others[i], InIteration(env, loop, n)) == Eval(others[i], env)
    {
      assert others[i] == if i < k then e.ops[i] else e.ops[i + 1];
      SilentValue(others[i], env, loop, n);
    }
  }

  /** With a free term and a coefficient that do not change in the loop, the growth adds up to a multiple of the coefficient. */
  lemma {:induction false} GrowthAddsUp(se: Builders, e: SCEV, b: Binomial, env: Env, n: nat)
    requires Sound(se) && Clear(se, e, b)
    requires se.isLoopInvariant(b.coef, b.loop.value) && se.isLoopInvariant(b.free, b.loop.value)
    requires forall m: nat :: Grows(se, e, b, env, m)
    ensures Congruent(Eval(e, InIteration(env, b.loop.value, n)), Eval(b.free, env) + Eval(b.coef, env) * n, se.half)
  {
    hide KeepsValues, KeepsForm, Substitutes, Simplifies, TellsInvariance, KeepsInvariance, Congruent, Eval;
    var loop := b.loop.value;
    var f, c := Eval(b.free, env), Eval(b.coef, env);
    InvariantIsSilent(se, b.free, loop);
    InvariantIsSilent(se, b.coef, loop);
    SilentValue(b.free, env, loop, n);
    var x := Eval(e, InIteration(env, loop, n));
    CongruentSymm(f, f, se.half);
    if n == 0 {
      assert Grows(se, e, b, env, 0);
      CongruentSum(x - f, 0, f, f, se.half);
    } else {
      assert Grows(se, e, b, env, n - 1);
      GrowthAddsUp(se, e, b, env, n - 1);
      SilentValue(b.free, env, loop, n - 1);
      SilentValue(b.coef, env, loop, n - 1);
      var y := Eval(e, InIteration(env, loop, n - 1));
      CongruentSymm(c - f, c - f, se.half);
      CongruentSum(y, f + c * (n - 1), c - f, c - f, se.half);
      assert f + c * (n - 1) + (c - f) == c * n;
      CongruentTrans(x - f, y - f + c, c * n, se.half);
      CongruentSum(x - f, c * n, f, f, se.half);
    }
  }

  // ---------- The result ----------

  /** The binomial of an expression that passes the tests has its value. */
  lemma BinomialValue(se: Builders, e: SCEV, env: Env)
    requires Sound(se) && WellFormed(se, e) && Suits(se, env)
    ensures var b := Search(se, e, true);
            Separate(e) && Accepted(se, b) && Clear(se, e, b) ==>
              Congruent(Eval(e, env), Eval(b.free, env) + Eval(b.coef, env) * env.iteration(b.loop.value), se.half)
  {
    hide Sound, Congruent, Search, WellFormed, Alone, Found, Eval;
    var b := Search(se, e, true);
    SearchBinds(se, e, true);
    if Separate(e) && Accepted(se, b) && Clear(se, e, b) {
      if |Found(e).value.ops| == 2 {
        SearchLinear(se, e, true, env);
      } else {
        FoundOrder(se, e);
        forall m: nat
          ensures Grows(se, e, b, env, m)
        {
          SearchGrows(se, e, true, env, m);
        }
        var n := env.iteration(b.loop.value);
        GrowthAddsUp(se, e, b, env, n);
        SameValue(e, InIteration(env, b.loop.value, n), env);
      }
    }
  }

  lemma {:induction false} FoundOrder(se: Builders, e: SCEV)
    requires WellFormed(se, e) && Found(e).Some?
    ensures |Found(e).value.ops| >= 2
  {
    match e
    case Cast(_, op) => FoundOrder(se, op);
    case Add(ops) => FoundOrder(se, ops[FirstFound(e, 0)]);
    case Mul(ops) => FoundOrder(se, ops[FirstFound(e, 0)]);
    case _ =>
  }

  /**
   A safe result has the value of the expression, for arbitrarily nested sums, products and recurrences: when the
   recurrence found is not affine, the tests accept only coefficients that have become constant.
   */
  lemma AddRecRight(se: Builders, e: SCEV, env: Env)
    requires Sound(se) && WellFormed(se, e) && Suits(se, env)
    ensures var r := ComputeSCEVAddRec(se, e);
            r.1 || Transparent(se, e) ==>
              WellFormed(se, r.0) && (Separate(e) ==> Congruent(Eval(r.0, env), Eval(e, env), se.half))
  {
    hide Sound, Congruent, Search, WellFormed, Separate, Eval;
    var b := Search(se, e, true);
    SearchBinds(se, e, true);
    BinomialValue(se, e, env);
    CongruentSymm(Eval(e, env), Eval(e, env), se.half);
    if Accepted(se, b) && Clear(se, e, b) {
      var v := Eval(b.free, env) + Eval(b.coef, env) * env.iteration(b.loop.value);
      RecurrenceBuilt(se, b.free, b.coef, b.loop.value, env);
      CongruentSymm(Eval(e, env), v, se.half);
      if Separate(e) {
        CongruentTrans(Eval(se.getAddRec(b.free, b.coef, b.loop.value), env), v, Eval(e, env), se.half);
      }
    }
  }

  // ---------- When a recurrence is found, and safely ----------

  /** A cast is met in front of the recurrence or around it. */
  predicate Casts(e: SCEV) {
    match e
    case Cast(_, _) => true
    case Add(ops) => exists i :: 0 <= i < |ops| && i <= FirstFound(e, 0) && Casts(ops[i])
    case Mul(ops) => exists i :: 0 <= i < |ops| && i <= FirstFound(e, 0) && Casts(ops[i])
    case _ => false
  }

  /** The search is safe exactly when it meets no cast. */
  lemma {:induction false} SafeSearch(se: Builders, e: SCEV, safe: bool)
    requires Sound(se) && WellFormed(se, e)
    ensures Search(se, e, safe).safe <==> safe && !Casts(e)
    decreases e, 1, 0
  {
    hide Sound;
    match e {
      case Cast(_, op) => SearchBinds(se, op, false);
      case Mul(_) => SafeOperands(se, e, 0, safe);
      case Add(_) => SafeOperands(se, e, 0, safe);
      case _ =>
    }
  }

  lemma {:induction false} SafeOperands(se: Builders, e: SCEV, i: nat, safe: bool)
    requires Sound(se) && (e.Add? || e.Mul?) && WellFormed(se, e) && i <= |e.ops|
    ensures SearchOperands(se, e, i, safe).1.safe <==>
              safe && forall k :: i <= k < |e.ops| && k <= FirstFound(e, i) ==> !Casts(e.ops[k])
    decreases e, 0, |e.ops| - i
  {
    hide Sound, Casts;
    if i < |e.ops| {
      SafeSearch(se, e.ops[i], safe);
      SearchBinds(se, e.ops[i], safe);
      var b := Search(se, e.ops[i], safe);
      if b.loop.None? {
        SafeOperands(se, e, i + 1, b.safe);
      }
    }
  }

  /** The recurrence is affine, and everything beside it does not change in its loop. */
  predicate Lone(se: Builders, e: SCEV)
    decreases e, 1
  {
    match e
    case AddRec(ops, _) => |ops| == 2
    case Cast(_, op) => Lone(se, op)
    case Add(ops) => LoneOperand(se, e)
    case Mul(ops) => LoneOperand(se, e)
    case _ => false
  }

  predicate LoneOperand(se: Builders, e: SCEV)
    requires e.Add? || e.Mul?
    decreases e, 0
  {
    var k := FirstFound(e, 0);
    && k < |e.ops| && Lone(se, e.ops[k])
    && forall i :: 0 <= i < |e.ops| && i != k ==> se.isLoopInvariant(e.ops[i], Found(e.ops[k]).value.loop)
  }

  /** The parts of the binomial that is found may be those of a recurrence of the loop. */
  ghost predicate Usable(se: Builders, e: SCEV, b: Binomial) {
    && b.loop.Some? && Found(e).Some? && b.loop.value == Found(e).value.loop
    && RecurrenceOperands(se, b.free, b.coef, b.loop.value)
  }

  lemma {:induction false} LoneUsable(se: Builders, e: SCEV, safe: bool)
    requires Sound(se) && WellFormed(se, e) && Lone(se, e) && (Casts(e) ==> KeepsCasts(se))
    ensures Usable(se, e, Search(se, e, safe))
    decreases e, 1, 0
  {
    hide Sound, KeepsCasts;
    match e {
      case Cast(kind, op) =>
        LoneUsable(se, op, false);
        CastUsable(se, kind, op, Search(se, op, false));
      case AddRec(ops, loop) =>
        StepUsable(se, e);
      case Mul(ops) =>
        OperandUsable(se, e, 0, safe);
        var (k, b) := SearchOperands(se, e, 0, safe);
        OthersUsable(se, e, k, b.coef, b.loop.value);
        OthersUsable(se, e, k, b.free, b.loop.value);
      case Add(ops) =>
        OperandUsable(se, e, 0, safe);
        var (k, b) := SearchOperands(se, e, 0, safe);
        OthersUsable(se, e, k, b.free, b.loop.value);
    }
  }

  lemma CastUsable(se: Builders, kind: nat, op: SCEV, b: Binomial)
    requires KeepsCasts(se) && Usable(se, op, b)
    ensures Usable(se, Cast(kind, op), Binomial(b.loop, se.getCast(kind, b.coef), se.getCast(kind, b.free), b.safe))
  {
    hide WellFormed;
  }

  lemma StepUsable(se: Builders, e: SCEV)
    requires WellFormed(se, e) && e.AddRec? && |e.ops| == 2
    ensures RecurrenceOperands(se, e.ops[0], e.ops[1], e.loop)
  {
  }

  lemma OthersUsable(se: Builders, e: SCEV, k: nat, put: SCEV, loop: Loop)
    requires Sound(se) && (e.Add? || e.Mul?) && WellFormed(se, e) && k < |e.ops|
    requires WellFormed(se, put) && se.isLoopInvariant(put, loop)
    requires forall i :: 0 <= i < |e.ops| && i != k ==> se.isLoopInvariant(e.ops[i], loop)
    ensures var s, p := se.getAdd(Others(e, k, put)), se.getMul(Others(e, k, put));
            WellFormed(se, s) && WellFormed(se, p) && se.isLoopInvariant(s, loop) && se.isLoopInvariant(p, loop)
  {
    hide KeepsValues, KeepsForm, Substitutes, Simplifies, TellsInvariance, WellFormed, AllFormed;
    OthersFormed(se, e, k, put);
    var others := Others(e, k, put);
    forall i | 0 <= i < |others|
      ensures se.isLoopInvariant(others[i], loop)
    {
      assert others[i] == if i < k then e.ops[i] else if i < |e.ops| - 1 then e.ops[i + 1] else put;
    }
    assert AllInvariant(se, others, loop);
  }

  lemma {:induction false} OperandUsable(se: Builders, e: SCEV, i: nat, safe: bool)
    requires Sound(se) && (e.Add? || e.Mul?) && WellFormed(se, e) && i <= |e.ops|
    requires var k := FirstFound(e, i); k < |e.ops| && Lone(se, e.ops[k]) && (Casts(e.ops[k]) ==> KeepsCasts(se))
    ensures var (k, b) := SearchOperands(se, e, i, safe); k == FirstFound(e, i) && Usable(se, e.ops[k], b)
    decreases e, 0, |e.ops| - i
  {
    hide Sound, KeepsCasts, Usable, Lone, Casts;
    SearchBinds(se, e.ops[i], safe);
    var b := Search(se, e.ops[i], safe);
    if b.loop.None? {
      OperandUsable(se, e, i + 1, b.safe);
    } else {
      LoneUsable(se, e.ops[i], safe);
    }
  }

  /**
   Around one affine recurrence, with everything else unchanged in its loop, a recurrence of the loop is built, and it is
   called safe exactly when no cast has been met.
   */
  lemma AddRecFound(se: Builders, e: SCEV)
    requires Sound(se) && WellFormed(se, e) && Lone(se, e) && (Casts(e) ==> KeepsCasts(se))
    ensures Found(e).Some?
    ensures var loop := Found(e).value.loop;
            exists s, t ::
              RecurrenceOperands(se, s, t, loop) && ComputeSCEVAddRec(se, e) == (se.getAddRec(s, t, loop), !Casts(e))
  {
    hide Sound, KeepsCasts, Search, Casts, WellFormed;
    LoneUsable(se, e, true);
    SafeSearch(se, e, true);
    var b := Search(se, e, true);
    assert RecurrenceOperands(se, b.free, b.coef, Found(e).value.loop);
  }

  /** A result other than the expression is called safe exactly when no cast has been met. */
  lemma SafeResult(se: Builders, e: SCEV)
    requires Sound(se) && WellFormed(se, e)
    ensures var r := ComputeSCEVAddRec(se, e); r.1 <==> !Casts(e) || !Accepted(se, Search(se, e, true))
    ensures var r := ComputeSCEVAddRec(se, e); r.0 != e && Casts(e) ==> !r.1
  {
    hide Sound, Search, Casts, WellFormed;
    SafeSearch(se, e, true);
  }

  /** The test of invariance rejects recurrences that are not affine, which are not binomials. */
  lemma NotAffine(se: Builders, ops: seq<SCEV>, loop: Loop)
    requires Sound(se) && |ops| > 2 && WellFormed(se, AddRec(ops, loop))
    ensures ComputeSCEVAddRec(se, AddRec(ops, loop)) == (AddRec(ops, loop), true)
  {
    hide KeepsValues, KeepsForm, Substitutes, Simplifies, KeepsInvariance, WellFormed;
    assert !OperandsInvariant(se, AddRec(ops[1..], loop), loop);
  }

  lemma NotAffineDiffers(se: Builders, env: Env)
    requires Sound(se) && se.half > 1 && env.iteration(0) == 2
    ensures var e := AddRec([Zero, Zero, One], 0);
            && WellFormed(se, e)
            && var b := Search(se, e, true);
               !Congruent(Eval(e, env), Eval(b.free, env) + Eval(b.coef, env) * env.iteration(0), se.half)
  {
    hide Eval, KeepsValues, KeepsForm, Substitutes, Simplifies, KeepsInvariance;
    assert [Zero, Zero, One][1..] == [Zero, One];
    ThirdOrderValues(env);
    ZeroValue(env);
  }

  lemma ZeroValue(env: Env)
    ensures Eval(Zero, env) == 0
  {
  }

  lemma ThirdOrderValues(env: Env)
    requires env.iteration(0) == 2
    ensures Eval(AddRec([Zero, Zero, One], 0), env) == 1 && Eval(AddRec([Zero, One], 0), env) == 2
  {
    var e, step := AddRec([Zero, Zero, One], 0), AddRec([Zero, One], 0);
    EvalOps(e, env);
    EvalOps(step, env);
    assert Values(e.ops, env) == [0, 0, 1] && Values(step.ops, env) == [0, 1];
    AffineRecurrence(0, 1, 2);
    assert [0, 0, 1][1..] == [0, 1] && [0, 1][1..] == [1] && [1][1..] == [];
    assert Choose(2, 2) == 1;
    assert Recurrence([1], 2, 2) == 1;
    assert Recurrence([0, 1], 2, 1) == 1;
    assert Recurrence([0, 0, 1], 2, 0) == 1;
  }
}

/**
 `findGCD` of lib/Support/SCEVUtils.cpp: a common divisor of expressions is looked for among the factors of one of them.
 */
module ScevGcd {
  import opened DivisionTermination
  import opened GcdSearch
  import opened ScalarEvolution
  import opened ScevAddRec
  import opened ScevCommonFactors
  import opened ScevDivision
  import opened ScevMultiples
  import opened ValueDivisibility
  import opened WordArithmetic
  import opened Wrappers

  // ---------- The terms of an expression ----------

  /** The terms that stand for an expression: the start and the step of the recurrence that it is, or the expression itself. */
  function TermsOf(se: Builders, e: SCEV): (ts: seq<SCEV>)
    requires WellFormed(se, e)
  {
    var (r, safe) := ComputeSCEVAddRec(se, e);
    if r.AddRec? && |r.ops| >= 2 && safe then [r.ops[0], StepRecurrence(r)] else [e]
  }

  /** A product without recurrences has a loop only inside casts, which are not safe. */
  lemma {:induction false} FreeIsUnsafe(se: Builders, e: SCEV, safe: bool)
    requires WellFormed(se, e) && RecurrenceFree(e)
    ensures var b := Search(se, e, safe); b.loop.Some? ==> !b.safe
    decreases e, 1, 0
  {
    match e {
      case Cast(_, op) => CastIsUnsafe(se, op);
      case Mul(_) => OperandsFree(se, e, 0, safe);
      case Add(_) => OperandsFree(se, e, 0, safe);
      case _ =>
    }
  }

  lemma {:induction false} OperandsFree(se: Builders, e: SCEV, i: nat, safe: bool)
    requires (e.Add? || e.Mul?) && WellFormed(se, e) && i <= |e.ops| && forall k :: 0 <= k < |e.ops| ==> RecurrenceFree(e.ops[k])
    ensures var b := SearchOperands(se, e, i, safe).1; b.loop.Some? ==> !b.safe
    decreases e, 0, |e.ops| - i
  {
    if i < |e.ops| {
      FreeIsUnsafe(se, e.ops[i], safe);
      var b := Search(se, e.ops[i], safe);
      if b.loop.None? {
        OperandsFree(se, e, i + 1, b.safe);
      }
    }
  }

  lemma {:induction false} CastIsUnsafe(se: Builders, e: SCEV)
    requires WellFormed(se, e)
    ensures !Search(se, e, false).safe
    decreases e, 1, 0
  {
    match e {
      case Cast(_, op) => CastIsUnsafe(se, op);
      case Mul(_) => OperandsUnsafe(se, e, 0);
      case Add(_) => OperandsUnsafe(se, e, 0);
      case _ =>
    }
  }

  lemma {:induction false} OperandsUnsafe(se: Builders, e: SCEV, i: nat)
    requires (e.Add? || e.Mul?) && WellFormed(se, e) && i <= |e.ops|
    ensures !SearchOperands(se, e, i, false).1.safe
    decreases e, 0, |e.ops| - i
  {
    if i < |e.ops| {
      CastIsUnsafe(se, e.ops[i]);
      if Search(se, e.ops[i], false).loop.None? {
        OperandsUnsafe(se, e, i + 1);
      }
    }
  }

  /** The parts of an expression of the class `c` are in it, its products are without recurrences, its recurrences affine. */
  ghost predicate Simple(e: SCEV, c: SCEV -> bool) {
    match e
    case Add(ops) => forall i :: 0 <= i < |ops| ==> c(ops[i])
    case Mul(ops) => forall i :: 0 <= i < |ops| ==> RecurrenceFree(ops[i])
    case AddRec(ops, _) => |ops| == 2 && c(ops[0]) && c(ops[1])
    case _ => true
  }

  /** A class of such expressions that is closed under building recurrences and, when sums have some as terms, sums. */
  ghost predicate Closed(se: Builders, c: SCEV -> bool) {
    && (forall e :: c(e) ==> Simple(e, c))
    && (forall s, t, loop {:trigger se.getAddRec(s, t, loop)} ::
          RecurrenceOperands(se, s, t, loop) && c(s) && c(t) ==> c(se.getAddRec(s, t, loop)))
    && (forall e, ops {:trigger c(e), se.getAdd(ops)} ::
          c(e) && e.Add? && !RecurrenceFree(e) && AllFormed(se, ops) && (forall i :: 0 <= i < |ops| ==> c(ops[i])) ==>
          c(se.getAdd(ops)))
  }

  lemma AffineClosed(se: Builders)
    requires KeepsAffine(se)
    ensures Closed(se, Affine)
  {
    hide AllFormed, RecurrenceOperands, RecurrenceFree;
  }

  lemma LayeredClosed(se: Builders, sums: bool)
    requires KeepsLayered(se, sums)
    ensures Closed(se, e => Layered(e, sums))
  {
    hide AllFormed, RecurrenceOperands;
    forall e: SCEV | e.Mul? && Monomial(e)
      ensures forall i :: 0 <= i < |e.ops| ==> RecurrenceFree(e.ops[i])
    {
    }
  }

  /** In an expression of the class the recurrence that is found safely is affine, and its parts are in the class. */
  ghost predicate PartsIn(e: SCEV, b: Binomial, c: SCEV -> bool) {
    b.loop.Some? && b.safe ==> Found(e).Some? && |Found(e).value.ops| == 2 && c(b.coef) && c(b.free)
  }

  lemma {:induction false} SearchIn(se: Builders, e: SCEV, c: SCEV -> bool, safe: bool)
    requires Sound(se) && Closed(se, c) && WellFormed(se, e) && c(e)
    ensures PartsIn(e, Search(se, e, safe), c)
    decreases e, 1, 0
  {
    hide Sound, Closed;
    PartsSimple(se, e, c);
    if RecurrenceFree(e) {
      FreeIsUnsafe(se, e, safe);
    } else {
      match e {
        case Cast(_, op) => CastIsUnsafe(se, op);
        case Add(ops) =>
          OperandsBind(se, e, 0, safe);
          var (k, b) := SearchOperands(se, e, 0, safe);
          if b.loop.Some? && b.safe {
            OperandsIn(se, e, c, 0, safe);
            SumIn(se, e, c, k, b.free);
          }
        case _ =>
      }
    }
  }

  lemma PartsSimple(se: Builders, e: SCEV, c: SCEV -> bool)
    requires Closed(se, c) && c(e)
    ensures Simple(e, c)
  {
  }

  lemma SumIn(se: Builders, e: SCEV, c: SCEV -> bool, k: nat, put: SCEV)
    requires Sound(se) && Closed(se, c) && WellFormed(se, e) && e.Add? && c(e) && !RecurrenceFree(e) && k < |e.ops|
    requires WellFormed(se, put) && c(put)
    ensures c(se.getAdd(Others(e, k, put)))
  {
    hide Sound, WellFormed, AllFormed, Others, RecurrenceFree;
    OthersFormed(se, e, k, put);
    OthersAre(e, k, put);
    var others := Others(e, k, put);
    assert forall i :: 0 <= i < |others| ==> c(others[i]);
  }

  lemma {:induction false} OperandsIn(se: Builders, e: SCEV, c: SCEV -> bool, i: nat, safe: bool)
    requires Sound(se) && Closed(se, c) && e.Add? && WellFormed(se, e) && c(e) && i <= |e.ops|
    ensures var (k, b) := SearchOperands(se, e, i, safe); b.loop.Some? ==> PartsIn(e.ops[k], b, c)
    decreases e, 0, |e.ops| - i
  {
    hide Sound, Closed, PartsIn;
    PartsSimple(se, e, c);
    if i < |e.ops| {
      SearchIn(se, e.ops[i], c, safe);
      var b := Search(se, e.ops[i], safe);
      if b.loop.None? {
        OperandsIn(se, e, c, i + 1, b.safe);
      }
    }
  }

  /** The recurrence that an expression of the class is. */
  lemma ClosedResult(se: Builders, e: SCEV, c: SCEV -> bool)
    requires Sound(se) && Closed(se, c) && WellFormed(se, e) && c(e)
    ensures var r := ComputeSCEVAddRec(se, e);
            r.1 ==> c(r.0) && (r.0.AddRec? ==> |r.0.ops| == 2) && (r.0 != e ==> Separate(e))
  {
    hide Sound, Search, WellFormed, Found;
    SearchIn(se, e, c, true);
    SearchBinds(se, e, true);
  }

  /** The terms of an expression of the class are in it. */
  lemma TermsIn(se: Builders, e: SCEV, c: SCEV -> bool)
    requires Sound(se) && Closed(se, c) && WellFormed(se, e) && c(e)
    ensures forall t :: t in TermsOf(se, e) ==> c(t)
  {
    hide Sound, Closed, ComputeSCEVAddRec, WellFormed;
    ClosedResult(se, e, c);
    var (r, safe) := ComputeSCEVAddRec(se, e);
    if safe {
      PartsSimple(se, r, c);
    }
  }

  lemma TermsFormed(se: Builders, e: SCEV)
    requires Sound(se) && WellFormed(se, e)
    ensures forall t :: t in TermsOf(se, e) ==> WellFormed(se, t)
  {
    hide Sound, ComputeSCEVAddRec, Congruent, Separate;
    AddRecRight(se, e, Env(_ => 0, _ => 0, se.operations));
  }

  /** What divides the terms of an expression of the class divides the expression. */
  lemma TermsStand(se: Builders, e: SCEV, c: SCEV -> bool, ds: seq<SCEV>)
    requires Sound(se) && Closed(se, c) && WellFormed(se, e) && c(e)
    requires forall t :: t in TermsOf(se, e) ==> Divides(se, ds, t)
    ensures Divides(se, ds, e)
  {
    hide Sound, Closed, Divisible, ComputeSCEVAddRec, WellFormed;
    var (r, safe) := ComputeSCEVAddRec(se, e);
    if r.AddRec? && |r.ops| >= 2 && safe {
      ClosedResult(se, e, c);
      assert r.ops[0] in TermsOf(se, e) && r.ops[1] in TermsOf(se, e);
      forall env | Suits(se, env)
        ensures Divisible(Eval(e, env), Product(Values(ds, env)), se.half)
      {
        RecurrenceDivisible(se, e, r, ds, env);
      }
    } else {
      assert e in TermsOf(se, e);
    }
  }

  lemma RecurrenceDivisible(se: Builders, e: SCEV, r: SCEV, ds: seq<SCEV>, env: Env)
    requires Sound(se) && WellFormed(se, e) && ComputeSCEVAddRec(se, e) == (r, true) && r.AddRec? && |r.ops| == 2
    requires (r != e ==> Separate(e)) && Divides(se, ds, r.ops[0]) && Divides(se, ds, r.ops[1]) && Suits(se, env)
    ensures Divisible(Eval(e, env), Product(Values(ds, env)), se.half)
  {
    hide Sound, ComputeSCEVAddRec, Congruent, Separate;
    var g, i := Product(Values(ds, env)), env.iteration(r.loop);
    AddRecRight(se, e, env);
    CongruentSymm(Eval(e, env), Eval(e, env), se.half);
    EvalOps(r, env);
    assert Values(r.ops, env) == [Eval(r.ops[0], env), Eval(r.ops[1], env)];
    AffineRecurrence(Eval(r.ops[0], env), Eval(r.ops[1], env), i);
    DivisibleSum(Eval(r.ops[0], env), Eval(r.ops[1], env), i, g, se.half);
    var q :| IsMultiple(Eval(r, env), q, g, se.half);
    CongruentSymm(Eval(r, env), Eval(e, env), se.half);
    CongruentTrans(Eval(e, env), Eval(r, env), q * g, se.half);
    assert IsMultiple(Eval(e, env), q, g, se.half);
  }

  /** With a step other than zero a recurrence is built as one. */
  ghost predicate KeepsRecurrences(se: Builders) {
    forall s, t, loop {:trigger se.getAddRec(s, t, loop)} ::
      RecurrenceOperands(se, s, t, loop) && t != Zero ==> se.getAddRec(s, t, loop) == AddRec([s, t], loop)
  }

  /** The value starts at `s` and grows by `t` in every iteration of the loop. */
  ghost predicate StartsAndGrows(se: Builders, e: SCEV, s: SCEV, t: SCEV, loop: Loop) {
    && RecurrenceOperands(se, s, t, loop)
    && forall env :: Suits(se, env) ==> Congruent(Eval(e, env), Eval(s, env) + Eval(t, env) * env.iteration(loop), se.half)
  }

  /**
   Around one affine recurrence that no cast hides the terms are the start and the step of the expression, unless the
   step is zero.
   */
  lemma TermsOfRecurrence(se: Builders, e: SCEV)
    requires Sound(se) && KeepsRecurrences(se) && WellFormed(se, e) && Lone(se, e) && !Casts(e)
    ensures Found(e).Some?
    ensures exists s, t :: StartsAndGrows(se, e, s, t, Found(e).value.loop) && (t == Zero || TermsOf(se, e) == [s, t])
  {
    hide Sound, Lone, Casts, ComputeSCEVAddRec, WellFormed, Congruent, Separate, Eval;
    AddRecFound(se, e);
    LoneIsSeparate(se, e);
    var loop := Found(e).value.loop;
    var s, t :| RecurrenceOperands(se, s, t, loop) && ComputeSCEVAddRec(se, e) == (se.getAddRec(s, t, loop), !Casts(e));
    forall env | Suits(se, env)
      ensures Congruent(Eval(e, env), Eval(s, env) + Eval(t, env) * env.iteration(loop), se.half)
    {
      AddRecRight(se, e, env);
      RecurrenceBuilt(se, s, t, loop, env);
      CongruentSymm(Eval(e, env), Eval(se.getAddRec(s, t, loop), env), se.half);
      CongruentTrans(Eval(e, env), Eval(se.getAddRec(s, t, loop), env),
                     Eval(s, env) + Eval(t, env) * env.iteration(loop), se.half);
    }
    assert StartsAndGrows(se, e, s, t, loop);
    if t != Zero {
      assert ComputeSCEVAddRec(se, e) == (AddRec([s, t], loop), true);
    }
  }

  lemma {:induction false} LoneIsSeparate(se: Builders, e: SCEV)
    requires Lone(se, e) && Found(e).Some?
    ensures Separate(e) && |Found(e).value.ops| == 2
  {
    match e
    case Cast(_, op) => LoneIsSeparate(se, op);
    case Add(ops) => LoneIsSeparate(se, ops[FirstFound(e, 0)]);
    case Mul(ops) => LoneIsSeparate(se, ops[FirstFound(e, 0)]);
    case _ =>
  }

  // ---------- The search for a divisor ----------

  /** The number of factors, by which terms are sorted. */
  function Factors(e: SCEV): int {
    if e.Mul? then |e.ops| else 1
  }

  ghost predicate Sorted(terms: seq<SCEV>, key: SCEV -> int) {
    forall i, j :: 0 <= i < j < |terms| ==> key(terms[i]) <= key(terms[j])
  }

  ghost predicate Distinct(terms: seq<SCEV>) {
    forall i, j :: 0 <= i < j < |terms| ==> terms[i] != terms[j]
  }

  lemma InOrder(terms: seq<SCEV>, key: SCEV -> int, i: nat, j: nat)
    requires Sorted(terms, key) && i < j < |terms|
    ensures key(terms[i]) <= key(terms[j])
  {
  }

  /** Where a term belongs in sorted terms. */
  method Position(sorted: seq<SCEV>, key: SCEV -> int, t: SCEV) returns (k: nat)
    requires Sorted(sorted, key)
    ensures k <= |sorted| && forall i :: 0 <= i < |sorted| ==> if i < k then key(sorted[i]) <= key(t) else key(t) < key(sorted[i])
  {
    k := |sorted|;
    while k > 0 && key(t) < key(sorted[k - 1])
      invariant 0 <= k <= |sorted|
      invariant forall i :: k <= i < |sorted| ==> key(t) < key(sorted[i])
    {
      k := k - 1;
    }
  }

  lemma Inserted(sorted: seq<SCEV>, key: SCEV -> int, t: SCEV, k: nat)
    requires Sorted(sorted, key) && k <= |sorted|
    requires forall i :: 0 <= i < |sorted| ==> if i < k then key(sorted[i]) <= key(t) else key(t) < key(sorted[i])
    ensures Sorted(sorted[..k] + [t] + sorted[k..], key)
    ensures forall x :: x in sorted[..k] + [t] + sorted[k..] <==> x in sorted || x == t
  {
    var r := sorted[..k] + [t] + sorted[k..];
    assert sorted == sorted[..k] + sorted[k..];
    forall i, j | 0 <= i < j < |r|
      ensures key(r[i]) <= key(r[j])
    {
      assert r[i] == if i < k then sorted[i] else if i == k then t else sorted[i - 1];
      assert r[j] == if j < k then sorted[j] else if j == k then t else sorted[j - 1];
    }
  }

  lemma InsertedDistinct(sorted: seq<SCEV>, t: SCEV, k: nat)
    requires Distinct(sorted) && k <= |sorted| && t !in sorted
    ensures Distinct(sorted[..k] + [t] + sorted[k..])
  {
    var r := sorted[..k] + [t] + sorted[k..];
    forall i, j | 0 <= i < j < |r|
      ensures r[i] != r[j]
    {
      assert r[i] == if i < k then sorted[i] else if i == k then t else sorted[i - 1];
      assert r[j] == if j < k then sorted[j] else if j == k then t else sorted[j - 1];
    }
  }

  /** The library's sort by a key. */
  method Sort(terms: seq<SCEV>, key: SCEV -> int) returns (sorted: seq<SCEV>)
    ensures forall t :: t in sorted <==> t in terms
    ensures Sorted(sorted, key) && (Distinct(terms) ==> Distinct(sorted))
  {
    hide Sorted;
    NothingSorted(key);
    sorted := [];
    for n := 0 to |terms|
      invariant forall t :: t in sorted <==> t in terms[..n]
      invariant Sorted(sorted, key) && (Distinct(terms) ==> Distinct(sorted))
    {
      var k := Position(sorted, key, terms[n]);
      Inserted(sorted, key, terms[n], k);
      if Distinct(terms) {
        assert terms[n] !in terms[..n];
        InsertedDistinct(sorted, terms[n], k);
      }
      sorted := sorted[..k] + [terms[n]] + sorted[k..];
      assert terms[..n + 1] == terms[..n] + [terms[n]];
    }
    assert terms[..|terms|] == terms;
  }

  lemma NothingSorted(key: SCEV -> int)
    ensures Sorted([], key) && Distinct([])
  {
  }

  /** `std::unique`: of equal neighbours only the first one is kept. */
  method Unique(terms: seq<SCEV>, ghost key: SCEV -> int) returns (r: seq<SCEV>)
    requires Sorted(terms, key) && Injective(key)
    ensures forall t :: t in r <==> t in terms
    ensures Distinct(r)
  {
    r := [];
    for n := 0 to |terms|
      invariant forall t :: t in r <==> t in terms[..n]
      invariant Distinct(r) && Sorted(r, key) && (r == [] <==> n == 0) && (n > 0 ==> r[|r| - 1] == terms[n - 1])
    {
      assert terms[..n + 1] == terms[..n] + [terms[n]];
      if r == [] || r[|r| - 1] != terms[n] {
        LaterKey(r, terms, key, n);
        r := r + [terms[n]];
      }
    }
    assert terms[..|terms|] == terms;
  }

  ghost predicate Injective(key: SCEV -> int) {
    forall a, b :: key(a) == key(b) ==> a == b
  }

  lemma LaterKey(r: seq<SCEV>, terms: seq<SCEV>, key: SCEV -> int, n: nat)
    requires Sorted(terms, key) && Injective(key) && n < |terms| && Sorted(r, key) && Distinct(r)
    requires if r == [] then n == 0 else n > 0 && r[|r| - 1] == terms[n - 1] && terms[n - 1] != terms[n]
    ensures Sorted(r + [terms[n]], key) && Distinct(r + [terms[n]])
  {
    if r != [] {
      assert key(terms[n - 1]) < key(terms[n]);
      forall i | 0 <= i < |r|
        ensures key(r[i]) < key(terms[n])
      {
        assert key(r[i]) <= key(r[|r| - 1]);
      }
    }
  }

  /** `std::remove_if` of the terms that are zero. */
  method RemoveZeros(terms: seq<SCEV>) returns (r: seq<SCEV>)
    ensures forall t :: t in r <==> t in terms && t != Zero
    ensures Distinct(terms) ==> Distinct(r)
  {
    r := [];
    for n := 0 to |terms|
      invariant forall t :: t in r <==> t in terms[..n] && t != Zero
      invariant Distinct(terms) ==> Distinct(r)
    {
      assert terms[..n + 1] == terms[..n] + [terms[n]];
      assert Distinct(terms) ==> terms[n] !in terms[..n];
      if terms[n] != Zero {
        r := r + [terms[n]];
      }
    }
    assert terms[..|terms|] == terms;
  }

  /** The terms of all expressions. */
  method CollectTerms(se: Builders, expressions: seq<SCEV>) returns (terms: seq<SCEV>)
    requires forall e :: e in expressions ==> WellFormed(se, e)
    ensures forall t :: t in terms <==> exists e :: e in expressions && t in TermsOf(se, e)
  {
    terms := [];
    for n := 0 to |expressions|
      invariant forall t :: t in terms <==> exists e :: e in expressions[..n] && t in TermsOf(se, e)
    {
      assert expressions[..n + 1] == expressions[..n] + [expressions[n]];
      ghost var e := expressions[n];
      var info := ComputeSCEVAddRec(se, expressions[n]);
      ghost var was := terms;
      if info.0.AddRec? && |info.0.ops| >= 2 {
        if info.1 {
          terms := terms + [info.0.ops[0]];
          terms := terms + [StepRecurrence(info.0)];
        } else {
          terms := terms + [expressions[n]];
        }
      } else {
        terms := terms + [expressions[n]];
      }
      assert terms == was + TermsOf(se, e);
    }
    assert expressions[..|expressions|] == expressions;
  }

  // ---------- What is kept of the divisors ----------

  /** Every division that is taken to be exact is faithful. */
  ghost predicate TrustedKeep(se: Builders, rest: SCEV, ds: seq<SCEV>, fuel: nat)
    requires AllProper(ds)
    decreases |ds|
  {
    ds == [] ||
    var r := Divide(se, rest, ds[0], fuel);
    r.Some? ==>
      if r.value.remainder != Zero then TrustedKeep(se, rest, ds[1..], fuel)
      else Faithful(se, rest, ds[0], fuel) && TrustedKeep(se, r.value.quotient, ds[1..], fuel)
  }

  ghost predicate TrustedNarrow(se: Builders, terms: seq<SCEV>, ds: seq<SCEV>, fuel: nat)
    requires AllProper(ds)
  {
    terms == [] ||
    (TrustedKeep(se, terms[0], ds, fuel) &&
     var kept := Keep(se, terms[0], ds, fuel);
     kept.Some? && kept.value != [] ==> TrustedNarrow(se, terms[1..], kept.value, fuel))
  }

  ghost predicate Trusted(se: Builders, terms: seq<SCEV>, fuel: nat)
    requires terms != [] ==> AllProper(DivisorsOf(terms[0]))
  {
    |terms| >= 2 ==> TrustedNarrow(se, terms[1..], DivisorsOf(terms[0]), fuel)
  }

  /** A faithful exact division is exact in every environment, and the quotient is well formed. */
  lemma QuotientRight(se: Builders, n: SCEV, d: SCEV, fuel: nat)
    requires Sound(se) && WellFormed(se, n) && Proper(d) && Faithful(se, n, d, fuel)
    requires var r := Divide(se, n, d, fuel); r.Some? && r.value.remainder == Zero
    ensures var q := Divide(se, n, d, fuel).value.quotient;
            WellFormed(se, q) && AlwaysExact(se, n, d, DivisionResult(q, Zero))
  {
    hide Sound, Divide, Faithful, Exact;
    var r := Divide(se, n, d, fuel).value;
    assert r == DivisionResult(r.quotient, Zero);
    DivideRight(se, n, d, fuel, Env(_ => 0, _ => 0, se.operations));
    forall env | Suits(se, env)
      ensures Exact(n, d, r, env, se.half)
    {
      DivideRight(se, n, d, fuel, env);
    }
  }

  /** The divisors that are kept divide the term together, and everything that all divisors divided. */
  lemma {:induction false} KeepRight(se: Builders, rest: SCEV, ds: seq<SCEV>, fuel: nat)
    requires Sound(se) && WellFormed(se, rest) && AllProper(ds) && TrustedKeep(se, rest, ds, fuel)
    requires Keep(se, rest, ds, fuel).Some?
    ensures var kept := Keep(se, rest, ds, fuel).value; Divides(se, kept, rest) && Selected(se, ds, kept)
    ensures forall d :: d in Keep(se, rest, ds, fuel).value ==> d in ds
    decreases |ds|
  {
    hide Sound, Divides, Selected, Divide, Faithful, WellFormed, AlwaysExact;
    if ds == [] {
      UnitDivides(se, rest);
    } else {
      assert ds == [ds[0]] + ds[1..];
      var r := Divide(se, rest, ds[0], fuel).value;
      if r.remainder != Zero {
        KeepRight(se, rest, ds[1..], fuel);
        SelectedSkip(se, ds[1..], Keep(se, rest, ds[1..], fuel).value, ds[0]);
      } else {
        QuotientRight(se, rest, ds[0], fuel);
        KeepRight(se, r.quotient, ds[1..], fuel);
        var more := Keep(se, r.quotient, ds[1..], fuel).value;
        OneMoreDivisor(se, rest, ds[0], r.quotient, more);
        SelectedStep(se, ds[1..], more, ds[0]);
      }
    }
  }

  ghost predicate AllDivided(se: Builders, g: SCEV, terms: seq<SCEV>) {
    forall t :: t in terms ==> Divides(se, [g], t)
  }

  /** The result divides all terms, and everything that the divisors divide. */
  lemma {:induction false} NarrowRight(se: Builders, terms: seq<SCEV>, ds: seq<SCEV>, fuel: nat)
    requires Sound(se) && AllProper(ds) && AllFormed(se, ds) && TrustedNarrow(se, terms, ds, fuel)
    requires forall t :: t in terms ==> WellFormed(se, t)
    requires var g := Narrow(se, terms, ds, fuel); g.Some? && g.value != CouldNotCompute
    ensures var g := Narrow(se, terms, ds, fuel).value;
            AllDivided(se, g, terms) && forall e :: Divides(se, ds, e) ==> Divides(se, [g], e)
  {
    hide Sound, Divides, WellFormed, Keep, TrustedKeep, Selected;
    var g := Narrow(se, terms, ds, fuel).value;
    if terms == [] {
      if |ds| == 1 {
        assert ds == [g];
      } else {
        forall e | Divides(se, ds, e)
          ensures Divides(se, [g], e)
        {
          ProductDivides(se, ds, e);
        }
      }
    } else {
      var kept := Keep(se, terms[0], ds, fuel).value;
      assert terms[0] in terms;
      KeepRight(se, terms[0], ds, fuel);
      forall i | 0 <= i < |kept|
        ensures WellFormed(se, kept[i])
      {
        assert kept[i] in kept;
      }
      NarrowRight(se, terms[1..], kept, fuel);
      assert terms == [terms[0]] + terms[1..];
      forall e | Divides(se, ds, e)
        ensures Divides(se, kept, e)
      {
        SelectedDivides(se, ds, kept, e);
      }
    }
  }

  lemma {:induction false} FormedIsProper(se: Builders, t: SCEV)
    requires WellFormed(se, t) && t != Zero
    ensures Proper(t)
  {
    if t.Mul? {
      forall i | 0 <= i < |t.ops|
        ensures Proper(t.ops[i])
      {
        FormedIsProper(se, t.ops[i]);
      }
    }
  }

  lemma FirstDivides(se: Builders, t: SCEV)
    requires WellFormed(se, t) && t != Zero
    ensures AllProper(DivisorsOf(t)) && AllFormed(se, DivisorsOf(t)) && Divides(se, DivisorsOf(t), t)
  {
    hide Divides;
    FormedIsProper(se, t);
    if t.Mul? {
      FactorsDivide(se, t);
    } else {
      ItselfDivides(se, t);
    }
  }

  /** A computable result divides all terms. */
  lemma GcdRight(se: Builders, terms: seq<SCEV>, fuel: nat)
    requires Sound(se) && forall t :: t in terms ==> WellFormed(se, t) && t != Zero
    requires (terms != [] ==> AllProper(DivisorsOf(terms[0]))) && Trusted(se, terms, fuel)
    requires var g := Gcd(se, terms, fuel); g.Some? && g.value != CouldNotCompute
    ensures AllDivided(se, Gcd(se, terms, fuel).value, terms)
  {
    hide Sound, Divides, WellFormed, Narrow, TrustedNarrow, DivisorsOf;
    assert terms[0] in terms;
    FirstDivides(se, terms[0]);
    if |terms| < 2 {
      ItselfDivides(se, terms[0]);
    } else {
      NarrowRight(se, terms[1..], DivisorsOf(terms[0]), fuel);
      assert terms == [terms[0]] + terms[1..];
    }
  }

  // ---------- The common divisor ----------

  /** The terms of all expressions, each but zero once, small ones first. */
  ghost predicate Arranged(se: Builders, expressions: seq<SCEV>, terms: seq<SCEV>)
    requires forall e :: e in expressions ==> WellFormed(se, e)
  {
    && (forall t :: t in terms <==> t != Zero && exists e :: e in expressions && t in TermsOf(se, e))
    && Distinct(terms) && Sorted(terms, Factors)
  }

  /** The result for one arrangement of the terms. */
  ghost predicate Answer(se: Builders, expressions: seq<SCEV>, terms: seq<SCEV>, fuel: nat, g: Option<SCEV>)
    requires forall e :: e in expressions ==> WellFormed(se, e)
  {
    Arranged(se, expressions, terms) && (terms != [] ==> AllProper(DivisorsOf(terms[0]))) && g == Gcd(se, terms, fuel)
  }

  /** In whatever order terms with the same number of factors come, the divisions can be trusted. */
  ghost predicate AlwaysTrusted(se: Builders, expressions: seq<SCEV>, fuel: nat)
    requires forall e :: e in expressions ==> WellFormed(se, e)
  {
    forall terms :: Arranged(se, expressions, terms) && (terms != [] ==> AllProper(DivisorsOf(terms[0]))) ==>
                      Trusted(se, terms, fuel)
  }

  lemma ArrangedFormed(se: Builders, expressions: seq<SCEV>, terms: seq<SCEV>)
    requires Sound(se) && (forall e :: e in expressions ==> WellFormed(se, e)) && Arranged(se, expressions, terms)
    ensures forall t :: t in terms ==> WellFormed(se, t) && t != Zero
    ensures terms != [] ==> AllProper(DivisorsOf(terms[0]))
  {
    hide Sound, WellFormed, TermsOf, AllProper;
    forall t | t in terms
      ensures WellFormed(se, t) && t != Zero
    {
      var e :| e in expressions && t in TermsOf(se, e);
      TermsFormed(se, e);
    }
    if terms != [] {
      assert terms[0] in terms;
      FirstDivides(se, terms[0]);
    }
  }

  /** What divides all terms divides all expressions. */
  lemma ExpressionsDivided(se: Builders, expressions: seq<SCEV>, c: SCEV -> bool, terms: seq<SCEV>, g: SCEV)
    requires Sound(se) && Closed(se, c) && forall e :: e in expressions ==> WellFormed(se, e) && c(e)
    requires Arranged(se, expressions, terms) && AllDivided(se, g, terms)
    ensures AllDivided(se, g, expressions)
  {
    hide Sound, Closed, WellFormed, TermsOf, Divides;
    forall e | e in expressions
      ensures Divides(se, [g], e)
    {
      forall t | t in TermsOf(se, e)
        ensures Divides(se, [g], t)
      {
        ZeroDivided(se, [g]);
        assert t != Zero ==> t in terms;
      }
      TermsStand(se, e, c, [g]);
    }
  }

  // ---------- Searches that end ----------

  /** Every numerator of the search fits its denominator. */
  predicate FitsKeep(se: Builders, rest: SCEV, ds: seq<SCEV>)
    requires AllProper(ds)
    decreases |ds|
  {
    ds == [] ||
    (Fits(se, rest, ds[0]) &&
     var r := Divide(se, rest, ds[0], 1);
     r.Some? ==> FitsKeep(se, if r.value.remainder != Zero then rest else r.value.quotient, ds[1..]))
  }

  predicate FitsNarrow(se: Builders, terms: seq<SCEV>, ds: seq<SCEV>)
    requires AllProper(ds)
  {
    terms == [] ||
    (FitsKeep(se, terms[0], ds) &&
     var kept := Keep(se, terms[0], ds, 1);
     kept.Some? && kept.value != [] ==> FitsNarrow(se, terms[1..], kept.value))
  }

  predicate FitsAll(se: Builders, terms: seq<SCEV>)
    requires terms != [] ==> AllProper(DivisorsOf(terms[0]))
  {
    |terms| >= 2 ==> FitsNarrow(se, terms[1..], DivisorsOf(terms[0]))
  }

  lemma {:induction false} FittingKeep(se: Builders, rest: SCEV, ds: seq<SCEV>)
    requires Sound(se) && AllProper(ds) && FitsKeep(se, rest, ds)
    ensures TrustedKeep(se, rest, ds, 1) && Keep(se, rest, ds, 1).Some?
    decreases |ds|
  {
    hide Sound, Divide, Faithful, Fits;
    if ds != [] {
      FitsWorks(se, rest, ds[0]);
      var r := Divide(se, rest, ds[0], 1).value;
      FittingKeep(se, if r.remainder != Zero then rest else r.quotient, ds[1..]);
    }
  }

  lemma {:induction false} FittingNarrow(se: Builders, terms: seq<SCEV>, ds: seq<SCEV>)
    requires Sound(se) && AllProper(ds) && FitsNarrow(se, terms, ds)
    ensures TrustedNarrow(se, terms, ds, 1) && Narrow(se, terms, ds, 1).Some?
  {
    hide Sound, Keep, FitsKeep, TrustedKeep;
    if terms != [] {
      FittingKeep(se, terms[0], ds);
      var kept := Keep(se, terms[0], ds, 1).value;
      if kept != [] {
        FittingNarrow(se, terms[1..], kept);
      }
    }
  }

  /** A search whose numerators fit ends, with the same result for every bound, and all its divisions can be trusted. */
  lemma FittingTrusted(se: Builders, terms: seq<SCEV>, fuel: nat)
    requires Sound(se) && (terms != [] ==> AllProper(DivisorsOf(terms[0]))) && FitsAll(se, terms) && fuel > 0
    ensures Trusted(se, terms, 1) && Gcd(se, terms, fuel).Some? && Gcd(se, terms, fuel) == Gcd(se, terms, 1)
  {
    hide Sound, Narrow, FitsNarrow, TrustedNarrow, DivisorsOf;
    if |terms| >= 2 {
      FittingNarrow(se, terms[1..], DivisorsOf(terms[0]));
      MoreFuelNarrow(se, terms[1..], DivisorsOf(terms[0]), 1, fuel);
    }
  }

  // ---------- Products, sums and recurrences ----------

  ghost predicate AllAtoms(ds: seq<SCEV>) {
    forall i :: 0 <= i < |ds| ==> Atom(ds[i])
  }

  lemma {:induction false} MonomialKeep(se: Builders, rest: SCEV, ds: seq<SCEV>)
    requires Sound(se) && KeepsProducts(se) && Monomial(rest) && AllProper(ds) && AllAtoms(ds)
    ensures FitsKeep(se, rest, ds) && (Keep(se, rest, ds, 1).Some? ==> AllAtoms(Keep(se, rest, ds, 1).value))
    decreases |ds|
  {
    hide Sound, KeepsProducts, Divide, Faithful, Fits, Monomial, Expanded;
    if ds != [] {
      MonomialQuotient(se, rest, ds[0]);
      MonomialFits(se, rest, ds[0]);
      var r := Divide(se, rest, ds[0], 1).value;
      MonomialKeep(se, if r.remainder != Zero then rest else r.quotient, ds[1..]);
    }
  }

  lemma MonomialFits(se: Builders, n: SCEV, d: SCEV)
    requires Monomial(n) && Proper(d) && Atom(d)
    ensures Fits(se, n, d)
  {
    ExpandedFitsAtom(se, n, true, d);
  }

  lemma {:induction false} MonomialNarrow(se: Builders, terms: seq<SCEV>, ds: seq<SCEV>)
    requires Sound(se) && KeepsProducts(se) && AllProper(ds) && AllAtoms(ds)
    requires forall t :: t in terms ==> Monomial(t)
    ensures FitsNarrow(se, terms, ds)
  {
    hide Sound, KeepsProducts, Keep, FitsKeep, Monomial;
    if terms != [] {
      assert terms[0] in terms;
      MonomialKeep(se, terms[0], ds);
      var kept := Keep(se, terms[0], ds, 1);
      if kept.Some? && kept.value != [] {
        MonomialNarrow(se, terms[1..], kept.value);
      }
    }
  }

  lemma SingleKeep(se: Builders, rest: SCEV, d: SCEV)
    requires Proper(d) && Fits(se, rest, d)
    ensures FitsKeep(se, rest, [d]) && Keep(se, rest, [d], 1) in [None, Some([]), Some([d])]
  {
    hide Divide, Fits;
    assert [d][1..] == [] && [d] + [] == [d];
  }

  /** A single divisor is used for numerators that have not been divided yet. */
  lemma {:induction false} SingleNarrow(se: Builders, terms: seq<SCEV>, d: SCEV)
    requires Proper(d) && !d.Mul? && forall t :: t in terms ==> Expanded(t, true)
    ensures FitsNarrow(se, terms, [d])
  {
    hide Keep, FitsKeep, Expanded, Direct;
    if terms != [] {
      assert terms[0] in terms;
      if d.Unknown? {
        ExpandedIsDirect(terms[0], true, d.id);
      }
      SingleKeep(se, terms[0], d);
      SingleNarrow(se, terms[1..], d);
    }
  }

  /**
   Terms in expanded form, sums included, fit: with several divisors all terms are products, as they have at least as
   many factors.
   */
  lemma TermsFit(se: Builders, terms: seq<SCEV>)
    requires Sound(se) && KeepsProducts(se) && Sorted(terms, Factors) && forall t :: t in terms ==> Expanded(t, true)
    requires terms != [] ==> AllProper(DivisorsOf(terms[0]))
    ensures FitsAll(se, terms)
  {
    hide Sound, KeepsProducts, FitsNarrow;
    if |terms| >= 2 {
      var ds := DivisorsOf(terms[0]);
      assert terms[0] in terms;
      if |ds| == 1 {
        assert ds == [ds[0]];
        SingleNarrow(se, terms[1..], ds[0]);
      } else {
        forall j | 1 <= j < |terms|
          ensures Monomial(terms[j])
        {
          assert terms[j] in terms;
          InOrder(terms, Factors, 0, j);
        }
        MonomialNarrow(se, terms[1..], ds);
      }
    }
  }

  // ---------- The common divisor of expressions in this form ----------

  ghost predicate AllLayered(se: Builders, expressions: seq<SCEV>, sums: bool) {
    KeepsLayered(se, sums) && forall e :: e in expressions ==> Layered(e, sums)
  }

  lemma {:induction false} LayeredIsExpanded(e: SCEV, sums: bool)
    requires Layered(e, sums)
    ensures Expanded(e, true)
  {
    match e
    case Add(ops) =>
      forall i | 0 <= i < |ops|
        ensures Expanded(ops[i], true)
      {
        LayeredIsExpanded(ops[i], sums);
      }
    case AddRec(ops, _) =>
      LayeredIsExpanded(ops[0], sums);
      LayeredIsExpanded(ops[1], sums);
    case _ =>
  }

  /** However the terms of layered expressions are arranged, they fit. */
  lemma LayeredFits(se: Builders, expressions: seq<SCEV>, sums: bool, terms: seq<SCEV>)
    requires Sound(se) && (forall e :: e in expressions ==> WellFormed(se, e)) && AllLayered(se, expressions, sums)
    requires Arranged(se, expressions, terms) && (terms != [] ==> AllProper(DivisorsOf(terms[0])))
    ensures FitsAll(se, terms)
  {
    hide Sound, WellFormed, TermsOf, Layered, Expanded, Closed, FitsAll, AllProper;
    LayeredClosed(se, sums);
    forall t | t in terms
      ensures Expanded(t, true)
    {
      var e :| e in expressions && t in TermsOf(se, e);
      TermsIn(se, e, x => Layered(x, sums));
      LayeredIsExpanded(t, sums);
    }
    TermsFit(se, terms);
  }

  /** The answer of a search that can be trusted. */
  lemma TrustedAnswer(se: Builders, expressions: seq<SCEV>, c: SCEV -> bool, terms: seq<SCEV>, fuel: nat, g: Option<SCEV>)
    requires Sound(se) && Closed(se, c) && forall e :: e in expressions ==> WellFormed(se, e) && c(e)
    requires Answer(se, expressions, terms, fuel, g) && Trusted(se, terms, fuel)
    ensures g.Some? && g.value != CouldNotCompute ==> AllDivided(se, g.value, expressions)
  {
    hide Sound, WellFormed, Closed, Gcd, Trusted, AllProper, Arranged, AllDivided;
    if g.Some? && g.value != CouldNotCompute {
      ArrangedFormed(se, expressions, terms);
      GcdRight(se, terms, fuel);
      ExpressionsDivided(se, expressions, c, terms, g.value);
    }
  }

  /**
   On layered expressions, recurrences nested over several loops included, the search ends, and a computable answer
   divides every expression.
   */
  lemma LayeredAnswer(se: Builders, expressions: seq<SCEV>, sums: bool, terms: seq<SCEV>, fuel: nat, g: Option<SCEV>)
    requires Sound(se) && (forall e :: e in expressions ==> WellFormed(se, e)) && AllLayered(se, expressions, sums)
    requires Answer(se, expressions, terms, fuel, g) && fuel > 0
    ensures g.Some? && (g.value != CouldNotCompute ==> AllDivided(se, g.value, expressions))
  {
    hide Sound, WellFormed, Layered, Closed, Gcd, Trusted, FitsAll, AllProper, Arranged, AllDivided, KeepsLayered;
    LayeredFits(se, expressions, sums, terms);
    FittingTrusted(se, terms, fuel);
    LayeredClosed(se, sums);
    assert Answer(se, expressions, terms, 1, g);
    TrustedAnswer(se, expressions, e => Layered(e, sums), terms, 1, g);
  }

  // ---------- The common factors of products ----------

  /** The terms of the expressions are products of constants and unknowns, or zero. */
  ghost predicate OnlyTerms(se: Builders, expressions: seq<SCEV>)
    requires forall e :: e in expressions ==> WellFormed(se, e)
  {
    KeepsTerms(se) && forall e, t :: e in expressions && t in TermsOf(se, e) ==> t == Zero || Term(t, se.half)
  }

  /** The expressions have a term that is not zero, and each of these has the unknown `k` times. */
  ghost predicate Shared(se: Builders, expressions: seq<SCEV>, u: SCEV, k: nat)
    requires forall e :: e in expressions ==> WellFormed(se, e)
  {
    && u.Unknown? && k > 0
    && (exists e, t :: e in expressions && t in TermsOf(se, e) && t != Zero)
    && forall e, t :: e in expressions && t in TermsOf(se, e) && t != Zero ==> Times(t, u) >= k
  }

  /** The answer has every unknown that the expressions share, as often as they share it. */
  ghost predicate HoldsShared(se: Builders, expressions: seq<SCEV>, g: SCEV)
    requires forall e :: e in expressions ==> WellFormed(se, e)
  {
    forall u, k: nat :: Shared(se, expressions, u, k) ==> g != CouldNotCompute && Times(g, u) >= k
  }

  lemma ArrangedTerms(se: Builders, expressions: seq<SCEV>, terms: seq<SCEV>)
    requires forall e :: e in expressions ==> WellFormed(se, e)
    requires OnlyTerms(se, expressions) && Arranged(se, expressions, terms)
    ensures AllTerms(se, terms)
  {
    hide WellFormed, TermsOf, KeepsTerms;
  }

  /** On products of constants and unknowns the search ends, and the answer is the greatest that can be expected. */
  lemma AnswerOfTerms(se: Builders, expressions: seq<SCEV>, terms: seq<SCEV>, fuel: nat, g: Option<SCEV>)
    requires Sound(se) && (forall e :: e in expressions ==> WellFormed(se, e)) && OnlyTerms(se, expressions)
    requires Answer(se, expressions, terms, fuel, g) && fuel > 0
    ensures g.Some? && (g.value == CouldNotCompute <==> NothingShared(se, terms, fuel))
    ensures g.value != CouldNotCompute ==> BestAnswer(se, terms, g.value)
    ensures HoldsShared(se, expressions, g.value)
  {
    hide Sound, WellFormed, TermsOf, KeepsTerms, Gcd, AllProper, NothingShared, BestAnswer, Times;
    ArrangedTerms(se, expressions, terms);
    GcdOfTerms(se, terms, fuel);
    forall u, k: nat | Shared(se, expressions, u, k)
      ensures g.value != CouldNotCompute && Times(g.value, u) >= k
    {
      var e, t :| e in expressions && t in TermsOf(se, e) && t != Zero;
      assert t in terms;
      SharedIsFound(se, terms, u, k, fuel);
    }
  }

  // ---------- The method ----------

  /** The divisors that divide `t` one after the other, and what is left of `t`. */
  method KeepDivisors(se: Builders, t: SCEV, ds: seq<SCEV>, fuel: nat) returns (kept: Option<seq<SCEV>>)
    requires AllProper(ds)
    ensures kept == Keep(se, t, ds, fuel)
  {
    hide Divide, Prefixed;
    var found: seq<SCEV> := [];
    NothingPrefixed(Keep(se, t, ds[0..], fuel));
    assert ds[0..] == ds;
    var rest := t;
    for i := 0 to |ds|
      invariant Keep(se, t, ds, fuel) == Prefixed(found, Keep(se, rest, ds[i..], fuel))
    {
      assert ds[i..][1..] == ds[i + 1..];
      var div := Divide(se, rest, ds[i], fuel);
      if div.None? {
        PrefixedFails(found);
        return None;
      }
      if div.value.remainder != Zero {
        continue;
      }
      PrefixedStep(found, ds[i], Keep(se, div.value.quotient, ds[i + 1..], fuel));
      found := found + [ds[i]];
      rest := div.value.quotient;
    }
    PrefixedEnd(found);
    kept := Some(found);
  }

  ghost function Prefixed(found: seq<SCEV>, more: Option<seq<SCEV>>): Option<seq<SCEV>> {
    if more.None? then None else Some(found + more.value)
  }

  lemma NothingPrefixed(more: Option<seq<SCEV>>)
    ensures Prefixed([], more) == more
  {
    if more.Some? {
      assert [] + more.value == more.value;
    }
  }

  lemma PrefixedFails(found: seq<SCEV>)
    ensures Prefixed(found, None) == None
  {
  }

  lemma PrefixedEnd(found: seq<SCEV>)
    ensures Prefixed(found, Some([])) == Some(found)
  {
    assert found + [] == found;
  }

  lemma PrefixedStep(found: seq<SCEV>, d: SCEV, more: Option<seq<SCEV>>)
    ensures Prefixed(found, if more.None? then None else Some([d] + more.value)) == Prefixed(found + [d], more)
  {
    if more.Some? {
      assert found + ([d] + more.value) == found + [d] + more.value;
    }
  }

  /**
   `findGCD`. For layered expressions, which are sums and affine recurrences of products, it ends, and a computable
   answer divides the value of every expression, under every assignment and in every iteration. For other affine
   expressions it does when the divisions it relies on are faithful. `address` stands for the addresses of expressions,
   by which they are sorted first.
   */
  method FindGCD(se: Builders, expressions: seq<SCEV>, address: SCEV -> int, fuel: nat) returns (g: Option<SCEV>)
    requires Sound(se) && expressions != [] && Injective(address)
    requires forall e :: e in expressions ==> WellFormed(se, e)
    ensures exists terms :: Answer(se, expressions, terms, fuel, g)
    ensures fuel > 0 ==> forall sums :: AllLayered(se, expressions, sums) ==>
              g.Some? && (g.value != CouldNotCompute ==> AllDivided(se, g.value, expressions))
    ensures KeepsAffine(se) && (forall e :: e in expressions ==> Affine(e)) && AlwaysTrusted(se, expressions, fuel) ==>
              (g.Some? && g.value != CouldNotCompute ==> AllDivided(se, g.value, expressions))
    ensures fuel > 0 && OnlyTerms(se, expressions) ==> g.Some? && HoldsShared(se, expressions, g.value)
  {
    hide Sound, KeepsAffine, AllDivided, WellFormed, TermsOf, AllProper, Affine, Trusted, Gcd, Injective, Arranged;
    hide AllLayered, Closed, OnlyTerms, HoldsShared;
    var terms := CollectTerms(se, expressions);
    terms := Sort(terms, address);
    terms := Unique(terms, address);
    terms := RemoveZeros(terms);
    terms := Sort(terms, Factors);
    TermsArranged(se, expressions, terms);
    ArrangedFormed(se, expressions, terms);
    g := SearchDivisor(se, terms, fuel);
    assert Answer(se, expressions, terms, fuel, g);
    forall sums | AllLayered(se, expressions, sums) && fuel > 0
      ensures g.Some? && (g.value != CouldNotCompute ==> AllDivided(se, g.value, expressions))
    {
      LayeredAnswer(se, expressions, sums, terms, fuel, g);
    }
    if KeepsAffine(se) && (forall e :: e in expressions ==> Affine(e)) && AlwaysTrusted(se, expressions, fuel) {
      AffineClosed(se);
      TrustedAnswer(se, expressions, Affine, terms, fuel, g);
    }
    if fuel > 0 && OnlyTerms(se, expressions) {
      AnswerOfTerms(se, expressions, terms, fuel, g);
    }
  }

  lemma TermsArranged(se: Builders, expressions: seq<SCEV>, terms: seq<SCEV>)
    requires forall e :: e in expressions ==> WellFormed(se, e)
    requires forall t :: t in terms <==> t != Zero && exists e :: e in expressions && t in TermsOf(se, e)
    requires Distinct(terms) && Sorted(terms, Factors)
    ensures Arranged(se, expressions, terms)
  {
    hide WellFormed, TermsOf;
  }

  /** The part of `findGCD` behind the sorting. */
  method SearchDivisor(se: Builders, terms: seq<SCEV>, fuel: nat) returns (g: Option<SCEV>)
    requires terms != [] ==> AllProper(DivisorsOf(terms[0]))
    ensures g == Gcd(se, terms, fuel)
  {
    hide AllProper, Keep;
    if terms == [] {
      return Some(CouldNotCompute);
    }
    if |terms| < 2 {
      return Some(if terms[0] == Zero then CouldNotCompute else terms[0]);
    }
    var dividers := [];
    if terms[0].Mul? {
      dividers := terms[0].ops;
    } else {
      dividers := [terms[0]];
    }
    for n := 1 to |terms|
      invariant AllProper(dividers)
      invariant Gcd(se, terms, fuel) == Narrow(se, terms[n..], dividers, fuel)
    {
      assert terms[n..][1..] == terms[n + 1..];
      var newDividers := KeepDivisors(se, terms[n], dividers, fuel);
      if newDividers.None? {
        return None;
      }
      if newDividers.value == [] {
        return Some(CouldNotCompute);
      }
      if |dividers| != |newDividers.value| {
        dividers := newDividers.value;
      }
    }
    g := Some(if |dividers| == 1 then dividers[0] else se.getMul(dividers));
  }

  // ---------- Recurrences that are not affine ----------

  /** For `{0,+,1,+,1}`, which is not affine, the result is its step `{1,+,1}`: four does not divide six. */
  lemma NotAffineNotDivided(se: Builders, half: nat, terms: seq<SCEV>, fuel: nat, g: Option<SCEV>)
    requires Sound(se) && half > 1 && se.half == 2 * half && WellFormed(se, AddRec([Zero, One, One], 0))
    requires Answer(se, [AddRec([Zero, One, One], 0)], terms, fuel, g)
    ensures g == Some(AddRec([One, One], 0))
    ensures !Divides(se, [AddRec([One, One], 0)], AddRec([Zero, One, One], 0))
  {
    hide Divisible, Sound, Search, Eval, Product, ComputeSCEVAddRec;
    var e, step := AddRec([Zero, One, One], 0), AddRec([One, One], 0);
    NotAffine(se, [Zero, One, One], 0);
    assert e.ops[1..] == [One, One];
    assert TermsOf(se, e) == [Zero, step];
    OnlyTerm(terms, step);
    var env := Env(_ => 0, _ => 3, se.operations);
    SecondOrderValues(env);
    OneOperand(step, env);
    FourDoesNotDivideSix(half);
    assert Suits(se, env) && !Divisible(Eval(e, env), Product(Values([step], env)), se.half);
  }

  lemma OnlyTerm(terms: seq<SCEV>, t: SCEV)
    requires Distinct(terms) && forall x :: x in terms <==> x == t
    ensures terms == [t]
  {
    assert t in terms;
    forall i | 0 <= i < |terms|
      ensures terms[i] == t
    {
      assert terms[i] in terms;
    }
    if |terms| > 1 {
      SameTwice(terms, t);
    }
  }

  lemma SameTwice(terms: seq<SCEV>, t: SCEV)
    requires |terms| > 1 && forall i :: 0 <= i < |terms| ==> terms[i] == t
    ensures !Distinct(terms)
  {
    assert terms[0] == terms[1];
  }

  lemma SecondOrderValues(env: Env)
    requires env.iteration(0) == 3
    ensures Eval(AddRec([Zero, One, One], 0), env) == 6 && Eval(AddRec([One, One], 0), env) == 4
  {
    var e, step := AddRec([Zero, One, One], 0), AddRec([One, One], 0);
    EvalOps(e, env);
    EvalOps(step, env);
    assert Values(e.ops, env) == [0, 1, 1] && Values(step.ops, env) == [1, 1];
    AffineRecurrence(1, 1, 3);
    assert [0, 1, 1][1..] == [1, 1] && [1, 1][1..] == [1] && [1][1..] == [];
    assert Choose(3, 1) == 3 && Choose(3, 2) == 3;
    assert Recurrence([1], 3, 2) == 3;
    assert Recurrence([1, 1], 3, 1) == 6;
    assert Recurrence([0, 1, 1], 3, 0) == 6;
  }
}

/**
 Scalar-evolution expressions of one width, their values, and what is expected of the functions that build them.
 The values of expressions are compared modulo `2 * half`, two to the power of the width.
 */
module ScalarEvolution {
  import opened Arithmetic
  import opened WordArithmetic

  // ---------- Expressions ----------

  type Loop = nat

  /** `AddRec([a, b, c], l)` is the recurrence `{a,+,b,+,c}` of the loop `l`. */
  datatype SCEV =
    | Constant(v: int)
    | Unknown(id: nat)
    | Add(ops: seq<SCEV>)
    | Mul(ops: seq<SCEV>)
    | AddRec(ops: seq<SCEV>, loop: Loop)
    | Cast(kind: nat, op: SCEV)
    | Opaque(kind: nat, ops: seq<SCEV>)
    | CouldNotCompute

  const Zero := Constant(0)
  const One := Constant(1)

  function Sum(vs: seq<int>): int {
    if vs == [] then 0 else vs[0] + Sum(vs[1..])
  }

  function Product(vs: seq<int>): int {
    if vs == [] then 1 else vs[0] * Product(vs[1..])
  }

  lemma {:induction false} SumSnoc(vs: seq<int>, x: int)
    ensures Sum(vs + [x]) == Sum(vs) + x
  {
    if vs == [] {
      assert ([] + [x])[1..] == [];
    } else {
      SumSnoc(vs[1..], x);
      assert (vs + [x])[1..] == vs[1..] + [x];
    }
  }

  lemma {:induction false} ProductSnoc(vs: seq<int>, x: int)
    ensures Product(vs + [x]) == Product(vs) * x
  {
    if vs == [] {
      assert ([] + [x])[1..] == [];
    } else {
      ProductSnoc(vs[1..], x);
      assert (vs + [x])[1..] == vs[1..] + [x];
      Associative(vs[0], Product(vs[1..]), x);
    }
  }

  function Choose(n: nat, k: nat): nat {
    if k == 0 then 1 else if n == 0 then 0 else Choose(n - 1, k - 1) + Choose(n - 1, k)
  }

  /** The terms of a recurrence from the `k`-th one on, in iteration `n`. */
  function Recurrence(vs: seq<int>, n: nat, k: nat): int {
    if vs == [] then 0 else vs[0] * Choose(n, k) + Recurrence(vs[1..], n, k + 1)
  }

  lemma {:induction false} ChooseOne(n: nat)
    ensures Choose(n, 1) == n
  {
    if n > 0 {
      ChooseOne(n - 1);
    }
  }

  lemma AffineRecurrence(a: int, b: int, n: nat)
    ensures Recurrence([a, b], n, 0) == a + b * n
  {
    ChooseOne(n);
    assert [a, b][1..] == [b];
    assert Recurrence([b], n, 1) == b * Choose(n, 1) + Recurrence([b][1..], n, 2);
  }

  /** What casts and the operations that are not modelled compute. */
  datatype Operations = Operations(cast: (nat, int) -> int, opaque_: (nat, seq<int>) -> int, other: int)

  /** Values of the unknowns and an iteration of every loop. */
  datatype Env = Env(unknown: nat -> int, iteration: Loop -> nat, operations: Operations)

  /** The value of an expression; operands of a recurrence do not change in its loop. */
  function Eval(e: SCEV, env: Env): int {
    match e
    case Constant(v) => v
    case Unknown(id) => env.unknown(id)
    case Add(ops) => Sum(seq(|ops|, i requires 0 <= i < |ops| => Eval(ops[i], env)))
    case Mul(ops) => Product(seq(|ops|, i requires 0 <= i < |ops| => Eval(ops[i], env)))
    case AddRec(ops, loop) => Recurrence(seq(|ops|, i requires 0 <= i < |ops| => Eval(ops[i], env)), env.iteration(loop), 0)
    case Cast(kind, op) => env.operations.cast(kind, Eval(op, env))
    case Opaque(kind, ops) => env.operations.opaque_(kind, seq(|ops|, i requires 0 <= i < |ops| => Eval(ops[i], env)))
    case CouldNotCompute => env.operations.other
  }

  function Values(ops: seq<SCEV>, env: Env): (vs: seq<int>)
    ensures |vs| == |ops| && forall i :: 0 <= i < |ops| ==> vs[i] == Eval(ops[i], env)
  {
    seq(|ops|, i requires 0 <= i < |ops| => Eval(ops[i], env))
  }

  lemma ValuesSnoc(ops: seq<SCEV>, op: SCEV, env: Env)
    ensures Values(ops + [op], env) == Values(ops, env) + [Eval(op, env)]
    ensures Sum(Values(ops + [op], env)) == Sum(Values(ops, env)) + Eval(op, env)
    ensures Product(Values(ops + [op], env)) == Product(Values(ops, env)) * Eval(op, env)
  {
    assert Values(ops + [op], env) == Values(ops, env) + [Eval(op, env)];
    SumSnoc(Values(ops, env), Eval(op, env));
    ProductSnoc(Values(ops, env), Eval(op, env));
  }

  lemma ValuesCons(e: SCEV, rest: seq<SCEV>, env: Env)
    ensures Sum(Values([e] + rest, env)) == Eval(e, env) + Sum(Values(rest, env))
    ensures Product(Values([e] + rest, env)) == Eval(e, env) * Product(Values(rest, env))
  {
    assert Values([e] + rest, env)[1..] == Values(rest, env);
  }

  /** The product of all factors is that of all but one times that one, and likewise for sums. */
  lemma OneOut(ops: seq<SCEV>, k: nat, env: Env)
    requires k < |ops|
    ensures Product(Values(ops, env)) == Product(Values(ops[..k] + ops[k + 1..], env)) * Eval(ops[k], env)
    ensures Sum(Values(ops, env)) == Sum(Values(ops[..k] + ops[k + 1..], env)) + Eval(ops[k], env)
  {
    var vs := Values(ops, env);
    assert Values(ops[..k] + ops[k + 1..], env) == vs[..k] + vs[k + 1..];
    OneValueOut(vs, k);
  }

  lemma {:induction false} OneValueOut(vs: seq<int>, k: nat)
    requires k < |vs|
    ensures Product(vs) == Product(vs[..k] + vs[k + 1..]) * vs[k]
    ensures Sum(vs) == Sum(vs[..k] + vs[k + 1..]) + vs[k]
  {
    if k == 0 {
      assert vs[..0] + vs[1..] == vs[1..];
    } else {
      OneValueOut(vs[1..], k - 1);
      var rest := vs[1..][..k - 1] + vs[1..][k..];
      assert vs[..k] + vs[k + 1..] == [vs[0]] + rest;
      assert ([vs[0]] + rest)[1..] == rest;
      Associative(vs[0], Product(rest), vs[k]);
    }
  }

  lemma EvalOps(e: SCEV, env: Env)
    ensures e.Add? ==> Eval(e, env) == Sum(Values(e.ops, env))
    ensures e.Mul? ==> Eval(e, env) == Product(Values(e.ops, env))
    ensures e.AddRec? ==> Eval(e, env) == Recurrence(Values(e.ops, env), env.iteration(e.loop), 0)
    ensures e.Opaque? ==> Eval(e, env) == env.operations.opaque_(e.kind, Values(e.ops, env))
  {
    if e.Add? || e.Mul? || e.AddRec? || e.Opaque? {
      assert seq(|e.ops|, i requires 0 <= i < |e.ops| => Eval(e.ops[i], env)) == Values(e.ops, env);
    }
  }

  /** The nodes of an expression; equal nodes are one node. */
  function Nodes(e: SCEV): (s: set<SCEV>)
    ensures e in s
  {
    match e
    case Constant(_) => {e}
    case Unknown(_) => {e}
    case Add(ops) => {e} + set i, n | 0 <= i < |ops| && n in Nodes(ops[i]) :: n
    case Mul(ops) => {e} + set i, n | 0 <= i < |ops| && n in Nodes(ops[i]) :: n
    case AddRec(ops, _) => {e} + set i, n | 0 <= i < |ops| && n in Nodes(ops[i]) :: n
    case Cast(_, op) => {e} + Nodes(op)
    case Opaque(_, ops) => {e} + set i, n | 0 <= i < |ops| && n in Nodes(ops[i]) :: n
    case CouldNotCompute => {e}
  }

  function SizeOf(e: SCEV): (n: nat)
    ensures n >= 1
  {
    assert Nodes(e) != {};
    |Nodes(e)|
  }

  predicate Occurs(id: nat, e: SCEV) {
    match e
    case Constant(_) => false
    case Unknown(i) => i == id
    case Add(ops) => exists i :: 0 <= i < |ops| && Occurs(id, ops[i])
    case Mul(ops) => exists i :: 0 <= i < |ops| && Occurs(id, ops[i])
    case AddRec(ops, _) => exists i :: 0 <= i < |ops| && Occurs(id, ops[i])
    case Cast(_, op) => Occurs(id, op)
    case Opaque(_, ops) => exists i :: 0 <= i < |ops| && Occurs(id, ops[i])
    case CouldNotCompute => false
  }

  /** The expression contains a recurrence of the loop. */
  predicate Mentions(loop: Loop, e: SCEV) {
    match e
    case AddRec(ops, l) => l == loop || exists i :: 0 <= i < |ops| && Mentions(loop, ops[i])
    case Add(ops) => exists i :: 0 <= i < |ops| && Mentions(loop, ops[i])
    case Mul(ops) => exists i :: 0 <= i < |ops| && Mentions(loop, ops[i])
    case Opaque(_, ops) => exists i :: 0 <= i < |ops| && Mentions(loop, ops[i])
    case Cast(_, op) => Mentions(loop, op)
    case _ => false
  }

  /** The value depends on the unknowns that occur and the loops that are mentioned, and on nothing else. */
  lemma {:induction false} SameValue(e: SCEV, env: Env, other: Env)
    requires env.operations == other.operations
    requires forall id :: Occurs(id, e) ==> env.unknown(id) == other.unknown(id)
    requires forall loop :: Mentions(loop, e) ==> env.iteration(loop) == other.iteration(loop)
    ensures Eval(e, env) == Eval(e, other)
  {
    match e
    case Cast(_, op) => SameValue(op, env, other);
    case Constant(_) =>
    case Unknown(_) =>
    case CouldNotCompute =>
    case _ =>
      forall i | 0 <= i < |e.ops|
        ensures Eval(e.ops[i], env) == Eval(e.ops[i], other)
      {
        SameValue(e.ops[i], env, other);
      }
      assert Values(e.ops, env) == Values(e.ops, other);
      EvalOps(e, env);
      EvalOps(e, other);
  }

  function With(f: nat -> int, id: nat, v: int): nat -> int {
    (x: nat) => if x == id then v else f(x)
  }

  function At(f: Loop -> nat, loop: Loop, n: nat): Loop -> nat {
    (l: Loop) => if l == loop then n else f(l)
  }

  /** `env` with `v` for the unknown `id`. */
  function Assign(env: Env, id: nat, v: int): Env {
    env.(unknown := With(env.unknown, id, v))
  }

  /** `env` in iteration `n` of `loop`. */
  function InIteration(env: Env, loop: Loop, n: nat): Env {
    env.(iteration := At(env.iteration, loop, n))
  }

  // ---------- Building expressions ----------

  type Half = h: nat | h > 0 witness 1

  /**
   What is used of the class `ScalarEvolution`; `half` is half of the number of values of an expression. `rewrite`
   puts an expression in place of an unknown.
   */
  datatype Builders = Builders(
    half: Half,
    operations: Operations,
    getAdd: seq<SCEV> -> SCEV,
    getMul: seq<SCEV> -> SCEV,
    getMinus: (SCEV, SCEV) -> SCEV,
    getAddRec: (SCEV, SCEV, Loop) -> SCEV,
    getCast: (nat, SCEV) -> SCEV,
    rewrite: (SCEV, nat, SCEV) -> SCEV,
    isLoopInvariant: (SCEV, Loop) -> bool)

  /** What holds for every expression there is: operands of a recurrence do not change in its loop, no factor is zero. */
  predicate WellFormed(se: Builders, e: SCEV) {
    match e
    case Add(ops) => ops != [] && forall i :: 0 <= i < |ops| ==> WellFormed(se, ops[i])
    case Mul(ops) => ops != [] && forall i :: 0 <= i < |ops| ==> WellFormed(se, ops[i]) && ops[i] != Zero
    case AddRec(ops, loop) =>
      |ops| >= 2 && forall i :: 0 <= i < |ops| ==> WellFormed(se, ops[i]) && se.isLoopInvariant(ops[i], loop)
    case Cast(_, op) => WellFormed(se, op)
    case Opaque(_, ops) => forall i :: 0 <= i < |ops| ==> WellFormed(se, ops[i])
    case _ => true
  }

  predicate AllFormed(se: Builders, ops: seq<SCEV>) {
    ops != [] && forall i :: 0 <= i < |ops| ==> WellFormed(se, ops[i])
  }

  predicate AllInvariant(se: Builders, ops: seq<SCEV>, loop: Loop) {
    forall i :: 0 <= i < |ops| ==> se.isLoopInvariant(ops[i], loop)
  }

  /** The operands `getAddRec` asks for. */
  predicate RecurrenceOperands(se: Builders, s: SCEV, t: SCEV, loop: Loop) {
    WellFormed(se, s) && WellFormed(se, t) && se.isLoopInvariant(s, loop) && se.isLoopInvariant(t, loop)
  }

  /** Casts and the operations that are not modelled are those the expressions are simplified for. */
  ghost predicate Suits(se: Builders, env: Env) {
    env.operations == se.operations
  }

  /** Sums, products, differences and recurrences have the values they are built for, however they are simplified. */
  ghost predicate KeepsValues(se: Builders) {
    && (forall ops, env {:trigger Eval(se.getAdd(ops), env)} :: AllFormed(se, ops) && Suits(se, env) ==>
          Congruent(Eval(se.getAdd(ops), env), Sum(Values(ops, env)), se.half))
    && (forall ops, env {:trigger Eval(se.getMul(ops), env)} :: AllFormed(se, ops) && Suits(se, env) ==>
          Congruent(Eval(se.getMul(ops), env), Product(Values(ops, env)), se.half))
    && (forall a, b, env {:trigger Eval(se.getMinus(a, b), env)} ::
          WellFormed(se, a) && WellFormed(se, b) && Suits(se, env) ==>
          Congruent(Eval(se.getMinus(a, b), env), Eval(a, env) - Eval(b, env), se.half))
    && (forall s, t, loop, env {:trigger Eval(se.getAddRec(s, t, loop), env)} ::
          RecurrenceOperands(se, s, t, loop) && Suits(se, env) ==>
          Congruent(Eval(se.getAddRec(s, t, loop), env), Eval(s, env) + Eval(t, env) * env.iteration(loop), se.half))
  }

  /** An expression with a constant in place of an unknown has the value for that constant. */
  ghost predicate Substitutes(se: Builders) {
    forall e, id, v, env :: WellFormed(se, e) && Suits(se, env) ==>
      Congruent(Eval(se.rewrite(e, id, Constant(v)), env), Eval(e, Assign(env, id, v)), se.half)
  }

  ghost predicate KeepsForm(se: Builders) {
    && (forall ops {:trigger se.getAdd(ops)} :: AllFormed(se, ops) ==> WellFormed(se, se.getAdd(ops)))
    && (forall ops {:trigger se.getMul(ops)} :: AllFormed(se, ops) ==> WellFormed(se, se.getMul(ops)))
    && (forall a, b {:trigger se.getMinus(a, b)} ::
          WellFormed(se, a) && WellFormed(se, b) ==> WellFormed(se, se.getMinus(a, b)))
    && (forall s, t, loop {:trigger se.getAddRec(s, t, loop)} ::
          RecurrenceOperands(se, s, t, loop) ==> WellFormed(se, se.getAddRec(s, t, loop)))
    && (forall e, id, v :: WellFormed(se, e) ==> WellFormed(se, se.rewrite(e, id, Constant(v))))
  }

  /** The difference of equal expressions is zero, and replacing an unknown that does not occur changes nothing. */
  ghost predicate Simplifies(se: Builders) {
    && (forall e :: se.getMinus(e, e) == Zero)
    && (forall e, id, put :: !Occurs(id, e) ==> se.rewrite(e, id, put) == e)
  }

  /** The operands of an expression, and whether they are part of one that does not change in `loop`. */
  ghost predicate OperandsInvariant(se: Builders, e: SCEV, loop: Loop) {
    match e
    case Add(ops) => AllInvariant(se, ops, loop)
    case Mul(ops) => AllInvariant(se, ops, loop)
    case AddRec(ops, l) => l != loop && AllInvariant(se, ops, loop)
    case Cast(_, op) => se.isLoopInvariant(op, loop)
    case Opaque(_, ops) => AllInvariant(se, ops, loop)
    case _ => true
  }

  /** What does not change in a loop has operands that do not, and no recurrence of the loop. */
  ghost predicate TellsInvariance(se: Builders) {
    && (forall v, loop :: se.isLoopInvariant(Constant(v), loop))
    && (forall e, loop :: se.isLoopInvariant(e, loop) ==> OperandsInvariant(se, e, loop))
  }

  /** What is built from expressions that do not change in a loop does not change in it. */
  ghost predicate KeepsInvariance(se: Builders) {
    && (forall ops, loop {:trigger se.isLoopInvariant(se.getAdd(ops), loop)} ::
          AllFormed(se, ops) && AllInvariant(se, ops, loop) ==> se.isLoopInvariant(se.getAdd(ops), loop))
    && (forall ops, loop {:trigger se.isLoopInvariant(se.getMul(ops), loop)} ::
          AllFormed(se, ops) && AllInvariant(se, ops, loop) ==> se.isLoopInvariant(se.getMul(ops), loop))
    && (forall a, b, loop {:trigger se.isLoopInvariant(se.getMinus(a, b), loop)} ::
          se.isLoopInvariant(a, loop) && se.isLoopInvariant(b, loop) ==> se.isLoopInvariant(se.getMinus(a, b), loop))
    && (forall ops, s, t, l, loop
          {:trigger se.isLoopInvariant(AddRec(ops, l), loop), se.isLoopInvariant(se.getAddRec(s, t, l), loop)} ::
          se.isLoopInvariant(AddRec(ops, l), loop) && RecurrenceOperands(se, s, t, l) && AllInvariant(se, [s, t], loop) ==>
          se.isLoopInvariant(se.getAddRec(s, t, l), loop))
    && (forall e, id, v, loop :: se.isLoopInvariant(e, loop) ==> se.isLoopInvariant(se.rewrite(e, id, Constant(v)), loop))
  }

  ghost predicate Sound(se: Builders) {
    && KeepsValues(se) && Substitutes(se) && KeepsForm(se) && Simplifies(se)
    && TellsInvariance(se) && KeepsInvariance(se)
  }

  // ---------- Affine expressions ----------

  /** No factor of a product and no term of a sum is a recurrence. */
  predicate RecurrenceFree(e: SCEV) {
    match e
    case Add(ops) => forall i :: 0 <= i < |ops| ==> RecurrenceFree(ops[i])
    case Mul(ops) => forall i :: 0 <= i < |ops| ==> RecurrenceFree(ops[i])
    case AddRec(_, _) => false
    case _ => true
  }

  /** Sums and affine recurrences over products that have no recurrence as a factor. */
  predicate Affine(e: SCEV) {
    match e
    case Add(ops) => forall i :: 0 <= i < |ops| ==> Affine(ops[i])
    case Mul(ops) => forall i :: 0 <= i < |ops| ==> RecurrenceFree(ops[i])
    case AddRec(ops, _) => |ops| == 2 && Affine(ops[0]) && Affine(ops[1])
    case _ => true
  }

  /** Sums and recurrences of affine expressions are affine, also when common factors are taken out. */
  ghost predicate KeepsAffine(se: Builders) {
    && (forall ops :: AllFormed(se, ops) && (forall i :: 0 <= i < |ops| ==> Affine(ops[i])) ==> Affine(se.getAdd(ops)))
    && (forall s, t, loop :: RecurrenceOperands(se, s, t, loop) && Affine(s) && Affine(t) ==> Affine(se.getAddRec(s, t, loop)))
  }

  /** An expression that does not change in a loop has no recurrence of it. */
  lemma {:induction false} InvariantIsSilent(se: Builders, e: SCEV, loop: Loop)
    requires TellsInvariance(se) && se.isLoopInvariant(e, loop)
    ensures !Mentions(loop, e)
  {
    assert OperandsInvariant(se, e, loop);
    match e
    case Cast(_, op) => InvariantIsSilent(se, op, loop);
    case Constant(_) =>
    case Unknown(_) =>
    case CouldNotCompute =>
    case _ =>
      forall i | 0 <= i < |e.ops|
        ensures !Mentions(loop, e.ops[i])
      {
        InvariantIsSilent(se, e.ops[i], loop);
      }
  }

  /** Without an unknown the value does not depend on it, and without a loop it is that of every iteration. */
  lemma SilentValue(e: SCEV, env: Env, loop: Loop, n: nat)
    requires !Mentions(loop, e)
    ensures Eval(e, InIteration(env, loop, n)) == Eval(e, env)
  {
    SameValue(e, InIteration(env, loop, n), env);
  }

  lemma AbsentValue(e: SCEV, env: Env, id: nat, v: int)
    requires !Occurs(id, e)
    ensures Eval(e, Assign(env, id, v)) == Eval(e, env)
  {
    SameValue(e, Assign(env, id, v), env);
  }

  lemma RecurrenceBuilt(se: Builders, s: SCEV, t: SCEV, loop: Loop, env: Env)
    requires Sound(se) && RecurrenceOperands(se, s, t, loop) && Suits(se, env)
    ensures WellFormed(se, se.getAddRec(s, t, loop))
    ensures Congruent(Eval(se.getAddRec(s, t, loop), env), Eval(s, env) + Eval(t, env) * env.iteration(loop), se.half)
  {
    hide Substitutes, Simplifies, TellsInvariance, KeepsInvariance, RecurrenceOperands, Congruent, WellFormed;
  }
}

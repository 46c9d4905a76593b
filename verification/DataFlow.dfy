/**
 The data-flow framework of include/tsar/ADT/DataFlow.h: the equations, the iterative solver
 and the solver that makes one pass in topological order.
 */
module DataFlow {
  import opened Graphs

  predicate InRange(nodes: seq<nat>, size: nat) {
    forall k :: 0 <= k < |nodes| ==> nodes[k] < size
  }

  /** What `DataFlowTraits` provides: a meet-semilattice of values and a transfer function for each node. */
  datatype Framework<!V> = Framework(top: V, boundary: V, meet: (V, V) -> V, transfer: (nat, V) -> V)

  ghost predicate Le<V(!new)>(fw: Framework<V>, x: V, y: V) {
    fw.meet(x, y) == x
  }

  ghost predicate Semilattice<V(!new)>(fw: Framework<V>) {
    && (forall x :: fw.meet(x, x) == x)
    && (forall x, y :: fw.meet(x, y) == fw.meet(y, x))
    && (forall x, y, z :: fw.meet(fw.meet(x, y), z) == fw.meet(x, fw.meet(y, z)))
    && (forall x :: Le(fw, x, fw.top))
  }

  ghost predicate Monotone<V(!new)>(fw: Framework<V>) {
    forall n: nat, x, y :: Le(fw, x, y) ==> Le(fw, fw.transfer(n, x), fw.transfer(n, y))
  }

  /** Every descending chain that begins with `x` is finite. */
  least predicate Founded<V(!new)>(fw: Framework<V>, x: V) {
    forall y :: Le(fw, y, x) && y != x ==> Founded(fw, y)
  }

  ghost predicate FiniteChains<V(!new)>(fw: Framework<V>) {
    forall x :: Founded(fw, x)
  }

  /**
   A data-flow graph. `children` lists the nodes whose values meet in front of a node;
   `order` is the order in which `nodes_begin()` visits every node but the entry.
   */
  datatype FlowGraph = FlowGraph(entry: nat, children: seq<seq<nat>>, order: seq<nat>) {
    ghost predicate Valid() {
      && entry < |children|
      && (forall n :: 0 <= n < |children| ==> InRange(children[n], |children|))
      && InRange(order, |children|) && entry !in order
      && (forall n: nat :: n < |children| && n != entry ==> n in order)
    }

    /** The direction in which values flow: from a child to the node it feeds. */
    ghost function Flow(): iset<(nat, nat)> {
      iset e: (nat, nat) | e.1 < |children| && e.0 in children[e.1]
    }
  }

  /** The meet of the values of the listed nodes, taken in the order of the list. */
  function MeetOf<V>(fw: Framework<V>, value: seq<V>, nodes: seq<nat>): V
    requires InRange(nodes, |value|)
  {
    if nodes == [] then fw.top
    else fw.meet(value[nodes[|nodes| - 1]], MeetOf(fw, value, nodes[..|nodes| - 1]))
  }

  /** The right-hand side of the equation of node `n`. */
  function Equation<V>(fw: Framework<V>, g: FlowGraph, value: seq<V>, n: nat): V
    requires |value| == |g.children| && n < |g.children|
    requires InRange(g.children[n], |g.children|)
  {
    fw.transfer(n, MeetOf(fw, value, g.children[n]))
  }

  /** `value` solves the data-flow problem: the boundary value at the entry, the equation everywhere else. */
  ghost predicate Solution<V(!new)>(fw: Framework<V>, g: FlowGraph, value: seq<V>)
    requires g.Valid()
  {
    && |value| == |g.children|
    && value[g.entry] == fw.boundary
    && forall n: nat :: n < |g.children| && n != g.entry ==> value[n] == Equation(fw, g, value, n)
  }

  ghost predicate Below<V(!new)>(fw: Framework<V>, a: seq<V>, b: seq<V>) {
    |a| == |b| && forall n :: 0 <= n < |a| ==> Le(fw, a[n], b[n])
  }

  /** Every node but the entry still lies above the right-hand side of its equation. */
  ghost predicate Descending<V(!new)>(fw: Framework<V>, g: FlowGraph, value: seq<V>)
    requires g.Valid()
  {
    && |value| == |g.children|
    && forall n: nat :: n < |g.children| && n != g.entry ==> Le(fw, Equation(fw, g, value, n), value[n])
  }

  lemma LeTrans<V(!new)>(fw: Framework<V>, x: V, y: V, z: V)
    requires Semilattice(fw) && Le(fw, x, y) && Le(fw, y, z)
    ensures Le(fw, x, z)
  {
    assert fw.meet(fw.meet(x, y), z) == fw.meet(x, fw.meet(y, z));
  }

  lemma MeetMonotone<V(!new)>(fw: Framework<V>, a: V, b: V, x: V, y: V)
    requires Semilattice(fw) && Le(fw, a, b) && Le(fw, x, y)
    ensures Le(fw, fw.meet(a, x), fw.meet(b, y))
  {
    calc {
      fw.meet(fw.meet(a, x), fw.meet(b, y));
      fw.meet(a, fw.meet(x, fw.meet(b, y)));
      { assert fw.meet(x, fw.meet(b, y)) == fw.meet(fw.meet(b, y), x) == fw.meet(b, fw.meet(y, x)); }
      fw.meet(a, fw.meet(b, fw.meet(y, x)));
      { assert fw.meet(y, x) == fw.meet(x, y) == x; }
      fw.meet(a, fw.meet(b, x));
      fw.meet(fw.meet(a, b), x);
      fw.meet(a, x);
    }
  }

  lemma {:induction false} MeetOfMonotone<V(!new)>(fw: Framework<V>, a: seq<V>, b: seq<V>, nodes: seq<nat>)
    requires Semilattice(fw) && Below(fw, a, b)
    requires InRange(nodes, |a|)
    ensures Le(fw, MeetOf(fw, a, nodes), MeetOf(fw, b, nodes))
  {
    if nodes != [] {
      var k := |nodes| - 1;
      MeetOfMonotone(fw, a, b, nodes[..k]);
      MeetMonotone(fw, a[nodes[k]], b[nodes[k]], MeetOf(fw, a, nodes[..k]), MeetOf(fw, b, nodes[..k]));
    }
  }

  lemma EquationMonotone<V(!new)>(fw: Framework<V>, g: FlowGraph, a: seq<V>, b: seq<V>, n: nat)
    requires g.Valid() && Semilattice(fw) && Monotone(fw) && Below(fw, a, b)
    requires |a| == |g.children| && n < |g.children|
    ensures Le(fw, Equation(fw, g, a, n), Equation(fw, g, b, n))
  {
    MeetOfMonotone(fw, a, b, g.children[n]);
  }

  // ---------- Descending chains of all values ----------

  /** Every descending chain of values that begins with `a` is finite. */
  least predicate FoundedAll<V(!new)>(fw: Framework<V>, a: seq<V>) {
    forall b :: Below(fw, b, a) && b != a ==> FoundedAll(fw, b)
  }

  /** One more value: the others drop, or they stay and this one drops. */
  lemma {:induction false} OneMoreFounded<V(!new)>(fw: Framework<V>, a: seq<V>, x: V, j: ORDINAL, k: ORDINAL)
    requires FoundedAll#[j](fw, a) && Founded#[k](fw, x) && FiniteChains(fw)
    ensures FoundedAll(fw, a + [x])
    decreases j, k
  {
    if j.IsLimit {
      var i: ORDINAL :| i < j && FoundedAll#[i](fw, a);
      OneMoreFounded(fw, a, x, i, k);
    } else if k.IsLimit {
      var i: ORDINAL :| i < k && Founded#[i](fw, x);
      OneMoreFounded(fw, a, x, j, i);
    } else {
      forall b | Below(fw, b, a + [x]) && b != a + [x]
        ensures FoundedAll(fw, b)
      {
        var rest, y := b[..|a|], b[|a|];
        assert b == rest + [y];
        LastBelow(fw, a, x, rest, y);
        if rest != a {
          assert Founded(fw, y);
          var i: ORDINAL :| Founded#[i](fw, y);
          OneMoreFounded(fw, rest, y, j - 1, i);
        } else {
          OneMoreFounded(fw, a, y, j, k - 1);
        }
      }
    }
  }

  lemma LastBelow<V(!new)>(fw: Framework<V>, a: seq<V>, x: V, b: seq<V>, y: V)
    requires Below(fw, b + [y], a + [x])
    ensures Below(fw, b, a) && Le(fw, y, x)
  {
    assert |b| == |a|;
    forall i | 0 <= i < |b|
      ensures Le(fw, b[i], a[i])
    {
      assert Le(fw, (b + [y])[i], (a + [x])[i]);
    }
    assert Le(fw, (b + [y])[|b|], (a + [x])[|a|]);
  }

  /** With finite chains of values, chains of assignments of values to nodes are finite too. */
  lemma {:induction false} AllFounded<V(!new)>(fw: Framework<V>, a: seq<V>)
    requires FiniteChains(fw)
    ensures FoundedAll(fw, a)
  {
    if a == [] {
      assert forall b :: Below(fw, b, a) ==> b == a;
    } else {
      var k := |a| - 1;
      AllFounded(fw, a[..k]);
      var i: ORDINAL :| FoundedAll#[i](fw, a[..k]);
      assert Founded(fw, a[k]);
      var j: ORDINAL :| Founded#[j](fw, a[k]);
      OneMoreFounded(fw, a[..k], a[k], i, j);
      assert a == a[..k] + [a[k]];
    }
  }

  /** A step down a chain has a smaller rank. */
  lemma {:induction false} StepDown<V(!new)>(fw: Framework<V>, a: seq<V>, b: seq<V>, k: ORDINAL) returns (i: ORDINAL)
    requires FoundedAll#[k](fw, a) && Below(fw, b, a) && b != a
    ensures i < k && FoundedAll#[i](fw, b)
    decreases k
  {
    if k.IsLimit {
      var j: ORDINAL :| j < k && FoundedAll#[j](fw, a);
      i := StepDown(fw, a, b, j);
    } else {
      i := k - 1;
    }
  }

  lemma BelowTrans<V(!new)>(fw: Framework<V>, a: seq<V>, b: seq<V>, c: seq<V>)
    requires Semilattice(fw) && Below(fw, a, b) && Below(fw, b, c)
    ensures Below(fw, a, c) && (a == c ==> a == b)
  {
    forall n | 0 <= n < |a|
      ensures Le(fw, a[n], c[n]) && (a[n] == c[n] ==> a[n] == b[n])
    {
      LeTrans(fw, a[n], b[n], c[n]);
    }
  }

  /** One in-place update keeps the values descending and above every solution. */
  lemma UpdateStep<V(!new)>(fw: Framework<V>, g: FlowGraph, value: seq<V>, n: nat)
    requires g.Valid() && Semilattice(fw) && Monotone(fw) && Descending(fw, g, value)
    requires n < |g.children| && n != g.entry
    ensures Descending(fw, g, value[n := Equation(fw, g, value, n)])
    ensures Below(fw, value[n := Equation(fw, g, value, n)], value)
  {
    var next := value[n := Equation(fw, g, value, n)];
    assert Below(fw, next, value);
    forall m: nat | m < |g.children| && m != g.entry
      ensures Le(fw, Equation(fw, g, next, m), next[m])
    {
      EquationMonotone(fw, g, next, value, m);
      if m != n {
        LeTrans(fw, Equation(fw, g, next, m), Equation(fw, g, value, m), value[m]);
      }
    }
  }

  lemma SolutionsStayBelow<V(!new)>(fw: Framework<V>, g: FlowGraph, s: seq<V>, value: seq<V>, n: nat)
    requires g.Valid() && Semilattice(fw) && Monotone(fw) && Solution(fw, g, s)
    requires Below(fw, s, value) && n < |g.children| && n != g.entry
    ensures Below(fw, s, value[n := Equation(fw, g, value, n)])
  {
    EquationMonotone(fw, g, s, value, n);
  }

  ghost predicate AboveAllSolutions<V(!new)>(fw: Framework<V>, g: FlowGraph, value: seq<V>)
    requires g.Valid()
  {
    forall s :: Solution(fw, g, s) ==> Below(fw, s, value)
  }

  /** `value` solves the equations and every other solution lies below it. */
  ghost predicate GreatestSolution<V(!new)>(fw: Framework<V>, g: FlowGraph, value: seq<V>)
    requires g.Valid()
  {
    Solution(fw, g, value) && AboveAllSolutions(fw, g, value)
  }

  /** The values `setValue` leaves before the first sweep. */
  ghost predicate Initial<V(!new)>(fw: Framework<V>, g: FlowGraph, value: seq<V>) {
    && |value| == |g.children|
    && forall n: nat :: n < |g.children| ==> value[n] == if n == g.entry then fw.boundary else fw.top
  }

  lemma InitialFacts<V(!new)>(fw: Framework<V>, g: FlowGraph, value: seq<V>)
    requires g.Valid() && Semilattice(fw) && Initial(fw, g, value)
    ensures Descending(fw, g, value) && AboveAllSolutions(fw, g, value)
  {
    assert forall x :: Le(fw, x, fw.top);
    assert Le(fw, fw.boundary, fw.boundary);
  }

  /** What holds between two updates of a sweep that started from `before` with `done` nodes behind it. */
  ghost predicate Sweeping<V(!new)>(fw: Framework<V>, g: FlowGraph, before: seq<V>, now: seq<V>, done: seq<nat>, changed: bool)
    requires g.Valid() && |before| == |g.children|
  {
    && |now| == |g.children|
    && now[g.entry] == fw.boundary
    && Descending(fw, g, now) && AboveAllSolutions(fw, g, now)
    && Below(fw, now, before) && (changed <==> now != before)
    && (!changed ==> forall n: nat :: n in done && n < |g.children| ==> now[n] == Equation(fw, g, now, n))
  }

  lemma SweepStep<V(!new)>(fw: Framework<V>, g: FlowGraph, before: seq<V>, now: seq<V>, done: seq<nat>, changed: bool, n: nat)
    requires g.Valid() && Semilattice(fw) && Monotone(fw)
    requires |before| == |g.children| && Sweeping(fw, g, before, now, done, changed)
    requires n < |g.children| && n != g.entry
    ensures var next := Equation(fw, g, now, n);
            Sweeping(fw, g, before, now[n := next], done + [n], next != now[n] || changed)
  {
    var next := Equation(fw, g, now, n);
    UpdateStep(fw, g, now, n);
    BelowTrans(fw, now[n := next], now, before);
    forall s | Solution(fw, g, s)
      ensures Below(fw, s, now[n := next])
    {
      SolutionsStayBelow(fw, g, s, now, n);
    }
    if next == now[n] {
      assert now[n := next] == now;
    } else {
      assert now[n := next][n] != now[n];
    }
  }

  /** What holds between two sweeps. */
  ghost predicate BetweenSweeps<V(!new)>(fw: Framework<V>, g: FlowGraph, value: seq<V>, changed: bool)
    requires g.Valid()
  {
    && |value| == |g.children| && value[g.entry] == fw.boundary
    && Descending(fw, g, value) && AboveAllSolutions(fw, g, value)
    && (!changed ==> Solution(fw, g, value))
  }

  /** The `do ... while` loop of `solveDataFlowIteratively`: it terminates, in the greatest solution. */
  method SolveIteratively<V(==, !new)>(fw: Framework<V>, g: FlowGraph, value: array<V>)
    requires g.Valid() && value.Length == |g.children|
    requires Semilattice(fw) && Monotone(fw) && FiniteChains(fw)
    modifies value
    ensures GreatestSolution(fw, g, value[..])
  {
    Initialize(fw, g, value, g.order);
    InitialFacts(fw, g, value[..]);
    AllFounded(fw, value[..]);
    ghost var rank: ORDINAL :| FoundedAll#[rank](fw, value[..]);
    var isChanged := true;
    while isChanged
      invariant BetweenSweeps(fw, g, value[..], isChanged) && FoundedAll#[rank](fw, value[..])
      decreases rank, isChanged
    {
      ghost var before := value[..];
      isChanged := Sweep(fw, g, value);
      if isChanged {
        rank := StepDown(fw, before, value[..], rank);
      }
    }
  }

  /** One sweep of `solveDataFlowIteratively`: either it lowers some value or the equations already hold. */
  method Sweep<V(==, !new)>(fw: Framework<V>, g: FlowGraph, value: array<V>) returns (isChanged: bool)
    requires g.Valid() && value.Length == |g.children|
    requires Semilattice(fw) && Monotone(fw)
    requires BetweenSweeps(fw, g, value[..], true)
    modifies value
    ensures BetweenSweeps(fw, g, value[..], isChanged)
    ensures Below(fw, value[..], old(value[..])) && (isChanged <==> value[..] != old(value[..]))
  {
    isChanged := false;
    ghost var before := value[..];
    for i := 0 to |g.order|
      invariant Sweeping(fw, g, before, value[..], g.order[..i], isChanged)
    {
      var n := g.order[i];
      assert n in g.order;
      ghost var now := value[..];
      var met := MeetChildren(fw, value, g.children[n]);
      SweepStep(fw, g, before, now, g.order[..i], isChanged, n);
      assert g.order[..i] + [n] == g.order[..i + 1];
      var next := fw.transfer(n, met);
      isChanged := next != value[n] || isChanged;
      value[n] := next;
      assert value[..] == now[n := next];
    }
    assert g.order[..|g.order|] == g.order;
  }

  /** The initialisation both solvers share: the boundary value at the entry, the top element elsewhere. */
  method Initialize<V(!new)>(fw: Framework<V>, g: FlowGraph, value: array<V>, nodes: seq<nat>)
    requires g.Valid() && value.Length == |g.children|
    requires forall n: nat :: n < |g.children| && n != g.entry ==> n in nodes
    requires InRange(nodes, |g.children|)
    modifies value
    ensures Initial(fw, g, value[..])
  {
    for i := 0 to |nodes|
      invariant forall k :: 0 <= k < i ==> value[nodes[k]] == fw.top
    {
      value[nodes[i]] := fw.top;
    }
    assert forall n: nat :: n in nodes ==> n < value.Length && value[n] == fw.top;
    value[g.entry] := fw.boundary;
  }

  /** The inner loop of both solvers: the meet of the values of the children. */
  method MeetChildren<V(!new)>(fw: Framework<V>, value: array<V>, nodes: seq<nat>) returns (met: V)
    requires InRange(nodes, value.Length)
    ensures met == MeetOf(fw, value[..], nodes)
  {
    met := fw.top;
    for k := 0 to |nodes|
      invariant met == MeetOf(fw, value[..], nodes[..k])
    {
      met := fw.meet(value[nodes[k]], met);
      assert nodes[..k + 1][..k] == nodes[..k];
    }
    assert nodes[..|nodes|] == nodes;
  }
}

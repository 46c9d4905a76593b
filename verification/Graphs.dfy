/**
 Directed graphs given by their edge relation: paths, reachability and cycles.
 Every graph algorithm of the model states its result in these terms.
 */
module Graphs {

  /** `p` is a non-empty walk along the edges of `E`. */
  ghost predicate Path<T(!new)>(E: iset<(T, T)>, p: seq<T>) {
    |p| > 0 && forall i :: 0 <= i < |p| - 1 ==> (p[i], p[i + 1]) in E
  }

  /** `p` leads from `a` to `b`. */
  ghost predicate PathFromTo<T(!new)>(E: iset<(T, T)>, p: seq<T>, a: T, b: T) {
    Path(E, p) && p[0] == a && p[|p| - 1] == b
  }

  /** `b` can be reached from `a` along zero or more edges. */
  ghost predicate Reach<T(!new)>(E: iset<(T, T)>, a: T, b: T) {
    exists p :: PathFromTo(E, p, a, b)
  }

  /** `b` can be reached from `a` along at least one edge. */
  ghost predicate ReachPlus<T(!new)>(E: iset<(T, T)>, a: T, b: T) {
    exists c :: (a, c) in E && Reach(E, c, b)
  }

  ghost predicate Acyclic<T(!new)>(E: iset<(T, T)>) {
    forall a :: !ReachPlus(E, a, a)
  }

  ghost predicate Closed<T(!new)>(E: iset<(T, T)>, S: iset<T>) {
    forall a, b :: a in S && (a, b) in E ==> b in S
  }

  lemma ReachRefl<T(!new)>(E: iset<(T, T)>, a: T)
    ensures Reach(E, a, a)
  {
    assert PathFromTo(E, [a], a, a);
  }

  lemma ReachTrans<T(!new)>(E: iset<(T, T)>, a: T, b: T, c: T)
    requires Reach(E, a, b) && Reach(E, b, c)
    ensures Reach(E, a, c)
  {
    var p :| PathFromTo(E, p, a, b);
    var q :| PathFromTo(E, q, b, c);
    assert PathFromTo(E, p + q[1..], a, c);
  }

  lemma ReachEdge<T(!new)>(E: iset<(T, T)>, a: T, b: T)
    requires (a, b) in E
    ensures Reach(E, a, b)
  {
    assert PathFromTo(E, [a, b], a, b);
  }

  /** A walk extended by an edge at its end. */
  lemma ReachThen<T(!new)>(E: iset<(T, T)>, a: T, b: T, c: T)
    requires Reach(E, a, b) && (b, c) in E
    ensures Reach(E, a, c) && ReachPlus(E, a, c)
  {
    var p :| PathFromTo(E, p, a, b);
    assert PathFromTo(E, p + [c], a, c);
    var q := p + [c];
    assert (a, q[1]) in E;
    assert PathFromTo(E, q[1..], q[1], c);
  }

  /** Reachability never leaves a closed set. */
  lemma ReachClosed<T(!new)>(E: iset<(T, T)>, S: iset<T>, a: T, b: T)
    requires Closed(E, S) && a in S && Reach(E, a, b)
    ensures b in S
  {
    var p :| PathFromTo(E, p, a, b);
    var i := 0;
    while i < |p| - 1
      invariant 0 <= i < |p| && p[i] in S
    {
      assert (p[i], p[i + 1]) in E;
      i := i + 1;
    }
  }

  /** Along a walk from inside `S` to outside of it some edge leaves `S`. */
  lemma CrossingEdge<T(!new)>(E: iset<(T, T)>, S: iset<T>, a: T, b: T) returns (u: T, v: T)
    requires a in S && b !in S && Reach(E, a, b)
    ensures u in S && v !in S && (u, v) in E && Reach(E, a, u) && Reach(E, v, b)
  {
    var p :| PathFromTo(E, p, a, b);
    var i := 0;
    while p[i + 1] in S
      invariant 0 <= i < |p| - 1 && p[i] in S
      decreases |p| - i
    {
      i := i + 1;
    }
    u, v := p[i], p[i + 1];
    assert PathFromTo(E, p[..i + 1], a, u);
    assert PathFromTo(E, p[i + 1..], v, b);
  }

  lemma ReachMono<T(!new)>(E: iset<(T, T)>, F: iset<(T, T)>, a: T, b: T)
    requires E <= F && Reach(E, a, b)
    ensures Reach(F, a, b)
  {
    var p :| PathFromTo(E, p, a, b);
    assert PathFromTo(F, p, a, b);
  }

  /** The first `n` natural numbers. */
  ghost function Below(n: nat): (s: set<nat>)
    ensures forall x: nat :: x in s <==> x < n
  {
    if n == 0 then {} else Below(n - 1) + {n - 1}
  }
}

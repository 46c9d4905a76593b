/**
 Ancestor queries and the lowest common ancestor of include/tsar/ADT/SpanningTreeRelation.h.
 */
module SpanningTreeRelation {
  import opened Graphs
  import opened GraphNumbering
  import opened Trees
  import opened Wrappers

  datatype TreeRelation = Ancestor | Descendant | Equal | Unreachable

  /** `compare`: two lookups and a comparison of numbers. */
  function Compare(numbering: Numbering, lhs: nat, rhs: nat): TreeRelation
    requires lhs in numbering && rhs in numbering
  {
    if lhs == rhs then Equal
    else
      var l, r := numbering[lhs], numbering[rhs];
      if l.preorder < r.preorder && l.reversePostorder < r.reversePostorder then Ancestor
      else if l.preorder > r.preorder && l.reversePostorder > r.reversePostorder then Descendant
      else Unreachable
  }

  /** The relation of two nodes told by the walks along child edges that connect them. */
  ghost function TrueRelation(f: Forest, lhs: nat, rhs: nat): TreeRelation {
    if lhs == rhs then Equal
    else if ReachPlus(ChildEdges(f), lhs, rhs) then Ancestor
    else if ReachPlus(ChildEdges(f), rhs, lhs) then Descendant
    else Unreachable
  }

  /** After numbering, `compare` answers according to true tree ancestry. */
  lemma CompareIsAncestry(f: Forest, numbering: Numbering, lhs: nat, rhs: nat)
    requires Distinct(f) && Numbered(f, numbering) && lhs in Ids(f) && rhs in Ids(f)
    ensures Compare(numbering, lhs, rhs) == TrueRelation(f, lhs, rhs)
  {
    CompareIsAbove(f, numbering, lhs, rhs);
    AboveIsReachability(f, lhs, rhs);
    AboveIsReachability(f, rhs, lhs);
  }

  lemma CompareIsAbove(f: Forest, numbering: Numbering, lhs: nat, rhs: nat)
    requires Distinct(f) && Numbered(f, numbering) && lhs in Ids(f) && rhs in Ids(f)
    ensures Compare(numbering, lhs, rhs).Equal? <==> lhs == rhs
    ensures Compare(numbering, lhs, rhs).Ancestor? <==> Above(f, lhs, rhs)
    ensures Compare(numbering, lhs, rhs).Descendant? <==> Above(f, rhs, lhs)
  {
    Parenthesis(f, lhs, rhs);
    Parenthesis(f, rhs, lhs);
  }

  /** The nodes that have `n` as a child: what `llvm::Inverse` iterates over. */
  function Predecessors(f: Forest, n: nat): (ps: seq<nat>)
    ensures forall p :: p in ps <==> IsChild(f, p, n)
  {
    match f
    case Nil => []
    case Tree(m, c, s) => (if n in Roots(c) then [m] else []) + Predecessors(c, n) + Predecessors(s, n)
  }

  /** `p` is the nearest proper ancestor of `n`. */
  ghost predicate IsParent(f: Forest, p: nat, n: nat) {
    Above(f, p, n) && forall q :: Above(f, q, n) ==> q == p || Above(f, q, p)
  }

  lemma {:induction false} ChildIsParent(f: Forest, p: nat, n: nat)
    requires Distinct(f) && IsChild(f, p, n)
    ensures IsParent(f, p, n)
  {
    ChildIsBelow(f, p, n);
    forall q | Above(f, q, n)
      ensures q == p || Above(f, q, p)
    {
      NearestAncestor(f, p, q, n);
    }
  }

  lemma {:induction false} NearestAncestor(f: Forest, p: nat, q: nat, n: nat)
    requires Distinct(f) && IsChild(f, p, n) && Above(f, q, n)
    ensures q == p || Above(f, q, p)
  {
    var c, s := f.children, f.siblings;
    NotAboveOutside(c, q, n);
    NotAboveOutside(s, q, n);
    RootsAreIds(c);
    if IsChild(c, p, n) {
      ChildIds(c, p, n);
      if Above(c, q, n) {
        NearestAncestor(c, p, q, n);
      }
    } else if IsChild(s, p, n) {
      ChildIds(s, p, n);
      NearestAncestor(s, p, q, n);
    } else if Above(c, q, n) {
      RootHasNoAncestor(c, q, n);
    }
  }

  lemma {:induction false} RootHasNoAncestor(f: Forest, q: nat, r: nat)
    requires Distinct(f) && r in Roots(f)
    ensures !Above(f, q, r)
  {
    NotAboveOutside(f.children, q, r);
    NotAboveOutside(f.siblings, q, r);
    RootsAreIds(f.siblings);
    if r in Roots(f.siblings) {
      RootHasNoAncestor(f.siblings, q, r);
    }
  }

  lemma {:induction false} SomeParent(f: Forest, n: nat) returns (p: nat)
    requires n in Ids(f) && n !in Roots(f)
    ensures IsChild(f, p, n)
  {
    if n in Ids(f.children) {
      if n in Roots(f.children) {
        p := f.node;
      } else {
        p := SomeParent(f.children, n);
      }
    } else {
      p := SomeParent(f.siblings, n);
    }
  }

  /** `findParent`: the parent of a node, and no value exactly for the root. */
  method FindParent(f: Forest, numbering: Numbering, n: nat) returns (parent: Option<nat>)
    requires IsTree(f) && Numbered(f, numbering) && n in Ids(f)
    ensures parent.None? <==> n == f.node
    ensures parent.Some? ==> IsParent(f, parent.value, n)
  {
    var ps := Predecessors(f, n);
    for i := 0 to |ps|
      invariant forall k :: 0 <= k < i ==> !Above(f, ps[k], n)
    {
      assert IsChild(f, ps[i], n);
      ChildIds(f, ps[i], n);
      CompareIsAbove(f, numbering, n, ps[i]);
      if Compare(numbering, n, ps[i]).Descendant? {
        ChildIsParent(f, ps[i], n);
        RootHasNoAncestor(f, ps[i], f.node);
        return Some(ps[i]);
      }
    }
    if n != f.node {
      var p := SomeParent(f, n);
      assert p in ps;
      ChildIsBelow(f, p, n);
    }
    return None;
  }

  /** `a` is a proper ancestor of all listed nodes. */
  ghost predicate AboveAll(f: Forest, a: nat, nodes: seq<nat>) {
    forall x :: x in nodes ==> Above(f, a, x)
  }

  /** `a` is the deepest node that is a proper ancestor of all listed nodes. */
  ghost predicate IsLCA(f: Forest, a: nat, nodes: seq<nat>) {
    AboveAll(f, a, nodes) && forall q :: AboveAll(f, q, nodes) ==> q == a || Above(f, q, a)
  }

  lemma ParentIsLCA(f: Forest, p: nat, n: nat)
    requires IsParent(f, p, n)
    ensures IsLCA(f, p, [n])
  {
    forall q | AboveAll(f, q, [n])
      ensures q == p || Above(f, q, p)
    {
      assert n in [n];
    }
  }

  /** Where the climb from the ancestor of `done` stands when the node `x` is added to the list. */
  ghost predicate Climbing(f: Forest, a: nat, done: seq<nat>, x: nat) {
    && AboveAll(f, a, done)
    && forall q :: AboveAll(f, q, done) && Above(f, q, x) ==> q == a || Above(f, q, a)
  }

  lemma ClimbStep(f: Forest, a: nat, p: nat, done: seq<nat>, x: nat)
    requires Distinct(f) && Climbing(f, a, done, x) && !Above(f, a, x) && IsParent(f, p, a)
    ensures Climbing(f, p, done, x)
  {
    forall y | y in done
      ensures Above(f, p, y)
    {
      AboveTrans(f, p, a, y);
    }
  }

  lemma ClimbEnds(f: Forest, a: nat, done: seq<nat>, x: nat)
    requires Climbing(f, a, done, x) && Above(f, a, x)
    ensures IsLCA(f, a, done + [x])
  {
    forall q | AboveAll(f, q, done + [x])
      ensures q == a || Above(f, q, a)
    {
      assert forall y :: y in done ==> y in done + [x];
      assert x in done + [x];
    }
  }

  /** When `x` lies above the ancestor found so far, the parent of `x` takes its place. */
  lemma JumpAbove(f: Forest, a: nat, p: nat, done: seq<nat>, x: nat)
    requires Distinct(f) && AboveAll(f, a, done) && Above(f, x, a) && IsParent(f, p, x)
    ensures IsLCA(f, p, done + [x])
  {
    AboveTrans(f, p, x, a);
    forall y | y in done
      ensures Above(f, p, y)
    {
      AboveTrans(f, p, a, y);
    }
    forall q | AboveAll(f, q, done + [x])
      ensures q == p || Above(f, q, p)
    {
      assert x in done + [x];
    }
  }

  /** The root is above every other node, so nothing is above all nodes exactly when the root is listed. */
  lemma NoLCA(f: Forest, nodes: seq<nat>)
    requires IsTree(f) && nodes != [] && forall x :: x in nodes ==> x in Ids(f)
    ensures (forall q :: !AboveAll(f, q, nodes)) <==> f.node in nodes
  {
    if f.node in nodes {
      forall q
        ensures !AboveAll(f, q, nodes)
      {
        RootHasNoAncestor(f, q, f.node);
      }
    } else {
      assert AboveAll(f, f.node, nodes);
    }
  }

  /** Why a climb that leaves the tree shows that the root is listed. */
  lemma ClimbedOut(f: Forest, a: nat, nodes: seq<nat>, k: nat)
    requires IsTree(f) && k < |nodes| && forall x :: x in nodes ==> x in Ids(f)
    requires Climbing(f, a, nodes[..k], nodes[k]) && !Above(f, a, nodes[k]) && a == f.node
    ensures f.node in nodes
  {
    assert nodes[k] in nodes;
    assert nodes[k] == f.node;
  }

  /** `findLCA`: the deepest proper common ancestor, and no value exactly when the root is listed. */
  method FindLCA(f: Forest, numbering: Numbering, nodes: seq<nat>) returns (lca: Option<nat>)
    requires IsTree(f) && Numbered(f, numbering)
    requires nodes != [] && forall x :: x in nodes ==> x in Ids(f)
    ensures lca.None? <==> f.node in nodes
    ensures lca.Some? ==> IsLCA(f, lca.value, nodes)
  {
    NoLCA(f, nodes);
    var parent := FindParent(f, numbering, nodes[0]);
    if parent.None? {
      return None;
    }
    var a := parent.value;
    ParentIsLCA(f, a, nodes[0]);
    AboveIds(f, a, nodes[0]);
    assert nodes[..1] == [nodes[0]];
    var k := 1;
    while k < |nodes|
      invariant 1 <= k <= |nodes| && a in Ids(f) && IsLCA(f, a, nodes[..k])
    {
      var x := nodes[k];
      var r := Compare(numbering, a, x);
      while r.Unreachable? || r.Equal?
        invariant a in Ids(f) && r == Compare(numbering, a, x) && Climbing(f, a, nodes[..k], x)
        decreases Pre(f, a)
      {
        CompareIsAbove(f, numbering, a, x);
        parent := FindParent(f, numbering, a);
        if parent.None? {
          ClimbedOut(f, a, nodes, k);
          return None;
        }
        ClimbStep(f, a, parent.value, nodes[..k], x);
        AboveIds(f, parent.value, a);
        Parenthesis(f, parent.value, a);
        a := parent.value;
        r := Compare(numbering, a, x);
      }
      CompareIsAbove(f, numbering, a, x);
      if r.Descendant? {
        parent := FindParent(f, numbering, x);
        if parent.None? {
          return None;
        }
        JumpAbove(f, a, parent.value, nodes[..k], x);
        AboveIds(f, parent.value, x);
        a := parent.value;
      } else {
        ClimbEnds(f, a, nodes[..k], x);
      }
      assert nodes[..k + 1] == nodes[..k] + [x];
      k := k + 1;
    }
    assert nodes[..k] == nodes;
    return Some(a);
  }
}

/**
 Finite ordered trees, their two depth-first orders, and the parenthesis theorem that relates
 these orders to ancestry.
 */
module Trees {
  import opened Graphs

  /** A list of trees: the first tree is `node` over `children`, the others are `siblings`. */
  datatype Forest = Nil | Tree(node: nat, children: Forest, siblings: Forest)

  function Ids(f: Forest): set<nat> {
    match f
    case Nil => {}
    case Tree(n, c, s) => {n} + Ids(c) + Ids(s)
  }

  function Size(f: Forest): nat {
    match f
    case Nil => 0
    case Tree(_, c, s) => 1 + Size(c) + Size(s)
  }

  /** No node occurs twice. */
  ghost predicate Distinct(f: Forest) {
    match f
    case Nil => true
    case Tree(n, c, s) => n !in Ids(c) && n !in Ids(s) && Ids(c) !! Ids(s) && Distinct(c) && Distinct(s)
  }

  /** A single tree whose nodes are distinct. */
  ghost predicate IsTree(f: Forest) {
    f.Tree? && f.siblings.Nil? && Distinct(f)
  }

  function Roots(f: Forest): seq<nat> {
    match f
    case Nil => []
    case Tree(n, _, s) => [n] + Roots(s)
  }

  /** Nodes in the order in which a depth-first search enters them. */
  ghost function Preorder(f: Forest): seq<nat> {
    match f
    case Nil => []
    case Tree(n, c, s) => [n] + Preorder(c) + Preorder(s)
  }

  /** Nodes in the order in which a depth-first search leaves them. */
  ghost function Postorder(f: Forest): seq<nat> {
    match f
    case Nil => []
    case Tree(n, c, s) => Postorder(c) + [n] + Postorder(s)
  }

  /** The edges from each node to its children. */
  ghost function ChildEdges(f: Forest): iset<(nat, nat)> {
    iset e: (nat, nat) | IsChild(f, e.0, e.1)
  }

  ghost predicate IsChild(f: Forest, p: nat, n: nat) {
    match f
    case Nil => false
    case Tree(m, c, s) => (p == m && n in Roots(c)) || IsChild(c, p, n) || IsChild(s, p, n)
  }

  /** `a` is a proper ancestor of `b`: `b` lies below `a`. */
  ghost predicate Above(f: Forest, a: nat, b: nat) {
    match f
    case Nil => false
    case Tree(n, c, s) => (a == n && b in Ids(c)) || Above(c, a, b) || Above(s, a, b)
  }

  lemma {:induction false} RootsAreIds(f: Forest)
    ensures forall n :: n in Roots(f) ==> n in Ids(f)
  {
    if f.Tree? {
      RootsAreIds(f.siblings);
    }
  }

  lemma {:induction false} ChildIds(f: Forest, p: nat, n: nat)
    requires IsChild(f, p, n)
    ensures p in Ids(f) && n in Ids(f)
  {
    RootsAreIds(f.children);
    if IsChild(f.children, p, n) {
      ChildIds(f.children, p, n);
    } else if IsChild(f.siblings, p, n) {
      ChildIds(f.siblings, p, n);
    }
  }

  lemma {:induction false} AboveIds(f: Forest, a: nat, b: nat)
    requires Above(f, a, b)
    ensures a in Ids(f) && b in Ids(f)
  {
    if Above(f.children, a, b) {
      AboveIds(f.children, a, b);
    } else if Above(f.siblings, a, b) {
      AboveIds(f.siblings, a, b);
    }
  }

  /** A node that is no root lies below some root. */
  lemma {:induction false} BelowSomeRoot(f: Forest, b: nat) returns (r: nat)
    requires b in Ids(f) && b !in Roots(f)
    ensures r in Roots(f) && Above(f, r, b)
  {
    if b in Ids(f.children) {
      r := f.node;
    } else {
      r := BelowSomeRoot(f.siblings, b);
    }
  }

  /** Ancestry is what a walk along child edges reaches. */
  lemma AboveIsReachability(f: Forest, a: nat, b: nat)
    requires Distinct(f)
    ensures Above(f, a, b) <==> ReachPlus(ChildEdges(f), a, b)
  {
    if Above(f, a, b) {
      AboveReaches(f, a, b);
    }
    if ReachPlus(ChildEdges(f), a, b) {
      var c :| (a, c) in ChildEdges(f) && Reach(ChildEdges(f), c, b);
      ChildIsBelow(f, a, c);
      var below := iset n: nat | Above(f, a, n);
      forall m: nat, n: nat | m in below && (m, n) in ChildEdges(f)
        ensures n in below
      {
        ChildIsBelow(f, m, n);
        AboveTrans(f, a, m, n);
      }
      ReachClosed(ChildEdges(f), below, c, b);
    }
  }

  lemma {:induction false} ChildIsBelow(f: Forest, p: nat, n: nat)
    requires IsChild(f, p, n)
    ensures Above(f, p, n)
  {
    RootsAreIds(f.children);
    if IsChild(f.children, p, n) {
      ChildIsBelow(f.children, p, n);
    } else if IsChild(f.siblings, p, n) {
      ChildIsBelow(f.siblings, p, n);
    }
  }

  lemma {:induction false} AboveReaches(f: Forest, a: nat, b: nat)
    requires Above(f, a, b)
    ensures ReachPlus(ChildEdges(f), a, b)
  {
    if a == f.node && b in Ids(f.children) {
      var r := b;
      if b !in Roots(f.children) {
        r := BelowSomeRoot(f.children, b);
        AboveReaches(f.children, r, b);
        ReachPlusMono(ChildEdges(f.children), ChildEdges(f), r, b);
      } else {
        ReachRefl(ChildEdges(f), b);
      }
      assert (a, r) in ChildEdges(f) && Reach(ChildEdges(f), r, b);
    } else if Above(f.children, a, b) {
      AboveReaches(f.children, a, b);
      ReachPlusMono(ChildEdges(f.children), ChildEdges(f), a, b);
    } else {
      AboveReaches(f.siblings, a, b);
      ReachPlusMono(ChildEdges(f.siblings), ChildEdges(f), a, b);
    }
  }

  lemma ReachPlusMono(E: iset<(nat, nat)>, F: iset<(nat, nat)>, a: nat, b: nat)
    requires E <= F && ReachPlus(E, a, b)
    ensures ReachPlus(F, a, b) && Reach(F, a, b)
  {
    var c :| (a, c) in E && Reach(E, c, b);
    ReachMono(E, F, c, b);
    ReachEdge(F, a, c);
    ReachTrans(F, a, c, b);
  }

  // ---------- The two orders ----------

  ghost predicate NoDuplicates(s: seq<nat>) {
    forall i, j :: 0 <= i < j < |s| ==> s[i] != s[j]
  }

  lemma {:induction false} OrdersListTheNodes(f: Forest)
    ensures |Preorder(f)| == Size(f) && |Postorder(f)| == Size(f)
    ensures forall n :: n in Ids(f) <==> n in Preorder(f)
    ensures forall n :: n in Ids(f) <==> n in Postorder(f)
  {
    if f.Tree? {
      OrdersListTheNodes(f.children);
      OrdersListTheNodes(f.siblings);
    }
  }

  lemma {:induction false} OrdersAreDistinct(f: Forest)
    requires Distinct(f)
    ensures NoDuplicates(Preorder(f)) && NoDuplicates(Postorder(f))
  {
    if f.Tree? {
      OrdersListTheNodes(f.children);
      OrdersListTheNodes(f.siblings);
      OrdersAreDistinct(f.children);
      OrdersAreDistinct(f.siblings);
      ConcatDistinct([f.node], Preorder(f.children));
      ConcatDistinct([f.node] + Preorder(f.children), Preorder(f.siblings));
      ConcatDistinct(Postorder(f.children), [f.node]);
      ConcatDistinct(Postorder(f.children) + [f.node], Postorder(f.siblings));
    }
  }

  lemma ConcatDistinct(a: seq<nat>, b: seq<nat>)
    requires NoDuplicates(a) && NoDuplicates(b) && forall x :: x in a ==> x !in b
    ensures NoDuplicates(a + b)
  {
    forall i, j | 0 <= i < j < |a + b|
      ensures (a + b)[i] != (a + b)[j]
    {
      if i < |a| <= j {
        assert a[i] in a && b[j - |a|] in b;
      }
    }
  }

  /** How many nodes are entered before `n`. */
  ghost function Pre(f: Forest, n: nat): nat {
    match f
    case Nil => 0
    case Tree(m, c, s) =>
      if n == m then 0 else if n in Ids(c) then 1 + Pre(c, n) else 1 + Size(c) + Pre(s, n)
  }

  /** How many nodes are left before `n`. */
  ghost function Post(f: Forest, n: nat): nat {
    match f
    case Nil => 0
    case Tree(m, c, s) =>
      if n == m then Size(c) else if n in Ids(c) then Post(c, n) else 1 + Size(c) + Post(s, n)
  }

  lemma PositionsInOrders(f: Forest, n: nat)
    requires Distinct(f) && n in Ids(f)
    ensures Pre(f, n) < Size(f) && Post(f, n) < Size(f)
    ensures |Preorder(f)| == Size(f) && Preorder(f)[Pre(f, n)] == n
    ensures |Postorder(f)| == Size(f) && Postorder(f)[Post(f, n)] == n
  {
    OrdersListTheNodes(f);
    PositionInPreorder(f, n);
    PositionInPostorder(f, n);
  }

  lemma {:induction false} PositionInPreorder(f: Forest, n: nat)
    requires Distinct(f) && n in Ids(f)
    ensures Pre(f, n) < |Preorder(f)| && Preorder(f)[Pre(f, n)] == n
  {
    OrdersListTheNodes(f.children);
    if n in Ids(f.children) {
      PositionInPreorder(f.children, n);
    } else if n in Ids(f.siblings) {
      PositionInPreorder(f.siblings, n);
    }
    InThreeParts([f.node], Preorder(f.children), Preorder(f.siblings), Pre(f, n));
  }

  lemma {:induction false} PositionInPostorder(f: Forest, n: nat)
    requires Distinct(f) && n in Ids(f)
    ensures Post(f, n) < |Postorder(f)| && Postorder(f)[Post(f, n)] == n
  {
    OrdersListTheNodes(f.children);
    if n in Ids(f.children) {
      PositionInPostorder(f.children, n);
    } else if n in Ids(f.siblings) {
      PositionInPostorder(f.siblings, n);
    }
    InThreeParts(Postorder(f.children), [f.node], Postorder(f.siblings), Post(f, n));
  }

  lemma InThreeParts(a: seq<nat>, b: seq<nat>, c: seq<nat>, i: nat)
    requires i < |a| + |b| + |c|
    ensures |a + b + c| == |a| + |b| + |c|
    ensures (a + b + c)[i] == if i < |a| then a[i] else if i < |a| + |b| then b[i - |a|] else c[i - |a| - |b|]
  {
  }

  /** The parenthesis theorem: `a` is above `b` exactly when it is entered earlier and left later. */
  lemma {:induction false} Parenthesis(f: Forest, a: nat, b: nat)
    requires Distinct(f) && a in Ids(f) && b in Ids(f)
    ensures Above(f, a, b) <==> Pre(f, a) < Pre(f, b) && Post(f, b) < Post(f, a)
  {
    var c, s := f.children, f.siblings;
    NotAboveOutside(c, a, b);
    NotAboveOutside(s, a, b);
    BoundedPositions(c, a);
    BoundedPositions(c, b);
    if a in Ids(c) && b in Ids(c) {
      Parenthesis(c, a, b);
    } else if a in Ids(s) && b in Ids(s) {
      Parenthesis(s, a, b);
    }
  }

  lemma BoundedPositions(f: Forest, n: nat)
    requires Distinct(f)
    ensures n in Ids(f) ==> Pre(f, n) < Size(f) && Post(f, n) < Size(f)
  {
    if n in Ids(f) {
      PositionsInOrders(f, n);
    }
  }

  lemma NotAboveOutside(f: Forest, a: nat, b: nat)
    ensures a !in Ids(f) || b !in Ids(f) ==> !Above(f, a, b)
  {
    if Above(f, a, b) {
      AboveIds(f, a, b);
    }
  }

  lemma AboveTrans(f: Forest, a: nat, b: nat, c: nat)
    requires Distinct(f) && Above(f, a, b) && Above(f, b, c)
    ensures Above(f, a, c)
  {
    AboveIds(f, a, b);
    AboveIds(f, b, c);
    Parenthesis(f, a, b);
    Parenthesis(f, b, c);
    Parenthesis(f, a, c);
  }

  lemma AboveIrreflexive(f: Forest, a: nat)
    requires Distinct(f)
    ensures !Above(f, a, a)
  {
    if Above(f, a, a) {
      AboveIds(f, a, a);
      Parenthesis(f, a, a);
    }
  }

  /** The ancestors of a node form a chain. */
  lemma {:induction false} AncestorsFormChain(f: Forest, a: nat, b: nat, n: nat)
    requires Distinct(f) && Above(f, a, n) && Above(f, b, n)
    ensures a == b || Above(f, a, b) || Above(f, b, a)
  {
    var c, s := f.children, f.siblings;
    NotAboveOutside(c, a, n);
    NotAboveOutside(c, b, n);
    NotAboveOutside(s, a, n);
    NotAboveOutside(s, b, n);
    if Above(c, a, n) && Above(c, b, n) {
      AncestorsFormChain(c, a, b, n);
    } else if Above(s, a, n) && Above(s, b, n) {
      AncestorsFormChain(s, a, b, n);
    }
  }
}

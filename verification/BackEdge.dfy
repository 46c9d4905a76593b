/**
 The depth-first search for a back edge of include/tsar/ADT/GraphUtils.h.
 */
module BackEdge {
  import opened Graphs
  import opened Wrappers

  /** A directed graph as `llvm::GraphTraits` shows it: an entry node and, for each node, its children. */
  datatype ChildGraph = ChildGraph(entry: nat, children: seq<seq<nat>>) {
    predicate Valid() {
      && entry < |children|
      && forall n :: 0 <= n < |children| ==> forall c: nat :: c in children[n] ==> c < |children|
    }

    ghost function Edges(): iset<(nat, nat)> {
      iset e: (nat, nat) | e.0 < |children| && e.1 in children[e.0]
    }

    ghost function Nodes(): set<nat> {
      Below(|children|)
    }

    /** A cycle that the entry node leads to. */
    ghost predicate CycleReachable() {
      exists a :: Reach(Edges(), entry, a) && ReachPlus(Edges(), a, a)
    }
  }

  datatype Color = White | Gray | Black

  /** The colour map shared by all calls of one search. */
  class VisitedNodes {
    var colors: map<nat, Color>

    constructor (entry: nat)
      ensures colors == map[entry := Gray]
    {
      colors := map[entry := Gray];
    }
  }

  ghost predicate Has(colors: map<nat, Color>, u: nat, c: Color) {
    u in colors && colors[u] == c
  }

  ghost predicate AllBlack(colors: map<nat, Color>, nodes: seq<nat>) {
    forall c: nat :: c in nodes ==> Has(colors, c, Black)
  }

  /** Every stored node is a node of the graph, opened or finished; finished nodes are closed under edges and lie on no cycle. */
  ghost predicate BlackSound(g: ChildGraph, colors: map<nat, Color>) {
    && (forall u: nat :: u in colors ==> u < |g.children| && (Has(colors, u, Gray) || Has(colors, u, Black)))
    && (forall u: nat :: Has(colors, u, Black) ==> u < |g.children| && AllBlack(colors, g.children[u]))
    && (forall u: nat :: Has(colors, u, Black) ==> !ReachPlus(g.Edges(), u, u))
  }

  /** Opened nodes are the ones the search is still inside of: all of them lead to `n`. */
  ghost predicate GrayStack(g: ChildGraph, colors: map<nat, Color>, n: nat) {
    forall u: nat :: Has(colors, u, Gray) ==> Reach(g.Edges(), u, n)
  }

  /** The search changes no colour it finds and finishes every node it adds. */
  ghost predicate Extends(before: map<nat, Color>, after: map<nat, Color>) {
    && (forall u: nat :: u in before ==> u in after && after[u] == before[u])
    && (forall u: nat :: u in after && u !in before ==> after[u] == Black)
  }

  lemma BlackReachesBlack(g: ChildGraph, colors: map<nat, Color>, u: nat, v: nat)
    requires BlackSound(g, colors) && Has(colors, u, Black) && Reach(g.Edges(), u, v)
    ensures Has(colors, v, Black)
  {
    ReachClosed(g.Edges(), (iset w: nat | Has(colors, w, Black)), u, v);
  }

  /** A node all of whose children are finished lies on no cycle unless it is finished itself. */
  lemma NoCycleThrough(g: ChildGraph, colors: map<nat, Color>, n: nat)
    requires n < |g.children| && BlackSound(g, colors) && Has(colors, n, Gray) && AllBlack(colors, g.children[n])
    ensures !ReachPlus(g.Edges(), n, n)
  {
    if ReachPlus(g.Edges(), n, n) {
      var c :| (n, c) in g.Edges() && Reach(g.Edges(), c, n);
      BlackReachesBlack(g, colors, c, n);
    }
  }

  lemma GrayKept(g: ChildGraph, before: map<nat, Color>, after: map<nat, Color>, n: nat)
    requires GrayStack(g, before, n) && Extends(before, after)
    ensures GrayStack(g, after, n)
  {
    forall u: nat | Has(after, u, Gray)
      ensures Reach(g.Edges(), u, n)
    {
      assert Has(before, u, Gray);
    }
  }

  /** What holds when the search enters the fresh child `c` of `n`. */
  lemma OpenChild(g: ChildGraph, start: map<nat, Color>, colors: map<nat, Color>, n: nat, c: nat)
    requires g.Valid() && n < |g.children| && c in g.children[n]
    requires GrayStack(g, start, n) && Extends(start, colors) && BlackSound(g, colors) && c !in colors
    ensures GrayStack(g, colors[c := Gray], c) && BlackSound(g, colors[c := Gray])
    ensures c in g.Nodes() - start.Keys
  {
    var entered := colors[c := Gray];
    assert (n, c) in g.Edges();
    GrayKept(g, start, colors, n);
    forall u: nat | Has(entered, u, Gray)
      ensures Reach(g.Edges(), u, c)
    {
      if u == c {
        ReachRefl(g.Edges(), c);
      } else {
        assert Has(colors, u, Gray);
        ReachThen(g.Edges(), u, n, c);
      }
    }
    BlackKept(g, colors, entered);
  }

  lemma BlackKept(g: ChildGraph, colors: map<nat, Color>, more: map<nat, Color>)
    requires BlackSound(g, colors)
    requires forall u: nat :: u in more ==> u < |g.children| && (Has(more, u, Gray) || Has(more, u, Black))
    requires forall u: nat :: Has(colors, u, Black) ==> Has(more, u, Black)
    requires forall u: nat :: Has(more, u, Black) && !Has(colors, u, Black) ==>
                                AllBlack(more, g.children[u]) && !ReachPlus(g.Edges(), u, u)
    ensures BlackSound(g, more)
  {
    forall u: nat | Has(more, u, Black) && Has(colors, u, Black)
      ensures AllBlack(more, g.children[u])
    {
    }
  }

  /** What holds when the search leaves the child `c` without a back edge. */
  lemma CloseChild(g: ChildGraph, start: map<nat, Color>, before: map<nat, Color>, after: map<nat, Color>, c: nat)
    requires Extends(start, before) && c !in before && c < |g.children|
    requires Extends(before[c := Gray], after) && BlackSound(g, after) && AllBlack(after, g.children[c])
    ensures BlackSound(g, after[c := Black]) && Extends(start, after[c := Black])
    ensures forall u: nat :: Has(before, u, Black) || u == c ==> Has(after[c := Black], u, Black)
  {
    assert Has(before[c := Gray], c, Gray);
    NoCycleThrough(g, after, c);
    var closed := after[c := Black];
    assert forall u: nat :: Has(after, u, Black) ==> Has(closed, u, Black);
    assert forall u: nat :: Has(closed, u, Black) && !Has(after, u, Black) ==> u == c;
    BlackKept(g, after, closed);
  }

  lemma OneMoreBlack(before: map<nat, Color>, after: map<nat, Color>, nodes: seq<nat>, i: nat)
    requires i < |nodes| && AllBlack(before, nodes[..i])
    requires forall u: nat :: Has(before, u, Black) || u == nodes[i] ==> Has(after, u, Black)
    ensures AllBlack(after, nodes[..i + 1])
  {
    assert nodes[..i + 1] == nodes[..i] + [nodes[i]];
    forall u: nat | u in nodes[..i]
      ensures Has(after, u, Black)
    {
      assert Has(before, u, Black);
    }
  }

  /** Edge `e` lies below `n` and closes a cycle. */
  ghost predicate ClosesCycle(g: ChildGraph, n: nat, e: (nat, nat)) {
    Reach(g.Edges(), n, e.0) && e in g.Edges() && Reach(g.Edges(), e.1, e.0)
  }

  lemma ClosesCycleAbove(g: ChildGraph, n: nat, c: nat, e: (nat, nat))
    requires n < |g.children| && c in g.children[n] && ClosesCycle(g, c, e)
    ensures ClosesCycle(g, n, e)
  {
    ReachEdge(g.Edges(), n, c);
    ReachTrans(g.Edges(), n, c, e.0);
  }

  /** `detail::findBackEdge`: either an edge that closes a cycle, or everything below `n` is finished. */
  method FindBackEdgeFrom(g: ChildGraph, n: nat, visited: VisitedNodes) returns (edge: Option<(nat, nat)>)
    requires g.Valid() && n < |g.children| && Has(visited.colors, n, Gray)
    requires BlackSound(g, visited.colors) && GrayStack(g, visited.colors, n)
    modifies visited
    ensures edge.Some? ==> ClosesCycle(g, n, edge.value)
    ensures edge.None? ==>
              && Extends(old(visited.colors), visited.colors) && BlackSound(g, visited.colors)
              && AllBlack(visited.colors, g.children[n])
    decreases g.Nodes() - visited.colors.Keys
  {
    ghost var start := visited.colors;
    var i := 0;
    while i < |g.children[n]|
      invariant 0 <= i <= |g.children[n]|
      invariant Extends(start, visited.colors) && BlackSound(g, visited.colors)
      invariant AllBlack(visited.colors, g.children[n][..i])
    {
      var c := g.children[n][i];
      ghost var before := visited.colors;
      if c !in visited.colors {
        OpenChild(g, start, before, n, c);
        visited.colors := visited.colors[c := Gray];
        edge := FindBackEdgeFrom(g, c, visited);
        if edge.Some? {
          ClosesCycleAbove(g, n, c, edge.value);
          return;
        }
        CloseChild(g, start, before, visited.colors, c);
        visited.colors := visited.colors[c := Black];
      } else if visited.colors[c] == Gray {
        GrayKept(g, start, visited.colors, n);
        ReachRefl(g.Edges(), n);
        assert Has(visited.colors, c, Gray);
        return Some((n, c));
      }
      OneMoreBlack(before, visited.colors, g.children[n], i);
      i := i + 1;
    }
    assert g.children[n][..i] == g.children[n];
    return None;
  }

  /** `findBackEdge`: finds an edge exactly when the entry leads to a cycle, and the edge closes such a cycle. */
  method FindBackEdge(g: ChildGraph) returns (edge: Option<(nat, nat)>)
    requires g.Valid()
    ensures edge.Some? <==> g.CycleReachable()
    ensures edge.Some? ==> ClosesCycle(g, g.entry, edge.value)
  {
    var visited := new VisitedNodes(g.entry);
    ReachRefl(g.Edges(), g.entry);
    edge := FindBackEdgeFrom(g, g.entry, visited);
    if edge.Some? {
      assert ReachPlus(g.Edges(), edge.value.0, edge.value.0);
    } else {
      NoCycleBelow(g, visited.colors);
    }
  }

  lemma NoCycleBelow(g: ChildGraph, colors: map<nat, Color>)
    requires g.Valid() && BlackSound(g, colors) && Has(colors, g.entry, Gray)
    requires AllBlack(colors, g.children[g.entry])
    ensures !g.CycleReachable()
  {
    NoCycleThrough(g, colors, g.entry);
    forall a | Reach(g.Edges(), g.entry, a)
      ensures !ReachPlus(g.Edges(), a, a)
    {
      ReachClosed(g.Edges(), (iset w: nat | w == g.entry || Has(colors, w, Black)), g.entry, a);
    }
  }

  /** `isDAG`. */
  method IsDAG(g: ChildGraph) returns (dag: bool)
    requires g.Valid()
    ensures dag <==> !g.CycleReachable()
  {
    var edge := FindBackEdge(g);
    return edge.None?;
  }
}

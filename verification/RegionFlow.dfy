/** The region graphs as data-flow graphs: values flow forward, from the predecessors of a node, and the solvers apply. */
module RegionFlow {
  import opened DataFlow
  import opened Graphs
  import opened LoopRegion
  import TopologicalSolver

  function IndexOf(nodes: seq<DFNode>, n: DFNode): (i: nat)
    requires n in nodes
    ensures i < |nodes| && nodes[i] == n
  {
    if nodes[0] == n then 0 else 1 + IndexOf(nodes[1..], n)
  }

  predicate Listed(nodes: seq<DFNode>, ns: seq<DFNode>) {
    forall i :: 0 <= i < |ns| ==> ns[i] in nodes
  }

  function Indices(nodes: seq<DFNode>, ns: seq<DFNode>): (r: seq<nat>)
    requires Listed(nodes, ns)
    ensures |r| == |ns| && forall i :: 0 <= i < |ns| ==> r[i] == IndexOf(nodes, ns[i])
  {
    seq(|ns|, i requires 0 <= i < |ns| => IndexOf(nodes, ns[i]))
  }

  /** All adjacent nodes are listed. */
  predicate AllListed(r: RegionTree) {
    && r.nodes != []
    && forall i :: 0 <= i < |r.nodes| ==>
         Listed(r.nodes, ListOf(r.preds, r.nodes[i])) && Listed(r.nodes, ListOf(r.succs, r.nodes[i]))
  }

  /** The nodes by their numbers in the list; the first one is the entry. */
  function FlowOf(r: RegionTree): FlowGraph
    requires AllListed(r)
  {
    FlowGraph(0, seq(|r.nodes|, i requires 0 <= i < |r.nodes| => Indices(r.nodes, ListOf(r.preds, r.nodes[i]))),
              seq(|r.nodes| - 1, i requires 0 <= i < |r.nodes| - 1 => i + 1))
  }

  function SuccessorsOf(r: RegionTree): seq<seq<nat>>
    requires AllListed(r)
  {
    seq(|r.nodes|, i requires 0 <= i < |r.nodes| => Indices(r.nodes, ListOf(r.succs, r.nodes[i])))
  }

  /** What `SolveTopologically` asks for. */
  ghost predicate Solvable(r: RegionTree) {
    && AllListed(r)
    && var g := FlowOf(r);
       && g.Valid() && TopologicalSolver.Inverse(g, SuccessorsOf(r)) && Acyclic(g.Flow())
       && forall i: nat :: i < |g.children| ==> Reach(g.Flow(), g.entry, i)
  }

  lemma IndicesMember(nodes: seq<DFNode>, ns: seq<DFNode>, i: nat)
    requires Listed(nodes, ns) && DistinctNodes(nodes) && i < |nodes|
    ensures i in Indices(nodes, ns) <==> nodes[i] in ns
  {
    var r := Indices(nodes, ns);
    if i in r {
      var k :| 0 <= k < |r| && r[k] == i;
      assert nodes[i] == ns[k];
    }
    if nodes[i] in ns {
      var k :| 0 <= k < |ns| && ns[k] == nodes[i];
      assert r[k] == IndexOf(nodes, nodes[i]);
    }
  }

  lemma RegionListed(cfg: CFG, l: Loop, r: RegionTree)
    requires NaturalLoop(cfg, l) && RegionGraph(cfg, l, r)
    ensures AllListed(r)
  {
    hide NaturalLoop, RegionEdge, EdgeCount, RegionNodes;
    assert r.nodes != [] by { NodesStart(cfg, l, r.nodes); }
    forall i, k | 0 <= i < |r.nodes| && 0 <= k < |ListOf(r.succs, r.nodes[i])|
      ensures ListOf(r.succs, r.nodes[i])[k] in r.nodes
    {
      EdgeListed(cfg, l, r, r.nodes[i], ListOf(r.succs, r.nodes[i])[k]);
    }
    forall i, k | 0 <= i < |r.nodes| && 0 <= k < |ListOf(r.preds, r.nodes[i])|
      ensures ListOf(r.preds, r.nodes[i])[k] in r.nodes
    {
      var a := ListOf(r.preds, r.nodes[i])[k];
      DualMember(r, a, r.nodes[i]);
      EdgeListed(cfg, l, r, a, r.nodes[i]);
    }
  }

  lemma NodesStart(cfg: CFG, l: Loop, nodes: seq<DFNode>)
    requires RegionNodes(cfg, l, nodes)
    ensures nodes != [] && nodes[0] == Entry && DistinctNodes(nodes)
  {
  }

  lemma DualMember(r: RegionTree, a: DFNode, b: DFNode)
    requires Dual(r.succs, r.preds)
    ensures a in ListOf(r.preds, b) <==> b in ListOf(r.succs, a)
  {
    assert Multiplicity(r.succs, a, b) == Multiplicity(r.preds, b, a);
  }

  /** Edges of the data-flow graph are those of the region. */
  lemma FlowEdges(r: RegionTree, i: nat, j: nat)
    requires AllListed(r) && Dual(r.succs, r.preds) && DistinctNodes(r.nodes) && i < |r.nodes| && j < |r.nodes|
    ensures i in FlowOf(r).children[j] <==> (r.nodes[i], r.nodes[j]) in RegionEdges(r)
    ensures j in SuccessorsOf(r)[i] <==> (r.nodes[i], r.nodes[j]) in RegionEdges(r)
  {
    hide Dual, DistinctNodes;
    IndicesMember(r.nodes, ListOf(r.preds, r.nodes[j]), i);
    IndicesMember(r.nodes, ListOf(r.succs, r.nodes[i]), j);
    DualMember(r, r.nodes[i], r.nodes[j]);
  }

  lemma FlowIsValid(r: RegionTree)
    requires AllListed(r)
    ensures FlowOf(r).Valid()
  {
    var g := FlowOf(r);
    forall n: nat | n < |g.children| && n != g.entry
      ensures n in g.order
    {
      assert g.order[n - 1] == n;
    }
  }

  lemma FlowIsInverse(r: RegionTree)
    requires AllListed(r) && Dual(r.succs, r.preds) && DistinctNodes(r.nodes)
    ensures TopologicalSolver.Inverse(FlowOf(r), SuccessorsOf(r))
  {
    hide Dual, DistinctNodes;
    var g, succs := FlowOf(r), SuccessorsOf(r);
    forall u: nat, v: nat | u < |succs| && v < |succs|
      ensures v in succs[u] <==> u in g.children[v]
    {
      FlowEdges(r, u, v);
    }
  }

  lemma FlowIsAcyclic(r: RegionTree)
    requires AllListed(r) && Dual(r.succs, r.preds) && DistinctNodes(r.nodes) && Acyclic(RegionEdges(r))
    ensures Acyclic(FlowOf(r).Flow())
  {
    var E, F := RegionEdges(r), FlowOf(r).Flow();
    forall i: nat
      ensures !ReachPlus(F, i, i)
    {
      if ReachPlus(F, i, i) {
        var c :| (i, c) in F && Reach(F, c, i);
        FlowStep(r, i, c);
        WalkInRegion(r, c, i);
        assert ReachPlus(E, r.nodes[i], r.nodes[i]);
      }
    }
  }

  lemma FlowStep(r: RegionTree, i: nat, j: nat)
    requires AllListed(r) && Dual(r.succs, r.preds) && DistinctNodes(r.nodes) && (i, j) in FlowOf(r).Flow()
    ensures i < |r.nodes| && j < |r.nodes| && (r.nodes[i], r.nodes[j]) in RegionEdges(r)
  {
    hide Dual, DistinctNodes;
    FlowIsValid(r);
    var ns := FlowOf(r).children[j];
    var k :| 0 <= k < |ns| && ns[k] == i;
    FlowEdges(r, i, j);
  }

  lemma WalkInRegion(r: RegionTree, c: nat, i: nat)
    requires AllListed(r) && Dual(r.succs, r.preds) && DistinctNodes(r.nodes)
    requires c < |r.nodes| && Reach(FlowOf(r).Flow(), c, i)
    ensures i < |r.nodes| && Reach(RegionEdges(r), r.nodes[c], r.nodes[i])
  {
    hide Dual, DistinctNodes, Reach, RegionEdges;
    var E, F := RegionEdges(r), FlowOf(r).Flow();
    var S := iset x: nat | x < |r.nodes| && Reach(E, r.nodes[c], r.nodes[x]);
    forall x, y | x in S && (x, y) in F
      ensures y in S
    {
      FlowStep(r, x, y);
      ReachThen(E, r.nodes[c], r.nodes[x], r.nodes[y]);
    }
    ReachRefl(E, r.nodes[c]);
    ReachClosed(F, S, c, i);
  }

  lemma WalkInFlow(r: RegionTree, n: DFNode)
    requires AllListed(r) && Dual(r.succs, r.preds) && DistinctNodes(r.nodes) && r.nodes[0] == Entry
    requires Reach(RegionEdges(r), Entry, n)
    ensures n in r.nodes && Reach(FlowOf(r).Flow(), 0, IndexOf(r.nodes, n))
  {
    hide Dual, DistinctNodes, Reach;
    var E, F := RegionEdges(r), FlowOf(r).Flow();
    var S := iset x | x in r.nodes && Reach(F, 0, IndexOf(r.nodes, x));
    forall x, y | x in S && (x, y) in E
      ensures y in S
    {
      var i := IndexOf(r.nodes, x);
      assert r.nodes[i] == x;
      var ys := ListOf(r.succs, r.nodes[i]);
      var k :| 0 <= k < |ys| && ys[k] == y;
      FlowEdges(r, i, IndexOf(r.nodes, y));
      ReachThen(F, 0, i, IndexOf(r.nodes, y));
    }
    ReachRefl(F, 0);
    ReachClosed(E, S, Entry, n);
  }

  lemma FlowIsReached(r: RegionTree, i: nat)
    requires AllListed(r) && Dual(r.succs, r.preds) && DistinctNodes(r.nodes) && r.nodes[0] == Entry && i < |r.nodes|
    requires Reach(RegionEdges(r), Entry, r.nodes[i])
    ensures Reach(FlowOf(r).Flow(), 0, i)
  {
    hide Dual, Reach;
    WalkInFlow(r, r.nodes[i]);
    assert IndexOf(r.nodes, r.nodes[i]) == i;
  }

  lemma RegionIsSolvable(cfg: CFG, l: Loop, r: RegionTree)
    requires NaturalLoop(cfg, l) && RegionGraph(cfg, l, r) && Acyclic(RegionEdges(r))
    requires forall n :: n in r.nodes ==> Reach(RegionEdges(r), Entry, n)
    ensures Solvable(r)
  {
    hide NaturalLoop, RegionEdge, EdgeCount, RegionNodes, Reach, Acyclic, Dual;
    NodesStart(cfg, l, r.nodes);
    RegionListed(cfg, l, r);
    FlowIsValid(r);
    FlowIsInverse(r);
    FlowIsAcyclic(r);
    forall i: nat | i < |r.nodes|
      ensures Reach(FlowOf(r).Flow(), 0, i)
    {
      FlowIsReached(r, i);
    }
  }

  ghost predicate AllSolvable(r: RegionTree)
    decreases r
  {
    Solvable(r) && forall k :: 0 <= k < |r.inner| ==> AllSolvable(r.inner[k])
  }

  /** The solvers can run on the regions of all loops of a nest. */
  lemma {:induction false} NestIsSolvable(cfg: CFG, l: Loop, r: RegionTree)
    requires cfg.Valid() && NaturalNest(cfg, l) && ReducibleNest(cfg, l) && RegionHierarchy(cfg, l, r)
    ensures AllSolvable(r)
    decreases l
  {
    hide Reducible, NoUnreachableBlocks, NaturalLoop, RegionGraph, Acyclic, Solvable, Reach;
    EveryRegionIsSolvable(cfg, l, r);
    RegionIsSolvable(cfg, l, r);
    forall k | 0 <= k < |r.inner|
      ensures AllSolvable(r.inner[k])
    {
      NestIsSolvable(cfg, l.inner[k], r.inner[k]);
    }
  }
}

/**
 Building the data-flow graph of a loop or a function, with inner loops collapsed to single nodes
 (lib/Analysis/DFRegionInfo.cpp, `DFRegionInfo::buildLoopRegion`).
 */
module LoopRegion {
  import opened Graphs

  /** A control flow graph with both directions of its edges; parallel edges are allowed. */
  datatype CFG = CFG(entry: nat, succs: seq<seq<nat>>, preds: seq<seq<nat>>) {
    ghost predicate Valid() {
      && entry < |succs| == |preds|
      && (forall u: nat, v: nat :: u < |succs| && v in succs[u] ==> v < |succs|)
      && (forall u: nat, v: nat :: u < |succs| && v in preds[u] ==> v < |succs|)
      && (forall u: nat, v: nat :: u < |succs| && v < |succs| ==> multiset(succs[u])[v] == multiset(preds[v])[u])
    }

    ghost function Flow(): iset<(nat, nat)> {
      iset e: (nat, nat) | e.0 < |succs| && e.1 in succs[e.0]
    }
  }

  /** A loop, or a whole function whose header is its entry block, with the loops nested directly inside. */
  datatype Loop = Loop(header: nat, blocks: seq<nat>, inner: seq<Loop>)

  /** A node of the graph of a region; `Region` stands for an inner loop. */
  datatype DFNode = Entry | Exit | Latch | Block(block: nat) | Region(index: nat)

  ghost predicate Distinct(s: seq<nat>) {
    forall i, j :: 0 <= i < j < |s| ==> s[i] != s[j]
  }

  /** The index of the first of `loops` that contains `b`, or their number. */
  function InnerIndex(loops: seq<Loop>, b: nat): (i: nat)
    ensures i <= |loops| && (i < |loops| ==> b in loops[i].blocks)
    ensures forall k :: 0 <= k < i ==> b !in loops[k].blocks
  {
    if loops == [] || b in loops[0].blocks then 0 else 1 + InnerIndex(loops[1..], b)
  }

  /** The node that stands for a block. */
  function NodeOf(l: Loop, b: nat): DFNode {
    if InnerIndex(l.inner, b) < |l.inner| then Region(InnerIndex(l.inner, b)) else Block(b)
  }

  /** What a natural loop guarantees for itself: edges into it enter through the header, inner loops lie inside. */
  ghost predicate NaturalLoop(cfg: CFG, l: Loop) {
    && l.header in l.blocks && Distinct(l.blocks)
    && (forall b :: b in l.blocks ==> b < |cfg.succs|)
    && (forall b, p :: b in l.blocks && b < |cfg.preds| && b != l.header && p in cfg.preds[b] ==> p in l.blocks)
    && (forall k, b :: 0 <= k < |l.inner| && b in l.inner[k].blocks ==> b in l.blocks && b != l.header)
    && (forall k :: 0 <= k < |l.inner| ==> l.inner[k].blocks != [])
  }

  ghost predicate NaturalNest(cfg: CFG, l: Loop) {
    NaturalLoop(cfg, l) && forall k :: 0 <= k < |l.inner| ==> NaturalNest(cfg, l.inner[k])
  }

  // ---------- The lists of adjacent nodes ----------

  type Adjacent = map<DFNode, seq<DFNode>>

  function ListOf(m: Adjacent, n: DFNode): seq<DFNode> {
    if n in m then m[n] else []
  }

  function Append(m: Adjacent, n: DFNode, more: seq<DFNode>): Adjacent {
    m[n := ListOf(m, n) + more]
  }

  ghost function Multiplicity(m: Adjacent, n: DFNode, x: DFNode): nat {
    multiset(ListOf(m, n))[x]
  }

  class DFRegion {
    var nodes: seq<DFNode>
    var succs: Adjacent
    var preds: Adjacent

    constructor ()
      ensures nodes == [] && succs == map[] && preds == map[]
    {
      nodes, succs, preds := [], map[], map[];
    }

    /** `addNode`: the exit node stays at the end of the list once it is there. */
    method AddNode(n: DFNode)
      modifies this
      ensures succs == old(succs) && preds == old(preds)
      ensures nodes == if old(nodes) != [] && old(nodes)[|old(nodes)| - 1] == Exit && n != Exit
                       then old(nodes)[..|old(nodes)| - 1] + [n, Exit] else old(nodes) + [n]
    {
      if nodes != [] && nodes[|nodes| - 1] == Exit && n != Exit {
        nodes := nodes[..|nodes| - 1] + [n, Exit];
      } else {
        nodes := nodes + [n];
      }
    }

    method AddSuccessor(n: DFNode, s: DFNode)
      modifies this
      ensures succs == Append(old(succs), n, [s]) && preds == old(preds) && nodes == old(nodes)
    {
      succs := Append(succs, n, [s]);
    }

    method AddPredecessor(n: DFNode, p: DFNode)
      modifies this
      ensures preds == Append(old(preds), n, [p]) && succs == old(succs) && nodes == old(nodes)
    {
      preds := Append(preds, n, [p]);
    }
  }

  // ---------- What one block adds ----------

  /** Where an edge to the block `s` leads: back edges go to the latch, edges out of the loop to the exit. */
  function TargetOf(l: Loop, s: nat): DFNode {
    if s !in l.blocks then Exit else if s == l.header then Latch else NodeOf(l, s)
  }

  /** The successors the edges to `targets` add to node `n`; edges inside an inner loop are ignored. */
  ghost function SuccsOf(l: Loop, n: DFNode, targets: seq<nat>): seq<DFNode> {
    if targets == [] then []
    else
      var k := |targets| - 1;
      var before := SuccsOf(l, n, targets[..k]);
      if TargetOf(l, targets[k]) == n then before else before + [TargetOf(l, targets[k])]
  }

  ghost function AddedSuccs(cfg: CFG, l: Loop, b: nat): seq<DFNode>
    requires b < |cfg.succs|
  {
    if cfg.succs[b] == [] then [Exit] else SuccsOf(l, NodeOf(l, b), cfg.succs[b])
  }

  ghost function PredsOf(l: Loop, n: DFNode, sources: seq<nat>): seq<DFNode> {
    if sources == [] then []
    else
      var k := |sources| - 1;
      var before := PredsOf(l, n, sources[..k]);
      if NodeOf(l, sources[k]) == n then before else before + [NodeOf(l, sources[k])]
  }

  ghost function AddedPreds(cfg: CFG, l: Loop, b: nat): seq<DFNode>
    requires b < |cfg.preds|
  {
    if b == l.header then [] else PredsOf(l, NodeOf(l, b), cfg.preds[b])
  }

  ghost predicate InCFG(cfg: CFG, bs: seq<nat>) {
    |cfg.succs| == |cfg.preds| && forall i :: 0 <= i < |bs| ==> bs[i] < |cfg.succs|
  }

  /** How often the blocks of `order` add `to` to the successors of `from`. */
  ghost function SuccTotal(cfg: CFG, l: Loop, order: seq<nat>, from: DFNode, to: DFNode): nat
    requires InCFG(cfg, order)
  {
    if order == [] then 0
    else
      var b := order[|order| - 1];
      SuccTotal(cfg, l, order[..|order| - 1], from, to)
      + (if NodeOf(l, b) == from then multiset(AddedSuccs(cfg, l, b))[to] else 0)
  }

  /** How often the blocks of `order` add `from` to the predecessors of the node `to`. */
  ghost function PredTotal(cfg: CFG, l: Loop, order: seq<nat>, from: DFNode, to: DFNode): nat
    requires InCFG(cfg, order)
  {
    if order == [] then 0
    else
      var b := order[|order| - 1];
      PredTotal(cfg, l, order[..|order| - 1], from, to)
      + (if NodeOf(l, b) == to then multiset(AddedPreds(cfg, l, b))[from] else 0)
  }

  // ---------- Counting the edges between two nodes from both sides ----------

  /** The number of parallel edges from `u` to `v` if it counts for the nodes `from` and `to`. */
  ghost function Weight(cfg: CFG, l: Loop, u: nat, v: nat, from: DFNode, to: DFNode): nat
    requires u < |cfg.succs|
  {
    if NodeOf(l, u) == from && NodeOf(l, v) == to && v != l.header && from != to then multiset(cfg.succs[u])[v] else 0
  }

  ghost function RowTotal(cfg: CFG, l: Loop, u: nat, vs: seq<nat>, from: DFNode, to: DFNode): nat
    requires u < |cfg.succs|
  {
    if vs == [] then 0
    else RowTotal(cfg, l, u, vs[..|vs| - 1], from, to) + Weight(cfg, l, u, vs[|vs| - 1], from, to)
  }

  ghost function ColumnTotal(cfg: CFG, l: Loop, us: seq<nat>, v: nat, from: DFNode, to: DFNode): nat
    requires InCFG(cfg, us)
  {
    if us == [] then 0
    else ColumnTotal(cfg, l, us[..|us| - 1], v, from, to) + Weight(cfg, l, us[|us| - 1], v, from, to)
  }

  ghost function TotalByRows(cfg: CFG, l: Loop, us: seq<nat>, vs: seq<nat>, from: DFNode, to: DFNode): nat
    requires InCFG(cfg, us)
  {
    if us == [] then 0
    else TotalByRows(cfg, l, us[..|us| - 1], vs, from, to) + RowTotal(cfg, l, us[|us| - 1], vs, from, to)
  }

  ghost function TotalByColumns(cfg: CFG, l: Loop, us: seq<nat>, vs: seq<nat>, from: DFNode, to: DFNode): nat
    requires InCFG(cfg, us)
  {
    if vs == [] then 0
    else TotalByColumns(cfg, l, us, vs[..|vs| - 1], from, to) + ColumnTotal(cfg, l, us, vs[|vs| - 1], from, to)
  }

  lemma {:induction false} RowsAreColumns(cfg: CFG, l: Loop, us: seq<nat>, vs: seq<nat>, from: DFNode, to: DFNode)
    requires InCFG(cfg, us)
    ensures TotalByRows(cfg, l, us, vs, from, to) == TotalByColumns(cfg, l, us, vs, from, to)
    decreases |us| + |vs|
  {
    hide Weight;
    if us == [] {
      if vs != [] {
        RowsAreColumns(cfg, l, us, vs[..|vs| - 1], from, to);
      }
    } else if vs == [] {
      RowsAreColumns(cfg, l, us[..|us| - 1], vs, from, to);
    } else {
      RowsAreColumns(cfg, l, us[..|us| - 1], vs, from, to);
      RowsAreColumns(cfg, l, us, vs[..|vs| - 1], from, to);
      RowsAreColumns(cfg, l, us[..|us| - 1], vs[..|vs| - 1], from, to);
    }
  }

  /** The successors added by one block, counted through the blocks its edges lead to. */
  lemma {:induction false} RowCounts(cfg: CFG, l: Loop, u: nat, targets: seq<nat>, vs: seq<nat>, to: DFNode)
    requires Distinct(vs) && forall v :: v in vs <==> v in l.blocks
    requires to.Block? || to.Region?
    ensures multiset(SuccsOf(l, NodeOf(l, u), targets))[to] == TargetCount(l, u, targets, vs, to)
  {
    if targets == [] {
      NoTargets(l, u, vs, to);
    } else {
      var k := |targets| - 1;
      RowCounts(cfg, l, u, targets[..k], vs, to);
      OneMoreTarget(l, u, targets, vs, to);
    }
  }

  ghost function TargetCount(l: Loop, u: nat, targets: seq<nat>, vs: seq<nat>, to: DFNode): nat {
    if vs == [] then 0
    else
      var v := vs[|vs| - 1];
      TargetCount(l, u, targets, vs[..|vs| - 1], to)
      + (if NodeOf(l, v) == to && v != l.header && NodeOf(l, u) != to then multiset(targets)[v] else 0)
  }

  lemma {:induction false} NoTargets(l: Loop, u: nat, vs: seq<nat>, to: DFNode)
    ensures TargetCount(l, u, [], vs, to) == 0
  {
    if vs != [] {
      NoTargets(l, u, vs[..|vs| - 1], to);
    }
  }

  lemma {:induction false} OneMoreTarget(l: Loop, u: nat, targets: seq<nat>, vs: seq<nat>, to: DFNode)
    requires targets != [] && Distinct(vs)
    ensures var k := |targets| - 1;
            TargetCount(l, u, targets, vs, to) == TargetCount(l, u, targets[..k], vs, to)
              + (if targets[k] in vs && NodeOf(l, targets[k]) == to && targets[k] != l.header && NodeOf(l, u) != to
                 then 1 else 0)
  {
    var k := |targets| - 1;
    assert targets == targets[..k] + [targets[k]];
    if vs != [] {
      OneMoreTarget(l, u, targets, vs[..|vs| - 1], to);
      assert vs == vs[..|vs| - 1] + [vs[|vs| - 1]];
    }
  }

  ghost predicate Covers(order: seq<nat>, blocks: seq<nat>) {
    Distinct(order) && forall b :: b in order <==> b in blocks
  }

  lemma {:induction false} RowIsTargetCount(cfg: CFG, l: Loop, u: nat, vs: seq<nat>, from: DFNode, to: DFNode)
    requires u < |cfg.succs|
    ensures RowTotal(cfg, l, u, vs, from, to) ==
              if NodeOf(l, u) == from then TargetCount(l, u, cfg.succs[u], vs, to) else 0
  {
    if vs != [] {
      RowIsTargetCount(cfg, l, u, vs[..|vs| - 1], from, to);
    }
  }

  lemma {:induction false} SuccTotalByRows(cfg: CFG, l: Loop, us: seq<nat>, vs: seq<nat>, from: DFNode, to: DFNode)
    requires InCFG(cfg, us) && Covers(vs, l.blocks) && (to.Block? || to.Region?)
    ensures SuccTotal(cfg, l, us, from, to) == TotalByRows(cfg, l, us, vs, from, to)
  {
    if us != [] {
      var u := us[|us| - 1];
      SuccTotalByRows(cfg, l, us[..|us| - 1], vs, from, to);
      RowIsTargetCount(cfg, l, u, vs, from, to);
      RowCounts(cfg, l, u, cfg.succs[u], vs, to);
      NoTargets(l, u, vs, to);
    }
  }

  /** The predecessors added to one block, counted through the blocks its edges come from. */
  ghost function SourceCount(l: Loop, v: nat, sources: seq<nat>, us: seq<nat>, from: DFNode): nat {
    if us == [] then 0
    else
      var u := us[|us| - 1];
      SourceCount(l, v, sources, us[..|us| - 1], from)
      + (if NodeOf(l, u) == from && NodeOf(l, v) != from then multiset(sources)[u] else 0)
  }

  lemma {:induction false} NoSources(l: Loop, v: nat, us: seq<nat>, from: DFNode)
    ensures SourceCount(l, v, [], us, from) == 0
  {
    if us != [] {
      NoSources(l, v, us[..|us| - 1], from);
    }
  }

  lemma {:induction false} OneMoreSource(l: Loop, v: nat, sources: seq<nat>, us: seq<nat>, from: DFNode)
    requires sources != [] && Distinct(us)
    ensures var k := |sources| - 1;
            SourceCount(l, v, sources, us, from) == SourceCount(l, v, sources[..k], us, from)
              + (if sources[k] in us && NodeOf(l, sources[k]) == from && NodeOf(l, v) != from then 1 else 0)
  {
    var k := |sources| - 1;
    assert sources == sources[..k] + [sources[k]];
    if us != [] {
      OneMoreSource(l, v, sources, us[..|us| - 1], from);
      assert us == us[..|us| - 1] + [us[|us| - 1]];
    }
  }

  lemma {:induction false} ColumnCounts(l: Loop, v: nat, sources: seq<nat>, us: seq<nat>, from: DFNode)
    requires Distinct(us) && forall u :: u in sources ==> u in us
    ensures multiset(PredsOf(l, NodeOf(l, v), sources))[from] == SourceCount(l, v, sources, us, from)
  {
    if sources == [] {
      NoSources(l, v, us, from);
    } else {
      var k := |sources| - 1;
      assert forall u :: u in sources[..k] ==> u in sources;
      ColumnCounts(l, v, sources[..k], us, from);
      OneMoreSource(l, v, sources, us, from);
      assert sources[k] in sources;
    }
  }

  lemma {:induction false} ColumnIsSourceCount(cfg: CFG, l: Loop, us: seq<nat>, v: nat, from: DFNode, to: DFNode)
    requires cfg.Valid() && InCFG(cfg, us) && v < |cfg.succs|
    ensures ColumnTotal(cfg, l, us, v, from, to) ==
              if NodeOf(l, v) == to && v != l.header then SourceCount(l, v, cfg.preds[v], us, from) else 0
  {
    if us != [] {
      ColumnIsSourceCount(cfg, l, us[..|us| - 1], v, from, to);
      assert us[|us| - 1] < |cfg.succs|;
    }
  }

  lemma SourcesInside(cfg: CFG, l: Loop, v: nat)
    requires cfg.Valid() && NaturalLoop(cfg, l) && v in l.blocks
    ensures v < |cfg.preds| && (v != l.header ==> forall p :: p in cfg.preds[v] ==> p in l.blocks)
  {
  }

  lemma {:induction false} PredTotalByColumns(cfg: CFG, l: Loop, us: seq<nat>, vs: seq<nat>, from: DFNode, to: DFNode)
    requires cfg.Valid() && NaturalLoop(cfg, l) && InCFG(cfg, us) && InCFG(cfg, vs) && Covers(us, l.blocks)
    requires forall v :: v in vs ==> v in l.blocks
    ensures PredTotal(cfg, l, vs, from, to) == TotalByColumns(cfg, l, us, vs, from, to)
  {
    hide NodeOf, NaturalLoop, ColumnTotal;
    if vs != [] {
      var v := vs[|vs| - 1];
      assert v in vs;
      SourcesInside(cfg, l, v);
      PredTotalByColumns(cfg, l, us, vs[..|vs| - 1], from, to);
      ColumnIsSourceCount(cfg, l, us, v, from, to);
      if v != l.header {
        ColumnCounts(l, v, cfg.preds[v], us, from);
      }
    }
  }

  /** Both directions of the edges between blocks add up to the same multiplicities. */
  lemma TotalsAgree(cfg: CFG, l: Loop, order: seq<nat>, from: DFNode, to: DFNode)
    requires cfg.Valid() && NaturalLoop(cfg, l) && InCFG(cfg, order) && Covers(order, l.blocks)
    requires to.Block? || to.Region?
    ensures SuccTotal(cfg, l, order, from, to) == PredTotal(cfg, l, order, from, to)
  {
    SuccTotalByRows(cfg, l, order, order, from, to);
    PredTotalByColumns(cfg, l, order, order, from, to);
    RowsAreColumns(cfg, l, order, order, from, to);
  }

  // ---------- Building the graph ----------

  ghost predicate IsReal(n: DFNode) {
    n.Block? || n.Region?
  }

  ghost function EntryEdge(l: Loop, from: DFNode, to: DFNode): nat {
    if from == Entry && to == NodeOf(l, l.header) then 1 else 0
  }

  /** The lists once the blocks of `done` have been connected. */
  ghost predicate Connected(cfg: CFG, l: Loop, done: seq<nat>, succs: Adjacent, preds: Adjacent)
    requires InCFG(cfg, done)
  {
    && (forall a, b :: Multiplicity(succs, a, b) == EntryEdge(l, a, b) + SuccTotal(cfg, l, done, a, b))
    && (forall a, b :: Multiplicity(preds, b, a) == EntryEdge(l, a, b) +
           (if IsReal(b) then PredTotal(cfg, l, done, a, b) else SuccTotal(cfg, l, done, a, b)))
  }

  /** `after` is `before` with `more` appended to the list of `n`. */
  ghost predicate Appended(before: Adjacent, after: Adjacent, n: DFNode, more: seq<DFNode>) {
    forall x :: ListOf(after, x) == if x == n then ListOf(before, x) + more else ListOf(before, x)
  }

  /** `after` is `before` with `n` added to the predecessors of each exit and latch node among `added`. */
  ghost predicate PredsPaired(before: Adjacent, after: Adjacent, n: DFNode, added: seq<DFNode>) {
    forall x, y :: Multiplicity(after, y, x) == Multiplicity(before, y, x) +
                     (if x == n && !IsReal(y) then multiset(added)[y] else 0)
  }

  lemma AppendedMore(m0: Adjacent, m1: Adjacent, n: DFNode, added: seq<DFNode>, t: DFNode)
    requires Appended(m0, m1, n, added)
    ensures Appended(m0, Append(m1, n, [t]), n, added + [t])
  {
    assert ListOf(m0, n) + added + [t] == ListOf(m0, n) + (added + [t]);
  }

  lemma OneAppended(m: Adjacent, n: DFNode, t: DFNode, x: DFNode, y: DFNode)
    ensures Multiplicity(Append(m, n, [t]), x, y) == Multiplicity(m, x, y) + (if x == n && y == t then 1 else 0)
  {
  }

  lemma OneMore(added: seq<DFNode>, t: DFNode, y: DFNode)
    ensures multiset(added + [t])[y] == multiset(added)[y] + (if y == t then 1 else 0)
  {
  }

  lemma PairedMore(m0: Adjacent, m1: Adjacent, n: DFNode, added: seq<DFNode>, t: DFNode)
    requires PredsPaired(m0, m1, n, added)
    ensures PredsPaired(m0, if IsReal(t) then m1 else Append(m1, t, [n]), n, added + [t])
  {
    hide Multiplicity, Append;
    forall x, y
      ensures Multiplicity(if IsReal(t) then m1 else Append(m1, t, [n]), y, x) == Multiplicity(m0, y, x) +
                (if x == n && !IsReal(y) then multiset(added + [t])[y] else 0)
    {
      OneMore(added, t, y);
      OneAppended(m1, t, n, y, x);
    }
  }

  /** The successor part of the loop body for the block `b`. */
  method ConnectSuccessors(cfg: CFG, l: Loop, blocks: map<nat, DFNode>, b: nat, region: DFRegion)
    requires b in blocks && b < |cfg.succs| && BlockMap(l, blocks)
    modifies region
    ensures Appended(old(region.succs), region.succs, NodeOf(l, b), AddedSuccs(cfg, l, b))
    ensures PredsPaired(old(region.preds), region.preds, NodeOf(l, b), AddedSuccs(cfg, l, b))
    ensures region.nodes == WithLatch(old(region.nodes), AddedSuccs(cfg, l, b))
  {
    hide Appended, PredsPaired, Append, NodeOf, WithLatch;
    var n := blocks[b];
    RealNode(l, b);
    NoLatchYet(region.nodes);
    ghost var succs0, preds0, nodes0 := region.succs, region.preds, region.nodes;
    NothingAppended(succs0, preds0, n);
    if cfg.succs[b] == [] {
      region.AddSuccessor(n, Exit);
      region.AddPredecessor(Exit, n);
      AppendedMore(succs0, succs0, n, [], Exit);
      PairedMore(preds0, preds0, n, [], Exit);
      LatchMore(region.nodes, [], Exit);
      assert [] + [Exit] == [Exit];
    } else {
      var targets := cfg.succs[b];
      for j := 0 to |targets|
        invariant Appended(succs0, region.succs, n, SuccsOf(l, n, targets[..j]))
        invariant PredsPaired(preds0, region.preds, n, SuccsOf(l, n, targets[..j]))
        invariant region.nodes == WithLatch(nodes0, SuccsOf(l, n, targets[..j]))
      {
        assert targets[..j + 1][..j] == targets[..j];
        var s := targets[j];
        RealNode(l, s);
        AppendedMore(succs0, region.succs, n, SuccsOf(l, n, targets[..j]), TargetOf(l, s));
        PairedMore(preds0, region.preds, n, SuccsOf(l, n, targets[..j]), TargetOf(l, s));
        LatchMore(nodes0, SuccsOf(l, n, targets[..j]), TargetOf(l, s));
        if s !in blocks {
          region.AddSuccessor(n, Exit);
          region.AddPredecessor(Exit, n);
        } else if s == l.header {
          if Latch !in region.nodes {
            region.AddNode(Latch);
          }
          region.AddSuccessor(n, Latch);
          region.AddPredecessor(Latch, n);
        } else if blocks[s] != n {
          region.AddSuccessor(n, blocks[s]);
        }
      }
      assert targets[..|targets|] == targets;
    }
  }

  ghost predicate BlockMap(l: Loop, blocks: map<nat, DFNode>) {
    && (forall s :: s in blocks <==> s in l.blocks)
    && (forall s :: s in blocks ==> blocks[s] == NodeOf(l, s))
  }

  /** The node list with a latch node, created when the first edge to it is met. */
  ghost function WithLatch(nodes: seq<DFNode>, added: seq<DFNode>): seq<DFNode> {
    if Latch in nodes || Latch !in added then nodes
    else if nodes != [] && nodes[|nodes| - 1] == Exit then nodes[..|nodes| - 1] + [Latch, Exit]
    else nodes + [Latch]
  }

  lemma NoLatchYet(nodes: seq<DFNode>)
    ensures WithLatch(nodes, []) == nodes
  {
  }

  lemma LatchMore(nodes: seq<DFNode>, added: seq<DFNode>, t: DFNode)
    ensures var now := WithLatch(nodes, added);
            WithLatch(nodes, added + [t]) ==
              if t != Latch || Latch in now then now
              else if now != [] && now[|now| - 1] == Exit then now[..|now| - 1] + [Latch, Exit] else now + [Latch]
  {
  }

  lemma NothingAppended(succs: Adjacent, preds: Adjacent, n: DFNode)
    ensures Appended(succs, succs, n, []) && PredsPaired(preds, preds, n, [])
  {
  }

  /** The predecessor part of the loop body for the block `b`. */
  method ConnectPredecessors(cfg: CFG, l: Loop, blocks: map<nat, DFNode>, b: nat, region: DFRegion)
    requires b in blocks && b < |cfg.succs| == |cfg.preds| && BlockMap(l, blocks) && NaturalLoop(cfg, l)
    modifies region
    ensures region.succs == old(region.succs) && region.nodes == old(region.nodes)
    ensures Appended(old(region.preds), region.preds, NodeOf(l, b), AddedPreds(cfg, l, b))
  {
    hide Appended, PredsPaired, Append, NodeOf;
    var n := blocks[b];
    ghost var preds0 := region.preds;
    NothingAppended(preds0, preds0, n);
    if b != l.header {
      var sources := cfg.preds[b];
      for k := 0 to |sources|
        invariant region.succs == old(region.succs) && region.nodes == old(region.nodes)
        invariant Appended(preds0, region.preds, n, PredsOf(l, n, sources[..k]))
      {
        assert sources[..k + 1][..k] == sources[..k];
        var p := sources[k];
        assert p in sources && p in blocks;
        AppendedMore(preds0, region.preds, n, PredsOf(l, n, sources[..k]), blocks[p]);
        if blocks[p] != n {
          region.AddPredecessor(n, blocks[p]);
        }
      }
      assert sources[..|sources|] == sources;
    }
  }

  lemma AppendedMultiplicity(m0: Adjacent, m1: Adjacent, n: DFNode, more: seq<DFNode>, x: DFNode, y: DFNode)
    requires Appended(m0, m1, n, more)
    ensures Multiplicity(m1, x, y) == Multiplicity(m0, x, y) + (if x == n then multiset(more)[y] else 0)
  {
  }

  lemma ConnectedStep(cfg: CFG, l: Loop, done: seq<nat>, b: nat, succs0: Adjacent, preds0: Adjacent,
                      preds1: Adjacent, succs: Adjacent, preds: Adjacent)
    requires InCFG(cfg, done) && b < |cfg.succs| && Connected(cfg, l, done, succs0, preds0)
    requires Appended(succs0, succs, NodeOf(l, b), AddedSuccs(cfg, l, b))
    requires PredsPaired(preds0, preds1, NodeOf(l, b), AddedSuccs(cfg, l, b))
    requires Appended(preds1, preds, NodeOf(l, b), AddedPreds(cfg, l, b))
    ensures InCFG(cfg, done + [b]) && Connected(cfg, l, done + [b], succs, preds)
  {
    hide Multiplicity, Appended, AddedSuccs, AddedPreds, NodeOf;
    assert (done + [b])[..|done|] == done;
    forall x, y
      ensures Multiplicity(succs, x, y) == EntryEdge(l, x, y) + SuccTotal(cfg, l, done + [b], x, y)
      ensures Multiplicity(preds, y, x) == EntryEdge(l, x, y) +
                (if IsReal(y) then PredTotal(cfg, l, done + [b], x, y) else SuccTotal(cfg, l, done + [b], x, y))
    {
      AppendedMultiplicity(succs0, succs, NodeOf(l, b), AddedSuccs(cfg, l, b), x, y);
      AppendedMultiplicity(preds1, preds, NodeOf(l, b), AddedPreds(cfg, l, b), y, x);
      RealNode(l, b);
    }
  }

  lemma RealNode(l: Loop, b: nat)
    ensures IsReal(NodeOf(l, b))
  {
  }

  // ---------- Which edges the graph has ----------

  /** Control leads from a block of `a` to `b`. */
  ghost predicate LeadsBy(cfg: CFG, l: Loop, u: nat, b: DFNode) {
    && u in l.blocks && u < |cfg.succs|
    && (if cfg.succs[u] == [] then b == Exit else b != NodeOf(l, u) && exists s :: s in cfg.succs[u] && TargetOf(l, s) == b)
  }

  ghost predicate Leads(cfg: CFG, l: Loop, a: DFNode, b: DFNode) {
    exists u :: LeadsBy(cfg, l, u, b) && NodeOf(l, u) == a
  }

  /** The edges of the graph of a loop. */
  ghost predicate RegionEdge(cfg: CFG, l: Loop, a: DFNode, b: DFNode) {
    || (a == Entry && b == NodeOf(l, l.header))
    || Leads(cfg, l, a, b)
    || (a == Entry && b == Exit && forall x :: !Leads(cfg, l, x, Exit))
    || (a.Region? && a.index < |l.inner| && b == Exit && forall y :: !Leads(cfg, l, a, y))
  }

  lemma {:induction false} SuccsOfMembers(l: Loop, n: DFNode, targets: seq<nat>, b: DFNode)
    ensures b in SuccsOf(l, n, targets) <==> b != n && exists s :: s in targets && TargetOf(l, s) == b
  {
    if targets != [] {
      var k := |targets| - 1;
      SuccsOfMembers(l, n, targets[..k], b);
      assert targets == targets[..k] + [targets[k]];
    }
  }

  lemma AddedMembers(cfg: CFG, l: Loop, u: nat, b: DFNode)
    requires u in l.blocks && u < |cfg.succs|
    ensures b in AddedSuccs(cfg, l, u) <==> LeadsBy(cfg, l, u, b)
  {
    SuccsOfMembers(l, NodeOf(l, u), cfg.succs[u], b);
  }

  lemma {:induction false} TotalPositive(cfg: CFG, l: Loop, order: seq<nat>, a: DFNode, b: DFNode)
    requires InCFG(cfg, order)
    ensures SuccTotal(cfg, l, order, a, b) > 0 <==>
              exists u :: u in order && u < |cfg.succs| && NodeOf(l, u) == a && b in AddedSuccs(cfg, l, u)
  {
    if order != [] {
      var k := |order| - 1;
      TotalPositive(cfg, l, order[..k], a, b);
      assert order == order[..k] + [order[k]];
    }
  }

  lemma TotalLeads(cfg: CFG, l: Loop, order: seq<nat>, a: DFNode, b: DFNode)
    requires InCFG(cfg, order) && Covers(order, l.blocks)
    ensures SuccTotal(cfg, l, order, a, b) > 0 <==> Leads(cfg, l, a, b)
  {
    TotalPositive(cfg, l, order, a, b);
    forall u | u in order && u < |cfg.succs|
      ensures b in AddedSuccs(cfg, l, u) <==> LeadsBy(cfg, l, u, b)
    {
      AddedMembers(cfg, l, u, b);
    }
    if Leads(cfg, l, a, b) {
      var u :| LeadsBy(cfg, l, u, b) && NodeOf(l, u) == a;
      assert u in order;
    }
  }

  /** Successor and predecessor lists tell the same edges with the same multiplicities. */
  ghost predicate Dual(succs: Adjacent, preds: Adjacent) {
    forall a, b :: Multiplicity(succs, a, b) == Multiplicity(preds, b, a)
  }

  lemma ConnectedIsDual(cfg: CFG, l: Loop, order: seq<nat>, succs: Adjacent, preds: Adjacent)
    requires cfg.Valid() && NaturalLoop(cfg, l) && InCFG(cfg, order) && Covers(order, l.blocks)
    requires Connected(cfg, l, order, succs, preds)
    ensures Dual(succs, preds)
    ensures forall a, b :: Multiplicity(succs, a, b) > 0 <==>
                             (a == Entry && b == NodeOf(l, l.header)) || Leads(cfg, l, a, b)
  {
    hide Multiplicity, Leads, NodeOf;
    forall a, b
      ensures Multiplicity(succs, a, b) == Multiplicity(preds, b, a)
      ensures Multiplicity(succs, a, b) > 0 <==> (a == Entry && b == NodeOf(l, l.header)) || Leads(cfg, l, a, b)
    {
      TotalLeads(cfg, l, order, a, b);
      if IsReal(b) {
        TotalsAgree(cfg, l, order, a, b);
      }
    }
  }

  lemma DualPair(succs: Adjacent, preds: Adjacent, a: DFNode, b: DFNode)
    requires Dual(succs, preds)
    ensures Dual(Append(succs, a, [b]), Append(preds, b, [a]))
  {
    hide Multiplicity, Append;
    forall x, y
      ensures Multiplicity(Append(succs, a, [b]), x, y) == Multiplicity(Append(preds, b, [a]), y, x)
    {
      OneAppended(succs, a, b, x, y);
      OneAppended(preds, b, a, y, x);
    }
  }

  ghost predicate DistinctNodes(nodes: seq<DFNode>) {
    forall i, j :: 0 <= i < j < |nodes| ==> nodes[i] != nodes[j]
  }

  /** The node list of the graph of a loop. */
  ghost predicate RegionNodes(cfg: CFG, l: Loop, nodes: seq<DFNode>) {
    && nodes != [] && nodes[0] == Entry && nodes[|nodes| - 1] == Exit && DistinctNodes(nodes)
    && forall n :: n in nodes <==>
         match n
         case Entry => true
         case Exit => true
         case Latch => exists a :: Leads(cfg, l, a, Latch)
         case Block(b) => b in l.blocks && NodeOf(l, b) == n
         case Region(k) => k < |l.inner|
  }

  /** A region and the regions of the loops inside it. */
  datatype RegionTree = RegionTree(nodes: seq<DFNode>, succs: Adjacent, preds: Adjacent, inner: seq<RegionTree>)

  /** The number of edges to blocks that `to` stands for. */
  ghost function EdgesTo(l: Loop, targets: seq<nat>, to: DFNode): nat {
    |set j | 0 <= j < |targets| && TargetOf(l, targets[j]) == to|
  }

  /** The number of edges from the blocks `us` that lead from `from` to `to`; edges inside a node do not count. */
  ghost function FlowCount(cfg: CFG, l: Loop, us: seq<nat>, from: DFNode, to: DFNode): nat
    requires InCFG(cfg, us)
  {
    if us == [] then 0
    else
      var u := us[|us| - 1];
      FlowCount(cfg, l, us[..|us| - 1], from, to)
      + (if NodeOf(l, u) != from then 0
         else if cfg.succs[u] == [] then if to == Exit then 1 else 0
         else if to == from then 0
         else EdgesTo(l, cfg.succs[u], to))
  }

  /** The edges added so that the exit can be reached. */
  ghost function ClosingEdge(cfg: CFG, l: Loop, k: nat, a: DFNode, b: DFNode): nat {
    (if a == Entry && b == Exit && forall x :: !Leads(cfg, l, x, Exit) then 1 else 0)
    + (if a.Region? && a.index < k && b == Exit && forall y :: !Leads(cfg, l, a, y) then 1 else 0)
  }

  /** How often the edge from `a` to `b` occurs. */
  ghost function EdgeCount(cfg: CFG, l: Loop, a: DFNode, b: DFNode): nat
    requires InCFG(cfg, l.blocks)
  {
    EntryEdge(l, a, b) + FlowCount(cfg, l, l.blocks, a, b) + ClosingEdge(cfg, l, |l.inner|, a, b)
  }

  /** The graph of one loop. */
  ghost predicate RegionGraph(cfg: CFG, l: Loop, r: RegionTree) {
    && RegionNodes(cfg, l, r.nodes)
    && Dual(r.succs, r.preds)
    && (forall a, b :: b in ListOf(r.succs, a) <==> RegionEdge(cfg, l, a, b))
    && InCFG(cfg, l.blocks)
    && forall a, b :: Multiplicity(r.succs, a, b) == EdgeCount(cfg, l, a, b)
  }

  /** The graphs of a loop and of all loops nested in it. */
  ghost predicate RegionHierarchy(cfg: CFG, l: Loop, r: RegionTree)
    decreases l
  {
    && RegionGraph(cfg, l, r) && |r.inner| == |l.inner|
    && forall k :: 0 <= k < |l.inner| ==> RegionHierarchy(cfg, l.inner[k], r.inner[k])
  }

  // ---------- How often edges occur ----------

  lemma EdgesToLast(l: Loop, targets: seq<nat>, to: DFNode)
    requires targets != []
    ensures var k := |targets| - 1;
            EdgesTo(l, targets, to) == EdgesTo(l, targets[..k], to) + (if TargetOf(l, targets[k]) == to then 1 else 0)
  {
    hide TargetOf;
    var k := |targets| - 1;
    var hits := set j | 0 <= j < |targets| && TargetOf(l, targets[j]) == to;
    var before := set j | 0 <= j < |targets[..k]| && TargetOf(l, targets[..k][j]) == to;
    assert hits == if TargetOf(l, targets[k]) == to then before + {k} else before;
  }

  lemma {:induction false} SuccsOfCount(l: Loop, n: DFNode, targets: seq<nat>, to: DFNode)
    ensures multiset(SuccsOf(l, n, targets))[to] == if to == n then 0 else EdgesTo(l, targets, to)
  {
    var hits := set j | 0 <= j < |targets| && TargetOf(l, targets[j]) == to;
    if targets == [] {
      assert hits == {};
    } else {
      hide TargetOf, EdgesTo;
      SuccsOfCount(l, n, targets[..|targets| - 1], to);
      EdgesToLast(l, targets, to);
    }
  }

  lemma {:induction false} TotalIsFlowCount(cfg: CFG, l: Loop, us: seq<nat>, from: DFNode, to: DFNode)
    requires InCFG(cfg, us)
    ensures SuccTotal(cfg, l, us, from, to) == FlowCount(cfg, l, us, from, to)
  {
    hide EdgesTo, NodeOf;
    if us != [] {
      var u := us[|us| - 1];
      TotalIsFlowCount(cfg, l, us[..|us| - 1], from, to);
      SuccsOfCount(l, NodeOf(l, u), cfg.succs[u], to);
    }
  }

  /** How often the block `u` adds `to` to the successors of `from`. */
  ghost function AddedBy(cfg: CFG, l: Loop, u: nat, from: DFNode, to: DFNode): nat
    requires u < |cfg.succs|
  {
    if NodeOf(l, u) == from then multiset(AddedSuccs(cfg, l, u))[to] else 0
  }

  lemma TotalSnoc(cfg: CFG, l: Loop, us: seq<nat>, u: nat, from: DFNode, to: DFNode)
    requires InCFG(cfg, us) && u < |cfg.succs|
    ensures InCFG(cfg, us + [u])
    ensures SuccTotal(cfg, l, us + [u], from, to) == SuccTotal(cfg, l, us, from, to) + AddedBy(cfg, l, u, from, to)
  {
    assert (us + [u])[..|us|] == us;
  }

  lemma {:induction false} OneBlockOut(cfg: CFG, l: Loop, us: seq<nat>, i: nat, from: DFNode, to: DFNode)
    requires InCFG(cfg, us) && i < |us|
    ensures InCFG(cfg, us[..i] + us[i + 1..])
    ensures SuccTotal(cfg, l, us, from, to)
         == SuccTotal(cfg, l, us[..i] + us[i + 1..], from, to) + AddedBy(cfg, l, us[i], from, to)
  {
    hide SuccTotal, AddedBy;
    var k := |us| - 1;
    assert us == us[..k] + [us[k]];
    TotalSnoc(cfg, l, us[..k], us[k], from, to);
    if i == k {
      assert us[..i] + us[i + 1..] == us[..k];
    } else {
      OneBlockOut(cfg, l, us[..k], i, from, to);
      var rest := us[..k][..i] + us[..k][i + 1..];
      assert us[..i] + us[i + 1..] == rest + [us[k]];
      TotalSnoc(cfg, l, rest, us[k], from, to);
    }
  }

  lemma NothingCovered(vs: seq<nat>)
    requires forall b :: b !in vs
    ensures vs == []
  {
    if vs != [] {
      SomeMember(vs);
    }
  }

  lemma SomeMember(vs: seq<nat>)
    requires vs != []
    ensures exists b :: b in vs
  {
    assert vs[0] in vs;
  }

  /** The order in which the blocks are connected does not matter. */
  lemma {:induction false} AnyOrder(cfg: CFG, l: Loop, us: seq<nat>, vs: seq<nat>, from: DFNode, to: DFNode)
    requires InCFG(cfg, us) && InCFG(cfg, vs) && Distinct(us) && Distinct(vs) && forall b :: b in us <==> b in vs
    ensures SuccTotal(cfg, l, us, from, to) == SuccTotal(cfg, l, vs, from, to)
  {
    hide SuccTotal, AddedBy;
    if us == [] {
      NothingCovered(vs);
    } else {
      var k := |us| - 1;
      assert us == us[..k] + [us[k]];
      TotalSnoc(cfg, l, us[..k], us[k], from, to);
      assert us[k] in vs;
      var i :| 0 <= i < |vs| && vs[i] == us[k];
      OneBlockOut(cfg, l, vs, i, from, to);
      assert us[..k] + us[k + 1..] == us[..k];
      Removed(vs, i);
      Removed(us, k);
      assert Distinct(us[..k]) && forall b :: b in us[..k] <==> b in us && b != us[k];
      AnyOrder(cfg, l, us[..k], vs[..i] + vs[i + 1..], from, to);
    }
  }

  lemma Removed(s: seq<nat>, i: nat)
    requires Distinct(s) && i < |s|
    ensures Distinct(s[..i] + s[i + 1..]) && forall b :: b in s[..i] + s[i + 1..] <==> b in s && b != s[i]
  {
    var rest := s[..i] + s[i + 1..];
    forall b | b in s && b != s[i]
      ensures b in rest
    {
      var j :| 0 <= j < |s| && s[j] == b;
      assert rest[if j < i then j else j - 1] == b;
    }
    forall j | 0 <= j < |rest|
      ensures rest[j] in s && rest[j] != s[i]
    {
      assert rest[j] == s[if j < i then j else j + 1];
    }
  }

  lemma CountsOf(cfg: CFG, l: Loop, order: seq<nat>, a: DFNode, b: DFNode)
    requires NaturalLoop(cfg, l) && InCFG(cfg, order) && Covers(order, l.blocks)
    ensures InCFG(cfg, l.blocks) && SuccTotal(cfg, l, order, a, b) == FlowCount(cfg, l, l.blocks, a, b)
  {
    assert forall i :: 0 <= i < |l.blocks| ==> l.blocks[i] in l.blocks;
    AnyOrder(cfg, l, order, l.blocks, a, b);
    TotalIsFlowCount(cfg, l, l.blocks, a, b);
  }

  // ---------- The whole construction ----------

  /** The node list before any edge is added. */
  ghost predicate InitialNodes(l: Loop, nodes: seq<DFNode>) {
    && |nodes| >= 2 && nodes[0] == Entry && nodes[|nodes| - 1] == Exit && DistinctNodes(nodes)
    && forall n :: n in nodes <==>
         match n
         case Entry => true
         case Exit => true
         case Latch => false
         case Block(b) => b in l.blocks && NodeOf(l, b) == n
         case Region(k) => k < |l.inner|
  }

  ghost function InnerNodes(k: nat): (r: seq<DFNode>)
    ensures |r| == k && forall i :: 0 <= i < k ==> r[i] == Region(i)
  {
    if k == 0 then [] else InnerNodes(k - 1) + [Region(k - 1)]
  }

  /** `Blocks.insert` for the blocks of one inner loop. */
  method InsertInner(blocks: map<nat, DFNode>, bs: seq<nat>, k: nat) returns (r: map<nat, DFNode>)
    ensures forall b :: b in r <==> b in blocks || b in bs
    ensures forall b :: b in r ==> r[b] == if b in blocks then blocks[b] else Region(k)
  {
    r := blocks;
    for i := 0 to |bs|
      invariant forall b :: b in r <==> b in blocks || b in bs[..i]
      invariant forall b :: b in r ==> r[b] == if b in blocks then blocks[b] else Region(k)
    {
      if bs[i] !in r {
        r := r[bs[i] := Region(k)];
      }
    }
  }

  /** The blocks of the first `k` inner loops are known with the node of the first loop that contains them. */
  ghost predicate InnerKnown(l: Loop, k: nat, blocks: map<nat, DFNode>) {
    && (forall b :: b in blocks <==> InnerIndex(l.inner, b) < k)
    && (forall b :: b in blocks ==> blocks[b] == Region(InnerIndex(l.inner, b)))
  }

  /** The nodes of the list and the map `Blocks`, before any edge is added; inner loops are built on the way. */
  method CreateNodes(cfg: CFG, l: Loop, region: DFRegion) returns (blocks: map<nat, DFNode>, inner: seq<RegionTree>)
    requires cfg.Valid() && NaturalNest(cfg, l) && region.nodes == []
    modifies region
    ensures region.succs == old(region.succs) && region.preds == old(region.preds)
    ensures BlockMap(l, blocks) && InitialNodes(l, region.nodes)
    ensures |inner| == |l.inner| && forall k :: 0 <= k < |l.inner| ==> RegionHierarchy(cfg, l.inner[k], inner[k])
    decreases l, 0
  {
    hide RegionHierarchy, NaturalNest, NaturalLoop, NodeOf, InnerKnown, InnerNodes, BlockMap, InitialNodes;
    NestFacts(cfg, l);
    NothingKnown(l);
    blocks, inner := map[], [];
    region.AddNode(Entry);
    for k := 0 to |l.inner|
      invariant region.succs == old(region.succs) && region.preds == old(region.preds)
      invariant region.nodes == [Entry] + InnerNodes(k)
      invariant InnerKnown(l, k, blocks)
      invariant |inner| == k && forall i :: 0 <= i < k ==> RegionHierarchy(cfg, l.inner[i], inner[i])
    {
      InnerNodesEnd(k);
      var r := BuildLoopRegion(cfg, l.inner[k]);
      region.AddNode(Region(k));
      ghost var before := blocks;
      blocks := InsertInner(blocks, l.inner[k].blocks, k);
      InnerKnownStep(l, k, before, blocks);
      inner := inner + [r];
    }
    blocks := CreateBlockNodes(cfg, l, region, blocks);
  }

  lemma NestFacts(cfg: CFG, l: Loop)
    requires NaturalNest(cfg, l)
    ensures NaturalLoop(cfg, l) && forall k :: 0 <= k < |l.inner| ==> NaturalNest(cfg, l.inner[k])
  {
  }

  lemma NothingKnown(l: Loop)
    ensures InnerKnown(l, 0, map[]) && InnerNodes(0) == []
  {
  }

  lemma InnerNodesEnd(k: nat)
    ensures InnerNodes(k + 1) == InnerNodes(k) + [Region(k)]
    ensures ([Entry] + InnerNodes(k))[k] != Exit
  {
  }

  lemma InnerKnownStep(l: Loop, k: nat, before: map<nat, DFNode>, after: map<nat, DFNode>)
    requires k < |l.inner| && InnerKnown(l, k, before)
    requires forall b :: b in after <==> b in before || b in l.inner[k].blocks
    requires forall b :: b in after ==> after[b] == if b in before then before[b] else Region(k)
    ensures InnerKnown(l, k + 1, after)
  {
    hide InnerIndex;
    forall b: nat
      ensures b in after <==> InnerIndex(l.inner, b) < k + 1
      ensures b in after ==> after[b] == Region(InnerIndex(l.inner, b))
    {
    }
  }

  method CreateBlockNodes(cfg: CFG, l: Loop, region: DFRegion, known: map<nat, DFNode>) returns (blocks: map<nat, DFNode>)
    requires NaturalLoop(cfg, l) && InnerKnown(l, |l.inner|, known)
    requires region.nodes == [Entry] + InnerNodes(|l.inner|)
    modifies region
    ensures region.succs == old(region.succs) && region.preds == old(region.preds)
    ensures BlockMap(l, blocks) && InitialNodes(l, region.nodes)
  {
    hide InitialNodes, NaturalLoop, NodeOf, InnerKnown, InnerNodes, OwnNodes;
    blocks := known;
    NothingOwn(l);
    KnownNodes(l, known);
    ghost var nodes0 := region.nodes;
    ghost var added: seq<DFNode> := [];
    for i := 0 to |l.blocks|
      invariant region.succs == old(region.succs) && region.preds == old(region.preds)
      invariant region.nodes == nodes0 + added
      invariant OwnNodes(l, l.blocks[..i], added)
      invariant forall b :: b in blocks <==> b in known || b in l.blocks[..i]
      invariant forall b :: b in blocks ==> blocks[b] == NodeOf(l, b)
    {
      var b := l.blocks[i];
      assert l.blocks[..i + 1] == l.blocks[..i] + [b];
      BlockNode(l, known, b);
      OneBlockMore(l, l.blocks[..i], added, b);
      if b !in blocks {
        LastIsNotExit(l, l.blocks[..i], nodes0, added);
        region.AddNode(Block(b));
        blocks := blocks[b := Block(b)];
        added := added + [Block(b)];
      }
    }
    assert l.blocks[..|l.blocks|] == l.blocks;
    LastIsNotExit(l, l.blocks, nodes0, added);
    region.AddNode(Exit);
    KnownAreBlocks(cfg, l, known);
    FirstNodes(l, nodes0, added);
  }

  lemma KnownNodes(l: Loop, known: map<nat, DFNode>)
    requires InnerKnown(l, |l.inner|, known)
    ensures forall b :: b in known ==> known[b] == NodeOf(l, b)
  {
    hide InnerIndex;
  }

  lemma BlockNode(l: Loop, known: map<nat, DFNode>, b: nat)
    requires InnerKnown(l, |l.inner|, known)
    ensures b !in known <==> NodeOf(l, b) == Block(b)
  {
    hide InnerIndex;
  }

  /** The nodes of the blocks `bs` that are in no inner loop. */
  ghost predicate OwnNodes(l: Loop, bs: seq<nat>, added: seq<DFNode>) {
    DistinctNodes(added) && forall n :: n in added <==> n.Block? && n.block in bs && NodeOf(l, n.block) == n
  }

  lemma NothingOwn(l: Loop)
    ensures OwnNodes(l, [], [])
  {
  }

  lemma OneBlockMore(l: Loop, bs: seq<nat>, added: seq<DFNode>, b: nat)
    requires OwnNodes(l, bs, added)
    ensures if b in bs || NodeOf(l, b) != Block(b) then OwnNodes(l, bs + [b], added)
            else OwnNodes(l, bs + [b], added + [Block(b)])
  {
    hide NodeOf;
  }

  lemma KnownAreBlocks(cfg: CFG, l: Loop, known: map<nat, DFNode>)
    requires NaturalLoop(cfg, l) && InnerKnown(l, |l.inner|, known)
    ensures forall b :: b in known ==> b in l.blocks
  {
    forall b | b in known
      ensures b in l.blocks
    {
      assert b in l.inner[InnerIndex(l.inner, b)].blocks;
    }
  }

  lemma LastIsNotExit(l: Loop, bs: seq<nat>, nodes0: seq<DFNode>, added: seq<DFNode>)
    requires nodes0 == [Entry] + InnerNodes(|l.inner|) && OwnNodes(l, bs, added)
    ensures (nodes0 + added)[|nodes0 + added| - 1] != Exit
  {
    if added != [] {
      assert added[|added| - 1] in added;
    }
  }

  lemma FirstDistinct(l: Loop, nodes0: seq<DFNode>, added: seq<DFNode>)
    requires nodes0 == [Entry] + InnerNodes(|l.inner|) && DistinctNodes(added) && forall n :: n in added ==> n.Block?
    ensures DistinctNodes(nodes0 + added + [Exit])
  {
    hide InnerNodes;
    var nodes := nodes0 + added + [Exit];
    forall i | 0 <= i < |nodes|
      ensures if i == 0 then nodes[i] == Entry else if i < |nodes0| then nodes[i] == Region(i - 1)
              else if i < |nodes| - 1 then nodes[i] == added[i - |nodes0|] && nodes[i].Block? else nodes[i] == Exit
    {
      assert |nodes0| <= i < |nodes| - 1 ==> added[i - |nodes0|] in added;
    }
  }

  lemma FirstNodes(l: Loop, nodes0: seq<DFNode>, added: seq<DFNode>)
    requires nodes0 == [Entry] + InnerNodes(|l.inner|)
    requires OwnNodes(l, l.blocks, added)
    ensures InitialNodes(l, nodes0 + added + [Exit])
  {
    var nodes := nodes0 + added + [Exit];
    FirstDistinct(l, nodes0, added);
    forall n
      ensures n in nodes <==> n == Entry || n == Exit || n in added || (n.Region? && n.index < |l.inner|)
    {
      if n.Region? && n.index < |l.inner| {
        assert nodes0[n.index + 1] == n;
      }
    }
  }

  /** The loop over the map `Blocks`, in whatever order the map is kept. */
  method ConnectBlocks(cfg: CFG, l: Loop, blocks: map<nat, DFNode>, region: DFRegion) returns (ghost order: seq<nat>)
    requires cfg.Valid() && NaturalLoop(cfg, l) && BlockMap(l, blocks)
    requires Connected(cfg, l, [], region.succs, region.preds) && InitialNodes(l, region.nodes)
    modifies region
    ensures InCFG(cfg, order) && Covers(order, l.blocks) && Connected(cfg, l, order, region.succs, region.preds)
    ensures RegionNodes(cfg, l, region.nodes)
  {
    hide Connected, Appended, PredsPaired, InitialNodes, RegionNodes, NodeOf;
    ghost var nodes0 := region.nodes;
    order := [];
    var keys := blocks.Keys;
    while keys != {}
      invariant keys <= blocks.Keys && InCFG(cfg, order) && Distinct(order)
      invariant forall b :: b in order <==> b in blocks.Keys - keys
      invariant Connected(cfg, l, order, region.succs, region.preds)
      invariant LatchSoFar(cfg, l, nodes0, region.nodes, order)
    {
      var b :| b in keys;
      assert b in l.blocks;
      ghost var succs0, preds0, nodes1 := region.succs, region.preds, region.nodes;
      ConnectSuccessors(cfg, l, blocks, b, region);
      ghost var preds1 := region.preds;
      ConnectPredecessors(cfg, l, blocks, b, region);
      ConnectedStep(cfg, l, order, b, succs0, preds0, preds1, region.succs, region.preds);
      LatchStep(cfg, l, nodes0, nodes1, order, b);
      DistinctAppend(order, b);
      order := order + [b];
      keys := keys - {b};
    }
    NodesWithLatch(cfg, l, nodes0, region.nodes, order);
  }

  lemma DistinctAppend(s: seq<nat>, x: nat)
    requires Distinct(s) && x !in s
    ensures Distinct(s + [x])
  {
  }

  /** The node list once the blocks of `done` have been connected. */
  ghost predicate LatchSoFar(cfg: CFG, l: Loop, nodes0: seq<DFNode>, nodes: seq<DFNode>, done: seq<nat>) {
    && InitialNodes(l, nodes0)
    && nodes == if exists u :: u in done && LeadsBy(cfg, l, u, Latch) then nodes0[..|nodes0| - 1] + [Latch, Exit] else nodes0
  }

  lemma LatchStep(cfg: CFG, l: Loop, nodes0: seq<DFNode>, nodes: seq<DFNode>, done: seq<nat>, b: nat)
    requires LatchSoFar(cfg, l, nodes0, nodes, done) && b in l.blocks && b < |cfg.succs|
    ensures LatchSoFar(cfg, l, nodes0, WithLatch(nodes, AddedSuccs(cfg, l, b)), done + [b])
  {
    AddedMembers(cfg, l, b, Latch);
    assert Latch !in nodes0;
    assert (exists u :: u in done + [b] && LeadsBy(cfg, l, u, Latch)) <==>
           (exists u :: u in done && LeadsBy(cfg, l, u, Latch)) || LeadsBy(cfg, l, b, Latch);
  }

  lemma SomeLatch(cfg: CFG, l: Loop, order: seq<nat>)
    requires forall b :: b in order <==> b in l.blocks
    ensures (exists u :: u in order && LeadsBy(cfg, l, u, Latch)) <==> exists a :: Leads(cfg, l, a, Latch)
  {
    if u :| u in order && LeadsBy(cfg, l, u, Latch) {
      assert Leads(cfg, l, NodeOf(l, u), Latch);
    }
  }

  lemma LatchInserted(nodes: seq<DFNode>)
    requires nodes != [] && nodes[|nodes| - 1] == Exit && DistinctNodes(nodes) && Latch !in nodes
    ensures var after := nodes[..|nodes| - 1] + [Latch, Exit];
            DistinctNodes(after) && forall n :: n in after <==> n in nodes || n == Latch
  {
    var kept := nodes[..|nodes| - 1];
    assert nodes == kept + [Exit];
    assert forall i :: 0 <= i < |kept| ==> kept[i] in nodes && kept[i] == nodes[i];
  }

  lemma NodesWithLatch(cfg: CFG, l: Loop, nodes0: seq<DFNode>, nodes: seq<DFNode>, order: seq<nat>)
    requires LatchSoFar(cfg, l, nodes0, nodes, order) && forall b :: b in order <==> b in l.blocks
    ensures RegionNodes(cfg, l, nodes)
  {
    hide LeadsBy, NodeOf, DistinctNodes;
    SomeLatch(cfg, l, order);
    LatchInserted(nodes0);
    assert forall n :: n in nodes <==> n in nodes0 || (n == Latch && exists u :: u in order && LeadsBy(cfg, l, u, Latch));
  }

  /** A fact about entry-to-exit edges in terms of what reaches the exit so far. */
  lemma NothingLeads(cfg: CFG, l: Loop, succs: Adjacent)
    requires forall a, b :: Listed(succs, a, b) <==> BaseEdge(cfg, l, a, b)
    ensures (exists a :: Listed(succs, a, Exit)) <==> exists x :: Leads(cfg, l, x, Exit)
  {
    HeaderNode(l);
    if a :| Listed(succs, a, Exit) {
      assert BaseEdge(cfg, l, a, Exit);
    }
    if x :| Leads(cfg, l, x, Exit) {
      assert BaseEdge(cfg, l, x, Exit) && Listed(succs, x, Exit);
    }
  }

  ghost predicate Listed(succs: Adjacent, a: DFNode, b: DFNode) {
    b in ListOf(succs, a)
  }

  lemma ListedAppend(succs: Adjacent, a: DFNode, b: DFNode)
    ensures forall x, y :: Listed(Append(succs, a, [b]), x, y) <==> Listed(succs, x, y) || (x == a && y == b)
  {
  }

  lemma ListedMultiplicity(succs: Adjacent, a: DFNode, b: DFNode)
    ensures Listed(succs, a, b) <==> Multiplicity(succs, a, b) > 0
  {
  }

  lemma HasPredecessor(succs: Adjacent, preds: Adjacent, b: DFNode)
    requires Dual(succs, preds)
    ensures ListOf(preds, b) != [] <==> exists a :: Listed(succs, a, b)
  {
    if ListOf(preds, b) != [] {
      var a := ListOf(preds, b)[0];
      assert Multiplicity(preds, b, a) > 0 && Multiplicity(succs, a, b) == Multiplicity(preds, b, a);
      assert Listed(succs, a, b);
    }
    if a :| Listed(succs, a, b) {
      assert Multiplicity(succs, a, b) > 0 && Multiplicity(succs, a, b) == Multiplicity(preds, b, a);
    }
  }

  ghost predicate BaseEdge(cfg: CFG, l: Loop, a: DFNode, b: DFNode) {
    (a == Entry && b == NodeOf(l, l.header)) || Leads(cfg, l, a, b)
  }

  /** The edges once the first `k` inner regions have been looked at. */
  ghost predicate EdgeSoFar(cfg: CFG, l: Loop, k: nat, a: DFNode, b: DFNode) {
    || BaseEdge(cfg, l, a, b)
    || (a == Entry && b == Exit && forall x :: !Leads(cfg, l, x, Exit))
    || (a.Region? && a.index < k && b == Exit && forall y :: !Leads(cfg, l, a, y))
  }

  lemma RegionWithoutSuccessors(cfg: CFG, l: Loop, k: nat, succs: Adjacent)
    requires forall a, b :: Listed(succs, a, b) <==> EdgeSoFar(cfg, l, k, a, b)
    ensures ListOf(succs, Region(k)) == [] <==> forall y :: !Leads(cfg, l, Region(k), y)
  {
    if ListOf(succs, Region(k)) != [] {
      assert Listed(succs, Region(k), ListOf(succs, Region(k))[0]);
    }
    forall y
      ensures Listed(succs, Region(k), y) <==> Leads(cfg, l, Region(k), y)
    {
      assert EdgeSoFar(cfg, l, k, Region(k), y) <==> Leads(cfg, l, Region(k), y);
    }
  }

  /** `succs` is `before` with the closing edges of the entry and of the first `k` inner regions. */
  ghost predicate ClosedOff(cfg: CFG, l: Loop, k: nat, before: Adjacent, succs: Adjacent) {
    forall a, b :: Multiplicity(succs, a, b) == Multiplicity(before, a, b) + ClosingEdge(cfg, l, k, a, b)
  }

  lemma EntryClosed(cfg: CFG, l: Loop, succs: Adjacent)
    ensures if forall x :: !Leads(cfg, l, x, Exit) then ClosedOff(cfg, l, 0, succs, Append(succs, Entry, [Exit]))
            else ClosedOff(cfg, l, 0, succs, succs)
  {
    hide Multiplicity, Append, Leads;
    forall x, y
      ensures Multiplicity(Append(succs, Entry, [Exit]), x, y) ==
                Multiplicity(succs, x, y) + (if x == Entry && y == Exit then 1 else 0)
    {
      OneAppended(succs, Entry, Exit, x, y);
    }
  }

  lemma RegionClosed(cfg: CFG, l: Loop, k: nat, before: Adjacent, succs: Adjacent)
    requires ClosedOff(cfg, l, k, before, succs)
    ensures if forall y :: !Leads(cfg, l, Region(k), y) then ClosedOff(cfg, l, k + 1, before, Append(succs, Region(k), [Exit]))
            else ClosedOff(cfg, l, k + 1, before, succs)
  {
    hide Multiplicity, Append, Leads;
    var closes := forall y :: !Leads(cfg, l, Region(k), y);
    var after := if closes then Append(succs, Region(k), [Exit]) else succs;
    forall a, b
      ensures Multiplicity(after, a, b) == Multiplicity(before, a, b) + ClosingEdge(cfg, l, k + 1, a, b)
    {
      OneAppended(succs, Region(k), Exit, a, b);
      assert Multiplicity(succs, a, b) == Multiplicity(before, a, b) + ClosingEdge(cfg, l, k, a, b);
      assert a.Region? && a.index < k + 1 ==> a.index < k || a == Region(k);
    }
  }

  /** The exits added at the end, so that no node is left unreachable. */
  method CloseExits(cfg: CFG, l: Loop, region: DFRegion)
    requires Dual(region.succs, region.preds)
    requires forall a, b :: Listed(region.succs, a, b) <==> BaseEdge(cfg, l, a, b)
    modifies region
    ensures region.nodes == old(region.nodes) && Dual(region.succs, region.preds)
    ensures forall a, b :: Listed(region.succs, a, b) <==> EdgeSoFar(cfg, l, |l.inner|, a, b)
    ensures ClosedOff(cfg, l, |l.inner|, old(region.succs), region.succs)
  {
    hide Dual, Leads, NodeOf, Listed, ClosedOff;
    ghost var succs0 := region.succs;
    HasPredecessor(region.succs, region.preds, Exit);
    NothingLeads(cfg, l, region.succs);
    EntryClosed(cfg, l, region.succs);
    if ListOf(region.preds, Exit) == [] {
      DualPair(region.succs, region.preds, Entry, Exit);
      ListedAppend(region.succs, Entry, Exit);
      region.AddSuccessor(Entry, Exit);
      region.AddPredecessor(Exit, Entry);
    }
    for k := 0 to |l.inner|
      invariant region.nodes == old(region.nodes) && Dual(region.succs, region.preds)
      invariant forall a, b :: Listed(region.succs, a, b) <==> EdgeSoFar(cfg, l, k, a, b)
      invariant ClosedOff(cfg, l, k, succs0, region.succs)
    {
      RegionClosed(cfg, l, k, succs0, region.succs);
      RegionWithoutSuccessors(cfg, l, k, region.succs);
      if |ListOf(region.succs, Region(k))| == 0 {
        DualPair(region.succs, region.preds, Region(k), Exit);
        ListedAppend(region.succs, Region(k), Exit);
        region.AddSuccessor(Region(k), Exit);
        region.AddPredecessor(Exit, Region(k));
      }
    }
  }

  lemma HeaderNode(l: Loop)
    ensures IsReal(NodeOf(l, l.header))
  {
  }

  /** `buildLoopRegion`. */
  method BuildLoopRegion(cfg: CFG, l: Loop) returns (r: RegionTree)
    requires cfg.Valid() && NaturalNest(cfg, l)
    ensures RegionHierarchy(cfg, l, r)
    decreases l, 1
  {
    hide Connected, Dual, BaseEdge, EdgeSoFar, NodeOf, Listed, RegionHierarchy, RegionNodes, InitialNodes, ClosedOff, EdgeCount;
    var region := new DFRegion();
    var blocks, inner := CreateNodes(cfg, l, region);
    var header := blocks[l.header];
    region.AddSuccessor(Entry, header);
    region.AddPredecessor(header, Entry);
    FirstEdge(cfg, l, region.succs, region.preds);
    ghost var order := ConnectBlocks(cfg, l, blocks, region);
    ConnectedIsDual(cfg, l, order, region.succs, region.preds);
    forall a, b
      ensures Listed(region.succs, a, b) <==> BaseEdge(cfg, l, a, b)
    {
      ListedMultiplicity(region.succs, a, b);
      BaseEdgeIs(cfg, l, a, b);
    }
    ghost var succs0, preds0 := region.succs, region.preds;
    CloseExits(cfg, l, region);
    r := RegionTree(region.nodes, region.succs, region.preds, inner);
    CountsAre(cfg, l, order, succs0, preds0, r);
    HierarchyIs(cfg, l, r);
  }

  lemma BaseEdgeIs(cfg: CFG, l: Loop, a: DFNode, b: DFNode)
    ensures BaseEdge(cfg, l, a, b) <==> (a == Entry && b == NodeOf(l, l.header)) || Leads(cfg, l, a, b)
  {
  }

  lemma CountsAre(cfg: CFG, l: Loop, order: seq<nat>, succs0: Adjacent, preds0: Adjacent, r: RegionTree)
    requires NaturalLoop(cfg, l) && InCFG(cfg, order) && Covers(order, l.blocks)
    requires Connected(cfg, l, order, succs0, preds0) && ClosedOff(cfg, l, |l.inner|, succs0, r.succs)
    ensures InCFG(cfg, l.blocks) && forall a, b :: Multiplicity(r.succs, a, b) == EdgeCount(cfg, l, a, b)
  {
    hide Multiplicity, ClosingEdge, EntryEdge, NaturalLoop, Covers, FlowCount;
    forall a, b
      ensures InCFG(cfg, l.blocks) && Multiplicity(r.succs, a, b) == EdgeCount(cfg, l, a, b)
    {
      CountsOf(cfg, l, order, a, b);
    }
    CountsOf(cfg, l, order, Entry, Exit);
  }

  lemma HierarchyIs(cfg: CFG, l: Loop, r: RegionTree)
    requires InCFG(cfg, l.blocks) && forall a, b :: Multiplicity(r.succs, a, b) == EdgeCount(cfg, l, a, b)
    requires RegionNodes(cfg, l, r.nodes) && Dual(r.succs, r.preds)
    requires forall a, b :: Listed(r.succs, a, b) <==> EdgeSoFar(cfg, l, |l.inner|, a, b)
    requires |r.inner| == |l.inner| && forall k :: 0 <= k < |l.inner| ==> RegionHierarchy(cfg, l.inner[k], r.inner[k])
    ensures RegionHierarchy(cfg, l, r)
  {
    forall a, b
      ensures b in ListOf(r.succs, a) <==> RegionEdge(cfg, l, a, b)
    {
      assert Listed(r.succs, a, b) <==> EdgeSoFar(cfg, l, |l.inner|, a, b);
    }
  }

  lemma FirstEdge(cfg: CFG, l: Loop, succs: Adjacent, preds: Adjacent)
    requires cfg.Valid()
    requires succs == Append(map[], Entry, [NodeOf(l, l.header)]) && preds == Append(map[], NodeOf(l, l.header), [Entry])
    ensures Connected(cfg, l, [], succs, preds)
  {
  }

  // ---------- The graph is acyclic and has no unreachable node ----------

  ghost function RegionEdges(r: RegionTree): iset<(DFNode, DFNode)> {
    iset e: (DFNode, DFNode) | e.1 in ListOf(r.succs, e.0)
  }

  /** Control flow inside a loop. */
  ghost function LoopFlow(cfg: CFG, l: Loop): iset<(nat, nat)> {
    iset e: (nat, nat) | e.0 in l.blocks && e.1 in l.blocks && e.0 < |cfg.succs| && e.1 in cfg.succs[e.0]
  }

  /** Control flow inside a loop that avoids its header. */
  ghost function FlowPastHeader(cfg: CFG, l: Loop): iset<(nat, nat)> {
    iset e: (nat, nat) | e in LoopFlow(cfg, l) && e.0 != l.header && e.1 != l.header
  }

  /** Inner loops are disjoint and strongly connected, and every cycle that avoids the header lies inside one of them. */
  ghost predicate Reducible(cfg: CFG, l: Loop) {
    && (forall i, j, b :: 0 <= i < j < |l.inner| && b in l.inner[i].blocks ==> b !in l.inner[j].blocks)
    && (forall k, u, v :: 0 <= k < |l.inner| && u in l.inner[k].blocks && v in l.inner[k].blocks ==>
          Reach(LoopFlow(cfg, l.inner[k]), u, v))
    && (forall u, v :: u != v && Reach(FlowPastHeader(cfg, l), u, v) && Reach(FlowPastHeader(cfg, l), v, u) ==>
          exists k :: 0 <= k < |l.inner| && u in l.inner[k].blocks && v in l.inner[k].blocks)
  }

  lemma SameInnerLoop(cfg: CFG, l: Loop, k: nat, b: nat)
    requires Reducible(cfg, l) && k < |l.inner| && b in l.inner[k].blocks
    ensures InnerIndex(l.inner, b) == k && NodeOf(l, b) == Region(k)
  {
  }

  /** Blocks that stand for the same node reach each other without passing the header. */
  lemma SameNodeReaches(cfg: CFG, l: Loop, u: nat, v: nat)
    requires NaturalLoop(cfg, l) && Reducible(cfg, l)
    requires u in l.blocks && v in l.blocks && NodeOf(l, u) == NodeOf(l, v) && u != l.header
    ensures v != l.header && Reach(FlowPastHeader(cfg, l), u, v)
  {
    if NodeOf(l, u).Region? {
      var k := InnerIndex(l.inner, u);
      assert u in l.inner[k].blocks && v in l.inner[k].blocks;
      ReachMono(LoopFlow(cfg, l.inner[k]), FlowPastHeader(cfg, l), u, v);
    } else {
      ReachRefl(FlowPastHeader(cfg, l), u);
    }
  }

  /** Nodes other than the entry all of whose blocks can be reached from `w` past the header. */
  ghost predicate PastHeader(cfg: CFG, l: Loop, w: nat, n: DFNode) {
    n != Entry && forall v :: v in l.blocks && NodeOf(l, v) == n ==> v != l.header && Reach(FlowPastHeader(cfg, l), w, v)
  }

  ghost predicate BlockEdge(cfg: CFG, l: Loop, u: nat, v: nat, a: DFNode, b: DFNode) {
    (u, v) in LoopFlow(cfg, l) && v != l.header && NodeOf(l, u) == a && NodeOf(l, v) == b && a != b
  }

  lemma EdgeKinds(cfg: CFG, l: Loop, a: DFNode, b: DFNode)
    requires RegionEdge(cfg, l, a, b) && IsReal(b)
    ensures (a == Entry && b == NodeOf(l, l.header)) || exists u: nat, v: nat :: BlockEdge(cfg, l, u, v, a, b)
  {
    if Leads(cfg, l, a, b) {
      var u: nat :| LeadsBy(cfg, l, u, b) && NodeOf(l, u) == a;
      var s: nat :| s in cfg.succs[u] && TargetOf(l, s) == b;
      assert BlockEdge(cfg, l, u, s, a, b);
    }
  }

  lemma EdgeEnds(cfg: CFG, l: Loop, a: DFNode, b: DFNode)
    requires RegionEdge(cfg, l, a, b)
    ensures b != Entry && a != Exit && a != Latch && a != b
  {
    HeaderNode(l);
    if Leads(cfg, l, a, b) {
      var u: nat :| LeadsBy(cfg, l, u, b) && NodeOf(l, u) == a;
    }
  }

  lemma PastHeaderClosed(cfg: CFG, l: Loop, r: RegionTree, w: nat)
    requires NaturalLoop(cfg, l) && Reducible(cfg, l) && RegionGraph(cfg, l, r)
    ensures Closed(RegionEdges(r), iset n | PastHeader(cfg, l, w, n))
  {
    forall a, b | PastHeader(cfg, l, w, a) && (a, b) in RegionEdges(r)
      ensures PastHeader(cfg, l, w, b)
    {
      assert RegionEdge(cfg, l, a, b);
      EdgeEnds(cfg, l, a, b);
      if IsReal(b) {
        EdgeKinds(cfg, l, a, b);
        var u: nat, s: nat :| BlockEdge(cfg, l, u, s, a, b);
        EnterNode(cfg, l, w, u, s, a, b);
      } else {
        forall v | v in l.blocks
          ensures NodeOf(l, v) != b
        {
          RealNode(l, v);
        }
      }
    }
  }

  lemma EnterNode(cfg: CFG, l: Loop, w: nat, u: nat, s: nat, a: DFNode, b: DFNode)
    requires NaturalLoop(cfg, l) && Reducible(cfg, l) && PastHeader(cfg, l, w, a) && BlockEdge(cfg, l, u, s, a, b) && b != Entry
    ensures PastHeader(cfg, l, w, b)
  {
    assert (u, s) in FlowPastHeader(cfg, l);
    ReachThen(FlowPastHeader(cfg, l), w, u, s);
    forall v | v in l.blocks && NodeOf(l, v) == b
      ensures v != l.header && Reach(FlowPastHeader(cfg, l), w, v)
    {
      SameNodeReaches(cfg, l, s, v);
      ReachTrans(FlowPastHeader(cfg, l), w, s, v);
    }
  }

  /** An edge between two nodes that also leads back closes a cycle of blocks past the header. */
  lemma NoWayBack(cfg: CFG, l: Loop, r: RegionTree, a: DFNode, c: DFNode)
    requires NaturalLoop(cfg, l) && Reducible(cfg, l) && RegionGraph(cfg, l, r) && (a, c) in RegionEdges(r)
    ensures !Reach(RegionEdges(r), c, a)
  {
    if Reach(RegionEdges(r), c, a) {
      assert RegionEdge(cfg, l, a, c);
      EdgeEnds(cfg, l, a, c);
      LeavesOnly(cfg, l, r, c, a);
      EdgeKinds(cfg, l, a, c);
      var u: nat, s: nat :| BlockEdge(cfg, l, u, s, a, c);
      PastHeaderFrom(cfg, l, s, c);
      PastHeaderClosed(cfg, l, r, s);
      ReachClosed(RegionEdges(r), (iset n | PastHeader(cfg, l, s, n)), c, a);
      CycleInside(cfg, l, u, s);
    }
  }

  lemma PastHeaderFrom(cfg: CFG, l: Loop, s: nat, c: DFNode)
    requires NaturalLoop(cfg, l) && Reducible(cfg, l)
    requires s in l.blocks && s != l.header && NodeOf(l, s) == c && c != Entry
    ensures PastHeader(cfg, l, s, c)
  {
    forall v | v in l.blocks && NodeOf(l, v) == c
      ensures v != l.header && Reach(FlowPastHeader(cfg, l), s, v)
    {
      SameNodeReaches(cfg, l, s, v);
    }
  }

  lemma CycleInside(cfg: CFG, l: Loop, u: nat, s: nat)
    requires Reducible(cfg, l) && (u, s) in LoopFlow(cfg, l) && u != l.header && s != l.header
    requires Reach(FlowPastHeader(cfg, l), s, u)
    ensures NodeOf(l, u) == NodeOf(l, s)
  {
    ReachEdge(FlowPastHeader(cfg, l), u, s);
    if u != s {
      var k :| 0 <= k < |l.inner| && u in l.inner[k].blocks && s in l.inner[k].blocks;
      SameInnerLoop(cfg, l, k, u);
      SameInnerLoop(cfg, l, k, s);
    }
  }

  ghost predicate NotEntry(n: DFNode) {
    n != Entry
  }

  /** A walk from `c` to another node `a` shows that `c` has an outgoing and `a` an incoming edge. */
  lemma LeavesOnly(cfg: CFG, l: Loop, r: RegionTree, c: DFNode, a: DFNode)
    requires RegionGraph(cfg, l, r) && Reach(RegionEdges(r), c, a) && c != a && c != Entry
    ensures c != Exit && c != Latch && a != Entry
  {
    var E := RegionEdges(r);
    var u, v := CrossingEdge(E, iset{c}, c, a);
    EdgeEnds(cfg, l, c, v);
    assert Closed(E, (iset n | NotEntry(n))) by {
      forall x, y | (x, y) in E
        ensures y != Entry
      {
        EdgeEnds(cfg, l, x, y);
      }
    }
    ReachClosed(E, (iset n | NotEntry(n)), c, a);
  }

  /** The graph built for a loop is acyclic. */
  lemma RegionIsAcyclic(cfg: CFG, l: Loop, r: RegionTree)
    requires NaturalLoop(cfg, l) && Reducible(cfg, l) && RegionGraph(cfg, l, r)
    ensures Acyclic(RegionEdges(r))
  {
    forall a
      ensures !ReachPlus(RegionEdges(r), a, a)
    {
      if ReachPlus(RegionEdges(r), a, a) {
        var c :| (a, c) in RegionEdges(r) && Reach(RegionEdges(r), c, a);
        NoWayBack(cfg, l, r, a, c);
      }
    }
  }

  /** Every block can be reached, and the entry block of the function lies in the loop only as its header. */
  ghost predicate NoUnreachableBlocks(cfg: CFG, l: Loop) {
    && (forall b: nat :: b < |cfg.succs| ==> Reach(cfg.Flow(), cfg.entry, b))
    && (cfg.entry in l.blocks ==> cfg.entry == l.header)
  }

  lemma EnteredFrom(cfg: CFG, l: Loop, n: DFNode, b: nat) returns (a: DFNode)
    requires cfg.Valid() && NaturalLoop(cfg, l) && NoUnreachableBlocks(cfg, l)
    requires b in l.blocks && NodeOf(l, b) == n && n != NodeOf(l, l.header)
    ensures Leads(cfg, l, a, n)
  {
    var outside := iset v: nat | !(v in l.blocks && NodeOf(l, v) == n);
    var u, v := CrossingEdge(cfg.Flow(), outside, cfg.entry, b);
    assert multiset(cfg.succs[u])[v] == multiset(cfg.preds[v])[u];
    assert u in cfg.preds[v];
    assert TargetOf(l, v) == n;
    assert LeadsBy(cfg, l, u, n);
    a := NodeOf(l, u);
  }

  /** Every node but the entry has a predecessor. */
  lemma NodesHavePredecessors(cfg: CFG, l: Loop, r: RegionTree, n: DFNode)
    requires cfg.Valid() && NaturalLoop(cfg, l) && Reducible(cfg, l) && NoUnreachableBlocks(cfg, l)
    requires RegionGraph(cfg, l, r) && n in r.nodes && n != Entry
    ensures ListOf(r.preds, n) != []
  {
    HasPredecessor(r.succs, r.preds, n);
    var a := Entry;
    match n {
      case Exit =>
        if x :| Leads(cfg, l, x, Exit) {
          a := x;
        }
      case Latch =>
        a :| Leads(cfg, l, a, Latch);
      case Block(b) =>
        if n != NodeOf(l, l.header) {
          a := EnteredFrom(cfg, l, n, b);
        }
      case Region(k) =>
        var b := l.inner[k].blocks[0];
        assert b in l.inner[k].blocks;
        SameInnerLoop(cfg, l, k, b);
        if n != NodeOf(l, l.header) {
          a := EnteredFrom(cfg, l, n, b);
        }
    }
    assert RegionEdge(cfg, l, a, n);
    assert Listed(r.succs, a, n);
  }

  /** The ends of an edge are listed. */
  lemma EdgeListed(cfg: CFG, l: Loop, r: RegionTree, a: DFNode, b: DFNode)
    requires NaturalLoop(cfg, l) && RegionGraph(cfg, l, r) && RegionEdge(cfg, l, a, b)
    ensures a in r.nodes && b in r.nodes
  {
    hide Dual, Multiplicity, EdgeCount, InCFG;
    BlockListed(cfg, l, r, l.header);
    if Leads(cfg, l, a, b) {
      var u: nat :| LeadsBy(cfg, l, u, b) && NodeOf(l, u) == a;
      BlockListed(cfg, l, r, u);
      if cfg.succs[u] != [] {
        var s: nat :| s in cfg.succs[u] && TargetOf(l, s) == b;
        if s in l.blocks {
          BlockListed(cfg, l, r, s);
        }
      }
    }
  }

  lemma BlockListed(cfg: CFG, l: Loop, r: RegionTree, b: nat)
    requires RegionGraph(cfg, l, r) && b in l.blocks
    ensures NodeOf(l, b) in r.nodes
  {
    hide Dual, Multiplicity, EdgeCount, InCFG, RegionEdge, Leads, InnerIndex;
  }

  ghost function NodeSet(nodes: seq<DFNode>): set<DFNode> {
    set n | n in nodes
  }

  /** Going back from `n`, all nodes of `later` being behind it, ends at the entry. */
  lemma {:induction false} BackToEntry(cfg: CFG, l: Loop, r: RegionTree, n: DFNode, later: set<DFNode>)
    requires cfg.Valid() && NaturalLoop(cfg, l) && Reducible(cfg, l) && NoUnreachableBlocks(cfg, l) && RegionGraph(cfg, l, r)
    requires Acyclic(RegionEdges(r)) && n in r.nodes && n !in later && later <= NodeSet(r.nodes)
    requires forall x :: x in later ==> Reach(RegionEdges(r), n, x)
    ensures Reach(RegionEdges(r), Entry, n)
    decreases NodeSet(r.nodes) - later
  {
    hide NaturalLoop, Reducible, NoUnreachableBlocks, RegionGraph, Reach, Acyclic, RegionEdges;
    var E := RegionEdges(r);
    if n == Entry {
      ReachRefl(E, n);
    } else {
      NodesHavePredecessors(cfg, l, r, n);
      var a := PredecessorEdge(cfg, l, r, n);
      var more := later + {n};
      forall x | x in more
        ensures Reach(E, a, x) && x != a
      {
        ReachRefl(E, n);
        BeforeAll(E, a, n, x);
      }
      BackToEntry(cfg, l, r, a, more);
      ReachThen(E, Entry, a, n);
    }
  }

  lemma BeforeAll(E: iset<(DFNode, DFNode)>, a: DFNode, n: DFNode, x: DFNode)
    requires Acyclic(E) && (a, n) in E && Reach(E, n, x)
    ensures Reach(E, a, x) && x != a
  {
    ReachEdge(E, a, n);
    ReachTrans(E, a, n, x);
    assert ReachPlus(E, a, x);
  }

  lemma PredecessorEdge(cfg: CFG, l: Loop, r: RegionTree, n: DFNode) returns (a: DFNode)
    requires NaturalLoop(cfg, l) && RegionGraph(cfg, l, r) && ListOf(r.preds, n) != []
    ensures a in r.nodes && (a, n) in RegionEdges(r)
  {
    hide Dual, RegionNodes, RegionEdge, EdgeCount, InCFG;
    HasPredecessor(r.succs, r.preds, n);
    a :| Listed(r.succs, a, n);
    EdgeListed(cfg, l, r, a, n);
  }

  /** Every node can be reached from the entry. */
  lemma NodesAreReached(cfg: CFG, l: Loop, r: RegionTree, n: DFNode)
    requires cfg.Valid() && NaturalLoop(cfg, l) && Reducible(cfg, l) && NoUnreachableBlocks(cfg, l)
    requires RegionGraph(cfg, l, r) && n in r.nodes
    ensures Reach(RegionEdges(r), Entry, n)
  {
    hide NaturalLoop, Reducible, NoUnreachableBlocks, RegionGraph, Reach, RegionEdges;
    RegionIsAcyclic(cfg, l, r);
    BackToEntry(cfg, l, r, n, {});
  }

  ghost predicate ReducibleNest(cfg: CFG, l: Loop)
    decreases l
  {
    && Reducible(cfg, l) && NoUnreachableBlocks(cfg, l)
    && forall k :: 0 <= k < |l.inner| ==> ReducibleNest(cfg, l.inner[k])
  }

  /** The graph of a region and those of all regions inside it are acyclic, dual, and every node can be reached. */
  ghost predicate SolvableNest(r: RegionTree)
    decreases r
  {
    && Acyclic(RegionEdges(r)) && Dual(r.succs, r.preds)
    && (forall n :: n in r.nodes && n != Entry ==> ListOf(r.preds, n) != [])
    && (forall n :: n in r.nodes ==> Reach(RegionEdges(r), Entry, n))
    && forall k :: 0 <= k < |r.inner| ==> SolvableNest(r.inner[k])
  }

  /** For every loop tree, each graph is acyclic and has dual lists, and all its nodes can be reached from the entry. */
  lemma {:induction false} EveryRegionIsSolvable(cfg: CFG, l: Loop, r: RegionTree)
    requires cfg.Valid() && NaturalNest(cfg, l) && ReducibleNest(cfg, l) && RegionHierarchy(cfg, l, r)
    ensures SolvableNest(r)
    decreases l
  {
    hide Reducible, NoUnreachableBlocks, NaturalLoop, RegionGraph, Acyclic, Reach;
    RegionIsAcyclic(cfg, l, r);
    GraphIsDual(cfg, l, r);
    forall n | n in r.nodes && n != Entry
      ensures ListOf(r.preds, n) != []
    {
      NodesHavePredecessors(cfg, l, r, n);
    }
    forall n | n in r.nodes
      ensures Reach(RegionEdges(r), Entry, n)
    {
      NodesAreReached(cfg, l, r, n);
    }
    forall k | 0 <= k < |r.inner|
      ensures SolvableNest(r.inner[k])
    {
      EveryRegionIsSolvable(cfg, l.inner[k], r.inner[k]);
    }
  }

  lemma GraphIsDual(cfg: CFG, l: Loop, r: RegionTree)
    requires RegionGraph(cfg, l, r)
    ensures Dual(r.succs, r.preds)
  {
  }
}

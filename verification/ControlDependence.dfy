/**
 The control dependence builder of lib/Analysis/PDG.cpp (`CDGBuilder::processControlDependence`).
 */
module ControlDependence {
  import opened Graphs
  import opened SpanningTreeRelation
  import opened Trees

  /** A control flow graph; the number of blocks stands for the virtual exit. */
  datatype CFG = CFG(entry: nat, succs: seq<seq<nat>>) {
    ghost predicate Valid() {
      && entry < |succs|
      && forall b :: 0 <= b < |succs| ==> forall t :: t in succs[b] ==> t < |succs|
    }

    function Exit(): nat {
      |succs|
    }

    /** Control flow, with an edge to the virtual exit from each block without successors. */
    ghost function Flow(): iset<(nat, nat)> {
      iset e: (nat, nat) | e.0 < |succs| && (e.1 in succs[e.0] || (succs[e.0] == [] && e.1 == Exit()))
    }

    /** Every way from `n` to the exit passes through `x`. */
    ghost predicate PostDominates(x: nat, n: nat) {
      forall p :: PathFromTo(Flow(), p, n, Exit()) ==> x in p
    }

    ghost predicate StrictlyPostDominates(x: nat, n: nat) {
      x != n && PostDominates(x, n)
    }
  }

  /** The post-dominator tree: its root is the virtual exit and ancestry in it is strict post-dominance. */
  ghost predicate IsPostDomTree(cfg: CFG, pdt: Forest) {
    && IsTree(pdt) && pdt.node == cfg.Exit()
    && (forall b :: b in Ids(pdt) <==> 0 <= b <= |cfg.succs|)
    && (forall a, b :: a in Ids(pdt) && b in Ids(pdt) ==> (Above(pdt, a, b) <==> cfg.StrictlyPostDominates(a, b)))
  }

  datatype CdgNode = EntryNode | BlockNode(block: nat)

  /** The definition of control dependence the graph is to record. */
  ghost predicate Dependent(cfg: CFG, k: CdgNode, x: nat) {
    && x < |cfg.succs|
    && match k
       case EntryNode => cfg.PostDominates(x, cfg.entry)
       case BlockNode(src) =>
         && src < |cfg.succs|
         && !cfg.StrictlyPostDominates(x, src)
         && exists t :: t in cfg.succs[src] && cfg.PostDominates(x, t)
  }

  class ControlDependenceGraph {
    var blocks: seq<nat>
    var edges: seq<(CdgNode, nat)>

    constructor ()
      ensures blocks == [] && edges == []
    {
      blocks, edges := [], [];
    }

    method EmplaceNode(block: nat)
      modifies this
      ensures blocks == old(blocks) + [block] && edges == old(edges)
    {
      blocks := blocks + [block];
    }

    method BindNodes(source: CdgNode, target: nat)
      modifies this
      ensures edges == old(edges) + [(source, target)] && blocks == old(blocks)
    {
      edges := edges + [(source, target)];
    }
  }

  // ---------- Depth-first iteration with the path to the current node ----------

  /** The paths a depth-first iterator goes through, each from the start of the iteration to the current node. */
  function DepthFirst(f: Forest, prefix: seq<nat>): seq<seq<nat>> {
    match f
    case Nil => []
    case Tree(n, c, s) => [prefix + [n]] + DepthFirst(c, prefix + [n]) + DepthFirst(s, prefix)
  }

  function Last(path: seq<nat>): nat {
    if path == [] then 0 else path[|path| - 1]
  }

  ghost predicate PathToNode(f: Forest, prefix: seq<nat>, path: seq<nat>) {
    && |prefix| < |path| && prefix <= path && Last(path) in Ids(f)
    && forall x :: x in path[|prefix|..] <==> x == Last(path) || Above(f, x, Last(path))
  }

  lemma {:induction false} DepthFirstPaths(f: Forest, prefix: seq<nat>)
    requires Distinct(f)
    ensures forall path :: path in DepthFirst(f, prefix) ==> PathToNode(f, prefix, path)
  {
    if f.Tree? {
      var deeper := prefix + [f.node];
      DepthFirstPaths(f.children, deeper);
      DepthFirstPaths(f.siblings, prefix);
      forall path | path in DepthFirst(f, prefix)
        ensures PathToNode(f, prefix, path)
      {
        if path == deeper {
          OwnPath(f, prefix);
        } else if path in DepthFirst(f.children, deeper) {
          ChildPath(f, prefix, path);
        } else {
          SiblingPath(f, prefix, path);
        }
      }
    }
  }

  lemma OwnPath(f: Forest, prefix: seq<nat>)
    requires f.Tree? && Distinct(f)
    ensures PathToNode(f, prefix, prefix + [f.node])
  {
    var path := prefix + [f.node];
    assert path[|prefix|..] == [f.node];
    forall x
      ensures !Above(f, x, f.node)
    {
      RootHasNoAncestor(f, x, f.node);
    }
  }

  lemma ChildPath(f: Forest, prefix: seq<nat>, path: seq<nat>)
    requires f.Tree? && Distinct(f) && PathToNode(f.children, prefix + [f.node], path)
    ensures PathToNode(f, prefix, path)
  {
    assert path[|prefix|..] == [f.node] + path[|prefix + [f.node]|..];
    forall x
      ensures Above(f, x, Last(path)) <==> x == f.node || Above(f.children, x, Last(path))
    {
      NotAboveOutside(f.siblings, x, Last(path));
    }
  }

  lemma SiblingPath(f: Forest, prefix: seq<nat>, path: seq<nat>)
    requires f.Tree? && Distinct(f) && PathToNode(f.siblings, prefix, path)
    ensures PathToNode(f, prefix, path)
  {
    forall x
      ensures Above(f, x, Last(path)) <==> Above(f.siblings, x, Last(path))
    {
      NotAboveOutside(f.children, x, Last(path));
    }
  }

  lemma {:induction false} EveryNodeHasPath(f: Forest, prefix: seq<nat>, n: nat) returns (path: seq<nat>)
    requires n in Ids(f)
    ensures path in DepthFirst(f, prefix) && Last(path) == n
  {
    if n == f.node {
      path := prefix + [n];
    } else if n in Ids(f.children) {
      path := EveryNodeHasPath(f.children, prefix + [f.node], n);
    } else {
      path := EveryNodeHasPath(f.siblings, prefix, n);
    }
  }

  /** What an iteration started with `++df_begin(root)` meets: every node but the root, with its ancestors below the root. */
  lemma IterationBelowRoot(t: Forest, path: seq<nat>)
    requires IsTree(t) && path in DepthFirst(t, [])[1..]
    ensures |path| > 1 && path[0] == t.node && Last(path) in Ids(t) && Last(path) != t.node
    ensures forall x :: x in path[1..] <==> x != t.node && (x == Last(path) || Above(t, x, Last(path)))
  {
    DepthFirstPaths(t.children, [t.node]);
    assert [] + [t.node] == [t.node] && DepthFirst(t.siblings, []) == [];
    assert DepthFirst(t, [])[1..] == DepthFirst(t.children, [t.node]);
    ChildPath(t, [], path);
    forall x
      ensures Above(t, x, Last(path)) <==> x == t.node || Above(t.children, x, Last(path))
      ensures Above(t.children, x, Last(path)) ==> x != t.node
    {
      NotAboveOutside(t.children, x, Last(path));
    }
  }

  lemma IterationIsComplete(t: Forest, n: nat) returns (path: seq<nat>)
    requires IsTree(t) && n in Ids(t) && n != t.node
    ensures path in DepthFirst(t, [])[1..] && Last(path) == n
  {
    path := EveryNodeHasPath(t.children, [t.node], n);
    assert [] + [t.node] == [t.node] && DepthFirst(t.siblings, []) == [];
    assert DepthFirst(t, [])[1..] == DepthFirst(t.children, [t.node]);
  }

  /** The tree below and including `n`. */
  function Subtree(f: Forest, n: nat): (t: Forest)
    requires n in Ids(f)
    ensures t.Tree? && t.node == n && t.siblings.Nil?
  {
    if n == f.node then Tree(n, f.children, Nil)
    else if n in Ids(f.children) then Subtree(f.children, n)
    else Subtree(f.siblings, n)
  }

  lemma {:induction false} SubtreeFacts(f: Forest, n: nat)
    requires Distinct(f) && n in Ids(f)
    ensures Distinct(Subtree(f, n)) && Ids(Subtree(f, n)) <= Ids(f)
    ensures forall x :: x in Ids(Subtree(f, n)) <==> x == n || Above(f, n, x)
    ensures forall x, y :: x in Ids(Subtree(f, n)) && y in Ids(Subtree(f, n)) ==>
                             (Above(Subtree(f, n), x, y) <==> Above(f, x, y))
  {
    var c, s := f.children, f.siblings;
    forall x, y
      ensures x !in Ids(c) || y !in Ids(c) ==> !Above(c, x, y)
      ensures x !in Ids(s) || y !in Ids(s) ==> !Above(s, x, y)
    {
      NotAboveOutside(c, x, y);
      NotAboveOutside(s, x, y);
    }
    if n in Ids(c) {
      SubtreeFacts(c, n);
    } else if n in Ids(s) {
      SubtreeFacts(s, n);
    }
  }

  // ---------- The builder ----------

  /** `getIDom`: the parent in the tree. */
  function IDom(pdt: Forest, n: nat): (d: nat)
    requires IsTree(pdt) && n in Ids(pdt) && n != pdt.node
    ensures IsChild(pdt, d, n) && d in Ids(pdt)
  {
    assert Predecessors(pdt, n) != [] by {
      var p := SomeParent(pdt, n);
      assert p in Predecessors(pdt, n);
    }
    assert Predecessors(pdt, n)[0] in Predecessors(pdt, n);
    ChildIds(pdt, Predecessors(pdt, n)[0], n);
    Predecessors(pdt, n)[0]
  }

  type DepInfo = map<CdgNode, set<nat>>

  ghost predicate Recorded(info: DepInfo, k: CdgNode, x: nat) {
    k in info && x in info[k]
  }

  /** `addToMap`. */
  function AddToMap(info: DepInfo, k: CdgNode, x: nat): (r: DepInfo)
    ensures forall k', x' :: Recorded(r, k', x') <==> Recorded(info, k', x') || (k' == k && x' == x)
  {
    if k in info then info[k := info[k] + {x}] else info[k := {x}]
  }

  /** The loop over `getPath(I)` for I from the path length minus one down to one. */
  method AddPath(info: DepInfo, k: CdgNode, path: seq<nat>) returns (r: DepInfo)
    requires path != []
    ensures forall k', x' :: Recorded(r, k', x') <==> Recorded(info, k', x') || (k' == k && x' in path[1..])
  {
    r := info;
    var i := |path| - 1;
    while i > 0
      invariant 0 <= i < |path|
      invariant forall k', x' :: Recorded(r, k', x') <==> Recorded(info, k', x') || (k' == k && x' in path[i + 1..])
    {
      r := AddToMap(r, k, path[i]);
      assert path[i..] == [path[i]] + path[i + 1..];
      i := i - 1;
    }
  }

  /** What the step of the outer loop at the node `src` records, told by the tree. */
  ghost predicate RecordedAt(cfg: CFG, pdt: Forest, src: nat, k: CdgNode, x: nat)
    requires IsTree(pdt) && src in Ids(pdt) && src != pdt.node && src < |cfg.succs|
  {
    match k
    case EntryNode => src == cfg.entry && x != pdt.node && (x == src || Above(pdt, x, src))
    case BlockNode(b) =>
      && b == src && Above(pdt, IDom(pdt, src), x)
      && exists t :: t in cfg.succs[src] && Above(pdt, IDom(pdt, src), t) && (x == t || Above(pdt, x, t))
  }

  /** A successor of a block stays below every strict post-dominator of the block, or is that post-dominator. */
  lemma SuccessorStaysBelow(cfg: CFG, d: nat, src: nat, t: nat)
    requires cfg.Valid() && src < |cfg.succs| && t in cfg.succs[src] && cfg.StrictlyPostDominates(d, src)
    ensures cfg.PostDominates(d, t)
  {
    forall p | PathFromTo(cfg.Flow(), p, t, cfg.Exit())
      ensures d in p
    {
      var q := [src] + p;
      assert PathFromTo(cfg.Flow(), q, src, cfg.Exit());
      assert d in q;
    }
  }

  lemma PostDominanceInTree(cfg: CFG, pdt: Forest, x: nat, n: nat)
    requires IsPostDomTree(cfg, pdt) && x in Ids(pdt) && n in Ids(pdt)
    ensures cfg.PostDominates(x, n) <==> x == n || Above(pdt, x, n)
  {
    if x == n {
      forall p | PathFromTo(cfg.Flow(), p, n, cfg.Exit())
        ensures x in p
      {
        assert p[0] == n;
      }
    }
  }

  /** What the loops record is control dependence. */
  lemma RecordedAtIsDependence(cfg: CFG, pdt: Forest, src: nat, k: CdgNode, x: nat)
    requires cfg.Valid() && IsPostDomTree(cfg, pdt) && src < |cfg.succs| && x < |cfg.succs|
    requires k == BlockNode(src) || (k == EntryNode && src == cfg.entry)
    ensures RecordedAt(cfg, pdt, src, k, x) <==> Dependent(cfg, k, x)
  {
    if k == EntryNode {
      PostDominanceInTree(cfg, pdt, x, src);
    } else {
      forall t | t in cfg.succs[src]
        ensures (Above(pdt, IDom(pdt, src), x) && Above(pdt, IDom(pdt, src), t) && (x == t || Above(pdt, x, t)))
                <==> (!cfg.StrictlyPostDominates(x, src) && cfg.PostDominates(x, t))
      {
        RecordedForSuccessor(cfg, pdt, src, t, x);
      }
    }
  }

  lemma RecordedForSuccessor(cfg: CFG, pdt: Forest, src: nat, t: nat, x: nat)
    requires cfg.Valid() && IsPostDomTree(cfg, pdt) && src < |cfg.succs| && x < |cfg.succs| && t in cfg.succs[src]
    ensures var d := IDom(pdt, src);
            (Above(pdt, d, x) && Above(pdt, d, t) && (x == t || Above(pdt, x, t)))
            <==> (!cfg.StrictlyPostDominates(x, src) && cfg.PostDominates(x, t))
  {
    var d := IDom(pdt, src);
    ChildIsParent(pdt, d, src);
    AboveIds(pdt, d, src);
    SuccessorStaysBelow(cfg, d, src, t);
    PostDominanceInTree(cfg, pdt, d, t);
    PostDominanceInTree(cfg, pdt, x, t);
    if Above(pdt, d, x) && Above(pdt, x, src) {
      // x is a proper ancestor of src, hence d itself or above d
      AboveTrans(pdt, d, x, src);
      AboveIrreflexive(pdt, d);
      if Above(pdt, x, d) {
        AboveTrans(pdt, d, x, d);
      }
    }
    if !Above(pdt, x, src) && (x == t || Above(pdt, x, t)) {
      if Above(pdt, d, t) && Above(pdt, x, t) {
        AncestorsFormChain(pdt, d, x, t);
      }
      if Above(pdt, x, d) {
        AboveTrans(pdt, x, d, src);
      }
    }
  }

  /** The target `path` below the immediate post-dominator contributes `x` to `src`. */
  ghost predicate Contributes(cfg: CFG, src: nat, path: seq<nat>, x: nat)
    requires src < |cfg.succs|
  {
    path != [] && Last(path) in cfg.succs[src] && x in path[1..]
  }

  ghost predicate SomeContributes(cfg: CFG, src: nat, paths: seq<seq<nat>>, x: nat)
    requires src < |cfg.succs|
  {
    exists path :: path in paths && Contributes(cfg, src, path, x)
  }

  /** All targets together record what `RecordedAt` says for the block `src`. */
  lemma TargetsRecord(cfg: CFG, pdt: Forest, src: nat, x: nat)
    requires IsTree(pdt) && src in Ids(pdt) && src != pdt.node && src < |cfg.succs|
    ensures SomeContributes(cfg, src, DepthFirst(Subtree(pdt, IDom(pdt, src)), [])[1..], x)
            <==> RecordedAt(cfg, pdt, src, BlockNode(src), x)
  {
    var d := IDom(pdt, src);
    var sub := Subtree(pdt, d);
    SubtreeFacts(pdt, d);
    if SomeContributes(cfg, src, DepthFirst(sub, [])[1..], x) {
      var path :| path in DepthFirst(sub, [])[1..] && Contributes(cfg, src, path, x);
      IterationBelowRoot(sub, path);
      TargetIs(cfg, pdt, src, Last(path), x);
    }
    if RecordedAt(cfg, pdt, src, BlockNode(src), x) {
      var t :| t in cfg.succs[src] && Above(pdt, d, t) && (x == t || Above(pdt, x, t));
      AboveIrreflexive(pdt, d);
      var path := IterationIsComplete(sub, t);
      IterationBelowRoot(sub, path);
      TargetIs(cfg, pdt, src, t, x);
      assert Contributes(cfg, src, path, x);
    }
  }

  lemma TargetIs(cfg: CFG, pdt: Forest, src: nat, t: nat, x: nat)
    requires IsTree(pdt) && src in Ids(pdt) && src != pdt.node
    requires var d := IDom(pdt, src); t in Ids(Subtree(pdt, d)) && t != d
    ensures var d := IDom(pdt, src);
            (x != d && (x == t || Above(Subtree(pdt, d), x, t)))
            <==> (Above(pdt, d, x) && Above(pdt, d, t) && (x == t || Above(pdt, x, t)))
  {
    var d := IDom(pdt, src);
    SubtreeFacts(pdt, d);
    NotAboveOutside(Subtree(pdt, d), x, t);
    AboveIrreflexive(pdt, d);
  }

  /** The loop body of the outer loop at the tree node `src`. */
  method AddSource(cfg: CFG, pdt: Forest, info: DepInfo, path: seq<nat>) returns (r: DepInfo)
    requires cfg.Valid() && IsPostDomTree(cfg, pdt) && path in DepthFirst(pdt, [])[1..]
    requires Last(path) < |cfg.succs| && Last(path) in Ids(pdt)
    ensures forall k, x :: Recorded(r, k, x) <==>
                             Recorded(info, k, x) || RecordedAt(cfg, pdt, Last(path), k, x)
  {
    var src := Last(path);
    IterationBelowRoot(pdt, path);
    r := info;
    if src == cfg.entry {
      r := AddPath(r, EntryNode, path);
    }
    ghost var withEntry := r;
    var targets := DepthFirst(Subtree(pdt, IDom(pdt, src)), [])[1..];
    SubtreeFacts(pdt, IDom(pdt, src));
    for j := 0 to |targets|
      invariant forall k, x :: Recorded(r, k, x) <==>
                  Recorded(withEntry, k, x) || (k == BlockNode(src) && SomeContributes(cfg, src, targets[..j], x))
    {
      var target := targets[j];
      IterationBelowRoot(Subtree(pdt, IDom(pdt, src)), target);
      ContributionStep(cfg, src, targets, j);
      if Last(target) in cfg.succs[src] {
        r := AddPath(r, BlockNode(src), target);
      }
    }
    assert targets[..|targets|] == targets;
    forall k, x
      ensures Recorded(r, k, x) <==> Recorded(info, k, x) || RecordedAt(cfg, pdt, src, k, x)
    {
      TargetsRecord(cfg, pdt, src, x);
    }
  }

  lemma ContributionStep(cfg: CFG, src: nat, paths: seq<seq<nat>>, j: nat)
    requires src < |cfg.succs| && j < |paths|
    ensures forall x :: SomeContributes(cfg, src, paths[..j + 1], x) <==>
                          SomeContributes(cfg, src, paths[..j], x) || Contributes(cfg, src, paths[j], x)
  {
    assert paths[..j + 1] == paths[..j] + [paths[j]];
  }

  ghost predicate RecordedFrom(cfg: CFG, pdt: Forest, paths: seq<seq<nat>>, k: CdgNode, x: nat)
    requires IsTree(pdt)
  {
    exists path :: path in paths && Last(path) in Ids(pdt) && Last(path) != pdt.node && Last(path) < |cfg.succs|
                   && RecordedAt(cfg, pdt, Last(path), k, x)
  }

  lemma SourceStep(cfg: CFG, pdt: Forest, paths: seq<seq<nat>>, i: nat)
    requires IsTree(pdt) && i < |paths|
    requires Last(paths[i]) in Ids(pdt) && Last(paths[i]) != pdt.node && Last(paths[i]) < |cfg.succs|
    ensures forall k, x :: RecordedFrom(cfg, pdt, paths[..i + 1], k, x) <==>
              RecordedFrom(cfg, pdt, paths[..i], k, x) || RecordedAt(cfg, pdt, Last(paths[i]), k, x)
  {
    assert paths[..i + 1] == paths[..i] + [paths[i]];
  }

  /** All sources together record control dependence. */
  lemma SourcesRecord(cfg: CFG, pdt: Forest, k: CdgNode, x: nat)
    requires cfg.Valid() && IsPostDomTree(cfg, pdt)
    ensures RecordedFrom(cfg, pdt, DepthFirst(pdt, [])[1..], k, x) <==> Dependent(cfg, k, x)
  {
    var sources := DepthFirst(pdt, [])[1..];
    if RecordedFrom(cfg, pdt, sources, k, x) {
      var path :| path in sources && Last(path) in Ids(pdt) && Last(path) != pdt.node && Last(path) < |cfg.succs|
                  && RecordedAt(cfg, pdt, Last(path), k, x);
      RecordedNodeIsBlock(cfg, pdt, Last(path), k, x);
      RecordedAtIsDependence(cfg, pdt, Last(path), k, x);
    }
    if Dependent(cfg, k, x) {
      var src := if k == EntryNode then cfg.entry else k.block;
      var path := IterationIsComplete(pdt, src);
      RecordedAtIsDependence(cfg, pdt, src, k, x);
    }
  }

  lemma RecordedNodeIsBlock(cfg: CFG, pdt: Forest, src: nat, k: CdgNode, x: nat)
    requires IsPostDomTree(cfg, pdt) && src in Ids(pdt) && src != pdt.node && src < |cfg.succs|
    requires RecordedAt(cfg, pdt, src, k, x)
    ensures x < |cfg.succs| && (k == BlockNode(src) || (k == EntryNode && src == cfg.entry))
  {
    if k == EntryNode {
      NotAboveOutside(pdt, x, src);
    } else {
      AboveIds(pdt, IDom(pdt, src), x);
      RootHasNoAncestor(pdt, IDom(pdt, src), pdt.node);
    }
  }

  /** The loop over the tree that fills `DepInfo`. */
  method CollectDependences(cfg: CFG, pdt: Forest) returns (info: DepInfo)
    requires cfg.Valid() && IsPostDomTree(cfg, pdt)
    ensures forall k, x :: Recorded(info, k, x) <==> Dependent(cfg, k, x)
  {
    info := map[];
    var sources := DepthFirst(pdt, [])[1..];
    for i := 0 to |sources|
      invariant forall k, x :: Recorded(info, k, x) <==> RecordedFrom(cfg, pdt, sources[..i], k, x)
    {
      IterationBelowRoot(pdt, sources[i]);
      SourceStep(cfg, pdt, sources, i);
      info := AddSource(cfg, pdt, info, sources[i]);
    }
    assert sources[..|sources|] == sources;
    forall k, x
      ensures Recorded(info, k, x) <==> Dependent(cfg, k, x)
    {
      SourcesRecord(cfg, pdt, k, x);
    }
  }

  ghost predicate NoDuplicateEdges(edges: seq<(CdgNode, nat)>) {
    forall i, j :: 0 <= i < j < |edges| ==> edges[i] != edges[j]
  }

  /** The final loops over `DepInfo`, in whatever order the map and its sets are kept. */
  method BindAll(info: DepInfo, cdg: ControlDependenceGraph)
    requires cdg.edges == []
    modifies cdg
    ensures forall k, x: nat :: (k, x) in cdg.edges <==> Recorded(info, k, x)
    ensures NoDuplicateEdges(cdg.edges) && cdg.blocks == old(cdg.blocks)
  {
    var keys := info.Keys;
    while keys != {}
      invariant keys <= info.Keys
      invariant forall k, x: nat :: (k, x) in cdg.edges <==> k !in keys && Recorded(info, k, x)
      invariant NoDuplicateEdges(cdg.edges) && cdg.blocks == old(cdg.blocks)
    {
      var k :| k in keys;
      ghost var before := cdg.edges;
      var targets := info[k];
      while targets != {}
        invariant targets <= info[k]
        invariant forall k', x: nat :: (k', x) in cdg.edges <==> (k', x) in before || (k' == k && x in info[k] - targets)
        invariant NoDuplicateEdges(cdg.edges) && cdg.blocks == old(cdg.blocks)
      {
        var x :| x in targets;
        assert (k, x) !in cdg.edges;
        cdg.BindNodes(k, x);
        targets := targets - {x};
      }
      keys := keys - {k};
    }
  }

  /** `processControlDependence`: the bound pairs are exactly the control dependences, each pair once. */
  method ProcessControlDependence(cfg: CFG, pdt: Forest, cdg: ControlDependenceGraph)
    requires cfg.Valid() && IsPostDomTree(cfg, pdt)
    requires cdg.edges == []
    modifies cdg
    ensures forall k, x: nat :: (k, x) in cdg.edges <==> Dependent(cfg, k, x)
    ensures NoDuplicateEdges(cdg.edges)
    ensures cdg.blocks == old(cdg.blocks) + seq(|cfg.succs|, b => b)
  {
    for b := 0 to |cfg.succs|
      invariant cdg.edges == [] && cdg.blocks == old(cdg.blocks) + seq(b, k => k)
    {
      cdg.EmplaceNode(b);
    }
    var info := CollectDependences(cfg, pdt);
    BindAll(info, cdg);
  }
}

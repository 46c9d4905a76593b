/**
 Contraction of strongly connected components to pi-blocks (lib/Analysis/PDG.cpp, `PDGBuilder::createPiBlocks`).
 */
module PiBlocks {
  import opened Graphs
  import opened Wrappers

  datatype DependenceType = Data | Control

  datatype Direction = Incoming | Outgoing

  /** An edge of the graph before contraction. */
  datatype Dependence = Dependence(id: nat, src: nat, dst: nat, dep: DependenceType)

  /** `EdgeHandle`: an original edge kept inside an edge, with the ordinals of its ends in their components. */
  datatype Handle = Handle(srcOrdinal: nat, tgtOrdinal: nat, edge: Dependence)

  /** A current edge. An original edge holds itself; a complex edge holds what it has absorbed. */
  datatype Edge = Edge(src: nat, dst: nat, dep: DependenceType, complex: bool, inlined: set<Handle>)

  function PlainEdge(o: Dependence): Edge {
    Edge(o.src, o.dst, o.dep, false, {Handle(0, 0, o)})
  }

  /** What `absorbEdge` appends for `e` when its end in the component has ordinal `ord`. */
  function Absorbed(e: Edge, ord: nat, dir: Direction): set<Handle> {
    set h | h in e.inlined ::
      if dir.Incoming? then Handle(h.srcOrdinal, ord, h.edge) else Handle(ord, h.tgtOrdinal, h.edge)
  }

  class ProgramDependencyGraph {
    var nodes: seq<nat>
    var edges: set<Edge>

    constructor (nodes: seq<nat>, edges: set<Edge>)
      ensures this.nodes == nodes && this.edges == edges
    {
      this.nodes, this.edges := nodes, edges;
    }

    /** `findEdgesTo`: the edges from `src` to `dst`, each once. */
    method FindEdgesTo(src: nat, dst: nat) returns (found: seq<Edge>)
      ensures forall e :: e in found <==> e in edges && e.src == src && e.dst == dst
      ensures forall i, j :: 0 <= i < j < |found| ==> found[i] != found[j]
    {
      found := [];
      var rest := edges;
      while rest != {}
        invariant rest <= edges
        invariant forall e :: e in found <==> e in edges - rest && e.src == src && e.dst == dst
        invariant forall i, j :: 0 <= i < j < |found| ==> found[i] != found[j]
      {
        var e :| e in rest;
        if e.src == src && e.dst == dst {
          found := found + [e];
        }
        rest := rest - {e};
      }
    }
  }

  // ---------- Where each original edge is kept ----------

  /** The ends and ordinals under which an original edge is kept. */
  datatype Place = Place(src: nat, dst: nat, complex: bool, srcOrdinal: nat, tgtOrdinal: nat)

  type Places = map<Dependence, Place>

  ghost predicate Keeps(e: Edge, o: Dependence, p: Place) {
    && e.src == p.src && e.dst == p.dst && e.complex == p.complex && e.dep == o.dep
    && Handle(p.srcOrdinal, p.tgtOrdinal, o) in e.inlined
  }

  ghost predicate Inside(e: Edge, o: Dependence) {
    exists h :: h in e.inlined && h.edge == o
  }

  ghost predicate HandlesPlaced(e: Edge, places: Places) {
    && e.inlined != {}
    && forall h :: h in e.inlined ==>
         h.edge in places && places[h.edge] == Place(e.src, e.dst, e.complex, h.srcOrdinal, h.tgtOrdinal)
         && h.edge.dep == e.dep
  }

  ghost predicate Kept(edges: set<Edge>, o: Dependence, p: Place) {
    exists e :: e in edges && Keeps(e, o, p)
  }

  /** At most one complex edge of a type leads from one node to another; a plain edge is an original edge. */
  ghost predicate NoRedundantEdges(edges: set<Edge>) {
    && (forall e, f :: e in edges && f in edges && e.complex && SameLink(f, e.src, e.dst, e.dep) ==> e == f)
    && (forall e, h :: e in edges && !e.complex && h in e.inlined ==> e == PlainEdge(h.edge))
  }

  /** The current edges keep every original edge exactly once, at its place. */
  ghost predicate Represents(edges: set<Edge>, places: Places) {
    AllPlaced(edges, places) && AllKept(edges, places) && NoRedundantEdges(edges)
  }

  ghost predicate AllPlaced(edges: set<Edge>, places: Places) {
    forall e :: e in edges ==> HandlesPlaced(e, places)
  }

  ghost predicate AllKept(edges: set<Edge>, places: Places) {
    forall o :: o in places ==> Kept(edges, o, places[o])
  }

  function Moved(p: Place, pi: nat, ord: nat, dir: Direction): Place {
    if dir.Incoming? then p.(dst := pi, complex := true, tgtOrdinal := ord)
    else p.(src := pi, complex := true, srcOrdinal := ord)
  }

  ghost function MoveInside(places: Places, e: Edge, pi: nat, ord: nat, dir: Direction): Places {
    map o | o in places :: if Inside(e, o) then Moved(places[o], pi, ord, dir) else places[o]
  }

  /** The ends of the edge at the pi-block that stands for `e`. */
  function Source(e: Edge, pi: nat, dir: Direction): nat {
    if dir.Incoming? then e.src else pi
  }

  function Target(e: Edge, pi: nat, dir: Direction): nat {
    if dir.Incoming? then pi else e.dst
  }

  /** The complex edge created for `e`, or the one that is there after it has absorbed `e`. */
  function Merge(e: Edge, prior: Option<Edge>, pi: nat, ord: nat, dir: Direction): Edge {
    Edge(Source(e, pi, dir), Target(e, pi, dir), e.dep, true,
         (if prior.Some? then prior.value.inlined else {}) + Absorbed(e, ord, dir))
  }

  function Replace(edges: set<Edge>, e: Edge, prior: Option<Edge>, merged: Edge): set<Edge> {
    edges - {e} - (if prior.Some? then {prior.value} else {}) + {merged}
  }

  ghost predicate SameLink(e: Edge, src: nat, dst: nat, dep: DependenceType) {
    e.complex && e.src == src && e.dst == dst && e.dep == dep
  }

  /** `prior` is the complex edge that leads from `src` to `dst`, if there is one. */
  ghost predicate IsPrior(edges: set<Edge>, prior: Option<Edge>, src: nat, dst: nat, dep: DependenceType) {
    match prior
    case Some(n) => n in edges && SameLink(n, src, dst, dep)
    case None => forall e :: e in edges ==> !SameLink(e, src, dst, dep)
  }

  lemma OneKeeper(edges: set<Edge>, places: Places, e: Edge, f: Edge, o: Dependence)
    requires AllPlaced(edges, places) && NoRedundantEdges(edges)
    requires e in edges && f in edges && Inside(e, o) && Inside(f, o)
    ensures e == f
  {
    assert HandlesPlaced(e, places) && HandlesPlaced(f, places);
  }

  lemma AbsorbedMoves(e: Edge, places: Places, o: Dependence, pi: nat, ord: nat, dir: Direction)
    requires HandlesPlaced(e, places) && Inside(e, o)
    ensures Keeps(Merge(e, None, pi, ord, dir), o, Moved(places[o], pi, ord, dir))
  {
    var h :| h in e.inlined && h.edge == o;
    assert (if dir.Incoming? then Handle(h.srcOrdinal, ord, h.edge) else Handle(ord, h.tgtOrdinal, h.edge))
           in Absorbed(e, ord, dir);
  }

  lemma MergedHandles(edges: set<Edge>, places: Places, e: Edge, prior: Option<Edge>, pi: nat, ord: nat, dir: Direction)
    requires AllPlaced(edges, places) && NoRedundantEdges(edges) && e in edges
    requires IsPrior(edges, prior, Source(e, pi, dir), Target(e, pi, dir), e.dep) && prior != Some(e)
    ensures HandlesPlaced(Merge(e, prior, pi, ord, dir), MoveInside(places, e, pi, ord, dir))
  {
    var merged := Merge(e, prior, pi, ord, dir);
    var after := MoveInside(places, e, pi, ord, dir);
    assert HandlesPlaced(e, places);
    var g :| g in e.inlined;
    AbsorbedMoves(e, places, g.edge, pi, ord, dir);
    forall h | h in merged.inlined
      ensures h.edge in after && h.edge.dep == e.dep
      ensures after[h.edge] == Place(merged.src, merged.dst, true, h.srcOrdinal, h.tgtOrdinal)
    {
      if h in Absorbed(e, ord, dir) {
        var h0 :| h0 in e.inlined &&
                  h == if dir.Incoming? then Handle(h0.srcOrdinal, ord, h0.edge) else Handle(ord, h0.tgtOrdinal, h0.edge);
        assert Inside(e, h.edge);
      } else {
        assert HandlesPlaced(prior.value, places);
      }
    }
  }

  lemma OtherHandles(edges: set<Edge>, places: Places, e: Edge, f: Edge, pi: nat, ord: nat, dir: Direction)
    requires AllPlaced(edges, places) && NoRedundantEdges(edges) && e in edges && f in edges && e != f
    ensures HandlesPlaced(f, MoveInside(places, e, pi, ord, dir))
  {
    assert HandlesPlaced(f, places);
    forall h | h in f.inlined
      ensures !Inside(e, h.edge)
    {
      if Inside(e, h.edge) {
        OneKeeper(edges, places, e, f, h.edge);
      }
    }
  }

  lemma StillKept(edges: set<Edge>, places: Places, e: Edge, prior: Option<Edge>, o: Dependence,
                  pi: nat, ord: nat, dir: Direction)
    requires HandlesPlaced(e, places) && o in places && Kept(edges, o, places[o])
    requires IsPrior(edges, prior, Source(e, pi, dir), Target(e, pi, dir), e.dep)
    ensures Kept(Replace(edges, e, prior, Merge(e, prior, pi, ord, dir)), o, MoveInside(places, e, pi, ord, dir)[o])
  {
    var merged := Merge(e, prior, pi, ord, dir);
    if Inside(e, o) {
      AbsorbedMoves(e, places, o, pi, ord, dir);
      assert Keeps(merged, o, Moved(places[o], pi, ord, dir));
    } else {
      var k :| k in edges && Keeps(k, o, places[o]);
      if prior == Some(k) {
        assert Keeps(merged, o, places[o]);
      }
    }
  }

  lemma PlacedAfter(edges: set<Edge>, places: Places, e: Edge, prior: Option<Edge>, pi: nat, ord: nat, dir: Direction)
    requires AllPlaced(edges, places) && NoRedundantEdges(edges) && e in edges
    requires IsPrior(edges, prior, Source(e, pi, dir), Target(e, pi, dir), e.dep) && prior != Some(e)
    ensures AllPlaced(Replace(edges, e, prior, Merge(e, prior, pi, ord, dir)), MoveInside(places, e, pi, ord, dir))
  {
    var merged := Merge(e, prior, pi, ord, dir);
    forall f | f in Replace(edges, e, prior, merged)
      ensures HandlesPlaced(f, MoveInside(places, e, pi, ord, dir))
    {
      if f == merged {
        MergedHandles(edges, places, e, prior, pi, ord, dir);
      } else {
        OtherHandles(edges, places, e, f, pi, ord, dir);
      }
    }
  }

  lemma KeptAfter(edges: set<Edge>, places: Places, e: Edge, prior: Option<Edge>, pi: nat, ord: nat, dir: Direction)
    requires HandlesPlaced(e, places) && AllKept(edges, places)
    requires IsPrior(edges, prior, Source(e, pi, dir), Target(e, pi, dir), e.dep)
    ensures AllKept(Replace(edges, e, prior, Merge(e, prior, pi, ord, dir)), MoveInside(places, e, pi, ord, dir))
  {
    var merged := Merge(e, prior, pi, ord, dir);
    forall o | o in places
      ensures Kept(Replace(edges, e, prior, merged), o, MoveInside(places, e, pi, ord, dir)[o])
    {
      StillKept(edges, places, e, prior, o, pi, ord, dir);
    }
  }

  lemma NotRedundantAfter(edges: set<Edge>, e: Edge, prior: Option<Edge>, merged: Edge)
    requires NoRedundantEdges(edges) && merged.complex
    requires IsPrior(edges, prior, merged.src, merged.dst, merged.dep)
    ensures NoRedundantEdges(Replace(edges, e, prior, merged))
  {
  }

  /** Replacing `e` by a complex edge at the pi-block, or letting the one that is there absorb it, loses nothing. */
  lemma MoveEdge(edges: set<Edge>, places: Places, e: Edge, prior: Option<Edge>, pi: nat, ord: nat, dir: Direction)
    requires Represents(edges, places) && e in edges
    requires IsPrior(edges, prior, Source(e, pi, dir), Target(e, pi, dir), e.dep) && prior != Some(e)
    ensures Represents(Replace(edges, e, prior, Merge(e, prior, pi, ord, dir)), MoveInside(places, e, pi, ord, dir))
  {
    PlacedAfter(edges, places, e, prior, pi, ord, dir);
    KeptAfter(edges, places, e, prior, pi, ord, dir);
    NotRedundantAfter(edges, e, prior, Merge(e, prior, pi, ord, dir));
  }

  // ---------- Reconnecting the edges of one component ----------

  function Lookup(slots: map<DependenceType, Edge>, dep: DependenceType): Option<Edge> {
    if dep in slots then Some(slots[dep]) else None
  }

  /** One row of `NewEdges`: the complex edges that lead from `src` to `dst` now, by type. */
  ghost predicate Slots(edges: set<Edge>, slots: map<DependenceType, Edge>, src: nat, dst: nat) {
    IsPrior(edges, Lookup(slots, Data), src, dst, Data) && IsPrior(edges, Lookup(slots, Control), src, dst, Control)
  }

  ghost predicate InsideAny(es: seq<Edge>, o: Dependence) {
    exists e :: e in es && Inside(e, o)
  }

  ghost function MoveInsideAny(places: Places, es: seq<Edge>, pi: nat, ord: nat, dir: Direction): Places {
    map o | o in places :: if InsideAny(es, o) then Moved(places[o], pi, ord, dir) else places[o]
  }

  ghost function MoveBetween(places: Places, src: nat, dst: nat, pi: nat, ord: nat, dir: Direction): Places {
    map o | o in places :: if places[o].src == src && places[o].dst == dst then Moved(places[o], pi, ord, dir) else places[o]
  }

  lemma MoveOneMore(places: Places, es: seq<Edge>, i: nat, pi: nat, ord: nat, dir: Direction)
    requires i < |es|
    ensures MoveInside(MoveInsideAny(places, es[..i], pi, ord, dir), es[i], pi, ord, dir)
         == MoveInsideAny(places, es[..i + 1], pi, ord, dir)
  {
    assert es[..i + 1] == es[..i] + [es[i]];
    forall o | o in places
      ensures InsideAny(es[..i + 1], o) <==> InsideAny(es[..i], o) || Inside(es[i], o)
    {
    }
  }

  lemma FoundHolds(edges: set<Edge>, places: Places, found: seq<Edge>, src: nat, dst: nat, o: Dependence)
    requires AllPlaced(edges, places) && o in places && Kept(edges, o, places[o])
    requires forall e :: e in found <==> e in edges && e.src == src && e.dst == dst
    ensures InsideAny(found, o) <==> places[o].src == src && places[o].dst == dst
  {
    if InsideAny(found, o) {
      var e :| e in found && Inside(e, o);
      assert HandlesPlaced(e, places);
    }
    if places[o].src == src && places[o].dst == dst {
      var e :| e in edges && Keeps(e, o, places[o]);
      assert Inside(e, o);
    }
  }

  /** Moving what the edges between two nodes hold is moving everything placed between these nodes. */
  lemma FoundIsBetween(edges: set<Edge>, places: Places, found: seq<Edge>, src: nat, dst: nat,
                       pi: nat, ord: nat, dir: Direction)
    requires Represents(edges, places)
    requires forall e :: e in found <==> e in edges && e.src == src && e.dst == dst
    ensures MoveInsideAny(places, found, pi, ord, dir) == MoveBetween(places, src, dst, pi, ord, dir)
  {
    hide MoveInsideAny, MoveBetween, InsideAny;
    forall o | o in places
      ensures InsideAny(found, o) <==> places[o].src == src && places[o].dst == dst
    {
      FoundHolds(edges, places, found, src, dst, o);
    }
    SameMoves(places, found, src, dst, pi, ord, dir);
  }

  lemma SameMoves(places: Places, found: seq<Edge>, src: nat, dst: nat, pi: nat, ord: nat, dir: Direction)
    requires forall o :: o in places ==> (InsideAny(found, o) <==> places[o].src == src && places[o].dst == dst)
    ensures MoveInsideAny(places, found, pi, ord, dir) == MoveBetween(places, src, dst, pi, ord, dir)
  {
    hide InsideAny;
  }

  /** Edges with other ends than the listed ones are neither added nor removed. */
  ghost predicate OthersKept(before: set<Edge>, after: set<Edge>, a: (nat, nat), b: (nat, nat)) {
    forall e: Edge :: (e.src, e.dst) != a && (e.src, e.dst) != b ==> (e in before <==> e in after)
  }

  lemma SlotAfter(edges: set<Edge>, slots: map<DependenceType, Edge>, src: nat, dst: nat, e: Edge, merged: Edge,
                  dep: DependenceType)
    requires IsPrior(edges, Lookup(slots, dep), src, dst, dep) && IsPrior(edges, Lookup(slots, e.dep), src, dst, e.dep)
    requires NoRedundantEdges(edges) && (e.src, e.dst) != (src, dst) && SameLink(merged, src, dst, e.dep)
    ensures IsPrior(Replace(edges, e, Lookup(slots, e.dep), merged), Lookup(slots[e.dep := merged], dep), src, dst, dep)
  {
  }

  /** What holds while the edges found between two nodes are being reconnected; `i` of them are done. */
  ghost predicate Reconnecting(before: set<Edge>, now: set<Edge>, places: Places, found: seq<Edge>, i: nat,
                               slots: map<DependenceType, Edge>, src: nat, dst: nat, pi: nat, ord: nat, dir: Direction)
    requires i <= |found|
  {
    && Represents(now, MoveInsideAny(places, found[..i], pi, ord, dir))
    && Slots(now, slots, NewSrc(src, pi, dir), NewDst(dst, pi, dir))
    && OthersKept(before, now, (src, dst), (NewSrc(src, pi, dir), NewDst(dst, pi, dir)))
    && (forall m :: i <= m < |found| ==> found[m] in now)
  }

  function NewSrc(src: nat, pi: nat, dir: Direction): nat {
    if dir.Incoming? then src else pi
  }

  function NewDst(dst: nat, pi: nat, dir: Direction): nat {
    if dir.Incoming? then pi else dst
  }

  lemma OthersAfter(before: set<Edge>, now: set<Edge>, e: Edge, prior: Option<Edge>, merged: Edge, a: (nat, nat), b: (nat, nat))
    requires OthersKept(before, now, a, b) && (e.src, e.dst) == a && (merged.src, merged.dst) == b
    requires prior.Some? ==> (prior.value.src, prior.value.dst) == b
    ensures OthersKept(before, Replace(now, e, prior, merged), a, b)
  {
  }

  lemma ReconnectOne(before: set<Edge>, now: set<Edge>, places: Places, found: seq<Edge>, i: nat,
                     slots: map<DependenceType, Edge>, src: nat, dst: nat, pi: nat, ord: nat, dir: Direction)
    requires i < |found| && src != pi && dst != pi
    requires Reconnecting(before, now, places, found, i, slots, src, dst, pi, ord, dir)
    requires forall m :: 0 <= m < |found| ==> found[m].src == src && found[m].dst == dst
    requires forall m, n :: 0 <= m < n < |found| ==> found[m] != found[n]
    ensures var e := found[i];
            var merged := Merge(e, Lookup(slots, e.dep), pi, ord, dir);
            Reconnecting(before, Replace(now, e, Lookup(slots, e.dep), merged), places, found, i + 1,
                         slots[e.dep := merged], src, dst, pi, ord, dir)
  {
    hide AllPlaced, AllKept, NoRedundantEdges, OthersKept, MoveInsideAny, MoveInside;
    var e := found[i];
    var prior := Lookup(slots, e.dep);
    var merged := Merge(e, prior, pi, ord, dir);
    var s, d := NewSrc(src, pi, dir), NewDst(dst, pi, dir);
    assert e.dep == Data || e.dep == Control;
    MoveEdge(now, MoveInsideAny(places, found[..i], pi, ord, dir), e, prior, pi, ord, dir);
    MoveOneMore(places, found, i, pi, ord, dir);
    SlotAfter(now, slots, s, d, e, merged, Data);
    SlotAfter(now, slots, s, d, e, merged, Control);
    OthersAfter(before, now, e, prior, merged, (src, dst), (s, d));
  }

  lemma ReconnectStart(edges: set<Edge>, places: Places, found: seq<Edge>, slots: map<DependenceType, Edge>,
                       src: nat, dst: nat, pi: nat, ord: nat, dir: Direction)
    requires Represents(edges, places) && Slots(edges, slots, NewSrc(src, pi, dir), NewDst(dst, pi, dir))
    requires forall m :: 0 <= m < |found| ==> found[m] in edges
    ensures Reconnecting(edges, edges, places, found, 0, slots, src, dst, pi, ord, dir)
  {
    hide AllPlaced, AllKept, NoRedundantEdges;
    assert MoveInsideAny(places, found[..0], pi, ord, dir) == places;
  }

  /** The lambda `ReconnectEdges`: everything placed between two nodes moves to the pi-block. */
  method ReconnectEdges(g: ProgramDependencyGraph, src: nat, dst: nat, pi: nat, newEdges: map<DependenceType, Edge>,
                        ord: nat, dir: Direction, ghost places: Places)
    returns (slots: map<DependenceType, Edge>)
    requires Represents(g.edges, places) && src != pi && dst != pi
    requires Slots(g.edges, newEdges, NewSrc(src, pi, dir), NewDst(dst, pi, dir))
    modifies g
    ensures g.nodes == old(g.nodes)
    ensures Represents(g.edges, MoveBetween(places, src, dst, pi, ord, dir))
    ensures Slots(g.edges, slots, NewSrc(src, pi, dir), NewDst(dst, pi, dir))
    ensures OthersKept(old(g.edges), g.edges, (src, dst), (NewSrc(src, pi, dir), NewDst(dst, pi, dir)))
  {
    hide Represents, OthersKept, Slots, MoveInsideAny, MoveBetween;
    slots := newEdges;
    var found := g.FindEdgesTo(src, dst);
    assert forall m :: 0 <= m < |found| ==> found[m] in found;
    ReconnectStart(g.edges, places, found, slots, src, dst, pi, ord, dir);
    for i := 0 to |found|
      invariant g.nodes == old(g.nodes)
      invariant Reconnecting(old(g.edges), g.edges, places, found, i, slots, src, dst, pi, ord, dir)
    {
      var e := found[i];
      var prior := Lookup(slots, e.dep);
      var merged := Merge(e, prior, pi, ord, dir);
      ReconnectOne(old(g.edges), g.edges, places, found, i, slots, src, dst, pi, ord, dir);
      // Connecting a new complex edge or letting the known one absorb `e`, then removing `e`.
      g.edges := Replace(g.edges, e, prior, merged);
      slots := slots[e.dep := merged];
    }
    assert found[..|found|] == found;
    FoundIsBetween(old(g.edges), places, found, src, dst, pi, ord, dir);
  }

  // ---------- One component ----------

  function IndexIn(s: seq<nat>, x: nat): nat {
    if s == [] || s[0] == x then 0 else 1 + IndexIn(s[1..], x)
  }

  lemma {:induction false} IndexInAt(s: seq<nat>, k: nat)
    requires k < |s| && s[k] !in s[..k]
    ensures IndexIn(s, s[k]) == k
  {
    if k > 0 {
      assert s[..k] == [s[0]] + s[1..][..k - 1];
      IndexInAt(s[1..], k - 1);
    }
  }

  ghost predicate DistinctNodes(s: seq<nat>) {
    forall i, j :: 0 <= i < j < |s| ==> s[i] != s[j]
  }

  /** Where a place goes when the external nodes `done` have been handled for the component `members`. */
  ghost function Stepped(p: Place, done: iset<nat>, members: seq<nat>, pi: nat): Place {
    if p.src in done && p.dst in members then Moved(p, pi, IndexIn(members, p.dst), Incoming)
    else if p.dst in done && p.src in members then Moved(p, pi, IndexIn(members, p.src), Outgoing)
    else p
  }

  ghost function SteppedAll(places: Places, done: iset<nat>, members: seq<nat>, pi: nat): Places {
    map o | o in places :: Stepped(places[o], done, members, pi)
  }

  /** The same for the single external node `x` and the first `k` members. */
  ghost function NodeStep(p: Place, x: nat, members: seq<nat>, k: nat, pi: nat): Place
    requires k <= |members|
  {
    if p.src == x && p.dst in members[..k] then Moved(p, pi, IndexIn(members, p.dst), Incoming)
    else if p.dst == x && p.src in members[..k] then Moved(p, pi, IndexIn(members, p.src), Outgoing)
    else p
  }

  ghost function NodeMoves(places: Places, x: nat, members: seq<nat>, k: nat, pi: nat): Places
    requires k <= |members|
  {
    map o | o in places :: NodeStep(places[o], x, members, k, pi)
  }

  lemma NextMember(places: Places, x: nat, members: seq<nat>, k: nat, pi: nat)
    requires k < |members| && DistinctNodes(members) && x !in members && pi !in members && x != pi
    ensures MoveBetween(MoveBetween(NodeMoves(places, x, members, k, pi), x, members[k], pi, k, Incoming),
                        members[k], x, pi, k, Outgoing)
         == NodeMoves(places, x, members, k + 1, pi)
  {
    hide NodeStep;
    var now, m := NodeMoves(places, x, members, k, pi), members[k];
    var incoming := MoveBetween(now, x, m, pi, k, Incoming);
    var outgoing := MoveBetween(incoming, m, x, pi, k, Outgoing);
    forall o | o in places
      ensures outgoing[o] == NodeStep(places[o], x, members, k + 1, pi)
    {
      NextStep(places[o], x, members, k, pi);
    }
  }

  lemma NextStep(p: Place, x: nat, members: seq<nat>, k: nat, pi: nat)
    requires k < |members| && DistinctNodes(members) && x !in members && pi !in members && x != pi
    ensures var now, m := NodeStep(p, x, members, k, pi), members[k];
            var incoming := if now.src == x && now.dst == m then Moved(now, pi, k, Incoming) else now;
            var outgoing := if incoming.src == m && incoming.dst == x then Moved(incoming, pi, k, Outgoing) else incoming;
            outgoing == NodeStep(p, x, members, k + 1, pi)
  {
    assert members[..k + 1] == members[..k] + [members[k]];
    IndexInAt(members, k);
    assert members[k] in members;
  }

  lemma SlotsKept(before: set<Edge>, after: set<Edge>, slots: map<DependenceType, Edge>, src: nat, dst: nat,
                  a: (nat, nat), b: (nat, nat))
    requires Slots(before, slots, src, dst) && OthersKept(before, after, a, b) && (src, dst) != a && (src, dst) != b
    ensures Slots(after, slots, src, dst)
  {
  }

  /** No original edge is placed between `x` and the new pi-block yet. */
  ghost predicate Untouched(places: Places, x: nat, pi: nat) {
    forall o :: o in places ==> !(places[o].src == x && places[o].dst == pi) && !(places[o].src == pi && places[o].dst == x)
  }

  lemma NoLinksYet(edges: set<Edge>, places: Places, x: nat, pi: nat)
    requires AllPlaced(edges, places) && Untouched(places, x, pi)
    ensures Slots(edges, map[], x, pi) && Slots(edges, map[], pi, x)
  {
    forall e | e in edges
      ensures !(e.src == x && e.dst == pi) && !(e.src == pi && e.dst == x)
    {
      assert HandlesPlaced(e, places);
      var h :| h in e.inlined;
    }
  }

  /** The loop over the members for one external node. */
  method ReconnectNode(g: ProgramDependencyGraph, x: nat, members: seq<nat>, pi: nat, ghost places: Places)
    requires Represents(g.edges, places) && Untouched(places, x, pi)
    requires DistinctNodes(members) && x !in members && pi !in members && x != pi
    modifies g
    ensures g.nodes == old(g.nodes) && Represents(g.edges, NodeMoves(places, x, members, |members|, pi))
  {
    hide AllPlaced, AllKept, NoRedundantEdges, OthersKept, Slots, MoveBetween, NodeMoves;
    var incoming, outgoing: map<DependenceType, Edge> := map[], map[];
    NoLinksYet(g.edges, places, x, pi);
    NoMovesYet(places, x, members, pi);
    for k := 0 to |members|
      invariant g.nodes == old(g.nodes) && Represents(g.edges, NodeMoves(places, x, members, k, pi))
      invariant Slots(g.edges, incoming, x, pi) && Slots(g.edges, outgoing, pi, x)
    {
      var m := members[k];
      assert m in members;
      ghost var before := g.edges;
      incoming := ReconnectEdges(g, x, m, pi, incoming, k, Incoming, NodeMoves(places, x, members, k, pi));
      SlotsKept(before, g.edges, outgoing, pi, x, (x, m), (x, pi));
      ghost var between := g.edges;
      outgoing := ReconnectEdges(g, m, x, pi, outgoing, k, Outgoing,
                                 MoveBetween(NodeMoves(places, x, members, k, pi), x, m, pi, k, Incoming));
      SlotsKept(between, g.edges, incoming, x, pi, (m, x), (pi, x));
      NextMember(places, x, members, k, pi);
    }
  }

  lemma NoMovesYet(places: Places, x: nat, members: seq<nat>, pi: nat)
    ensures NodeMoves(places, x, members, 0, pi) == places
  {
  }

  /** Nothing is placed at the new pi-block before its component is handled. */
  ghost predicate FreshNode(places: Places, pi: nat) {
    forall o :: o in places ==> places[o].src != pi && places[o].dst != pi
  }

  lemma NextExternal(places: Places, done: iset<nat>, x: nat, members: seq<nat>, pi: nat)
    requires FreshNode(places, pi) && x !in done && x !in members && x != pi && pi !in done && pi !in members
    ensures Untouched(SteppedAll(places, done, members, pi), x, pi)
    ensures NodeMoves(SteppedAll(places, done, members, pi), x, members, |members|, pi)
         == SteppedAll(places, done + iset{x}, members, pi)
  {
    hide Stepped, NodeStep, FreshNode;
    forall o | o in places
      ensures var p := Stepped(places[o], done, members, pi); !(p.src == x && p.dst == pi) && !(p.src == pi && p.dst == x)
      ensures NodeStep(Stepped(places[o], done, members, pi), x, members, |members|, pi)
           == Stepped(places[o], done + iset{x}, members, pi)
    {
      FreshPlace(places, o, pi);
      NextPlace(places[o], done, x, members, pi);
    }
  }

  lemma FreshPlace(places: Places, o: Dependence, pi: nat)
    requires FreshNode(places, pi) && o in places
    ensures places[o].src != pi && places[o].dst != pi
  {
  }

  lemma NextPlace(p: Place, done: iset<nat>, x: nat, members: seq<nat>, pi: nat)
    requires p.src != pi && p.dst != pi && x !in done && x !in members && x != pi && pi !in done && pi !in members
    ensures var q := Stepped(p, done, members, pi); !(q.src == x && q.dst == pi) && !(q.src == pi && q.dst == x)
    ensures NodeStep(Stepped(p, done, members, pi), x, members, |members|, pi) == Stepped(p, done + iset{x}, members, pi)
  {
    hide IndexIn;
    assert members[..|members|] == members;
  }

  /** The node list without the members of the component. */
  function Outside(nodes: seq<nat>, members: seq<nat>): seq<nat> {
    if nodes == [] then []
    else
      var n := nodes[|nodes| - 1];
      Outside(nodes[..|nodes| - 1], members) + (if n in members then [] else [n])
  }

  ghost function Others(nodes: seq<nat>, members: seq<nat>): iset<nat> {
    iset n | n in nodes && n !in members
  }

  /** The external nodes among the first `m` nodes. */
  ghost function Externals(all: seq<nat>, m: nat, members: seq<nat>, pi: nat): iset<nat>
    requires m <= |all|
  {
    iset n | n in all[..m] && n !in members && n != pi
  }

  /** The body of the loop over the components: the pi-block takes the place of its members. */
  method ContractComponent(g: ProgramDependencyGraph, members: seq<nat>, pi: nat, ghost places: Places)
    requires Represents(g.edges, places) && FreshNode(places, pi)
    requires DistinctNodes(members) && pi !in members && DistinctNodes(g.nodes + [pi])
    modifies g
    ensures g.nodes == Outside(old(g.nodes), members) + [pi]
    ensures Represents(g.edges, SteppedAll(places, Others(old(g.nodes), members), members, pi))
  {
    hide Represents, FreshNode, Untouched, NodeMoves, SteppedAll, Outside, Others, Externals, DistinctNodes;
    StartOutside(g.nodes, members, pi);
    g.nodes := g.nodes + [pi];
    ghost var all := g.nodes;
    ghost var m := 0;
    var i := 0;
    NothingStepped(places, members, pi, Externals(all, 0, members, pi));
    while i < |g.nodes|
      invariant 0 <= m <= |all| && i == |Outside(all[..m], members)|
      invariant g.nodes == Outside(all[..m], members) + all[m..]
      invariant Represents(g.edges, SteppedAll(places, Externals(all, m, members, pi), members, pi))
      decreases |all| - m
    {
      CursorStep(g.nodes, Outside(all[..m], members), all, m);
      NextExternals(all, m, members, pi);
      var x := g.nodes[i];
      if x == pi {
        i := i + 1;
      } else if x in members {
        g.nodes := g.nodes[..i] + g.nodes[i + 1..];
      } else {
        NextExternal(places, Externals(all, m, members, pi), x, members, pi);
        ReconnectNode(g, x, members, pi, SteppedAll(places, Externals(all, m, members, pi), members, pi));
        i := i + 1;
      }
      m := m + 1;
    }
    assert all[..m] == all;
  }

  /** Passing the node under the cursor, or erasing it, in a list of kept nodes followed by the rest. */
  lemma CursorStep(nodes: seq<nat>, kept: seq<nat>, all: seq<nat>, m: nat)
    requires m <= |all| && nodes == kept + all[m..] && |kept| < |nodes|
    ensures m < |all| && nodes[|kept|] == all[m]
    ensures nodes == kept + [all[m]] + all[m + 1..]
    ensures nodes[..|kept|] + nodes[|kept| + 1..] == kept + [] + all[m + 1..]
  {
  }

  lemma StartOutside(nodes: seq<nat>, members: seq<nat>, pi: nat)
    requires pi !in members && DistinctNodes(nodes + [pi])
    ensures Outside((nodes + [pi])[..0], members) == [] && Externals(nodes + [pi], 0, members, pi) == iset{}
    ensures Outside(nodes + [pi], members) == Outside(nodes, members) + [pi]
    ensures Externals(nodes + [pi], |nodes| + 1, members, pi) == Others(nodes, members)
  {
    var all := nodes + [pi];
    assert all[..|nodes|] == nodes && all[..|nodes| + 1] == all;
    forall n | n in nodes
      ensures n != pi
    {
      var i :| 0 <= i < |nodes| && nodes[i] == n;
      assert all[i] == n && all[|nodes|] == pi;
    }
  }

  lemma NothingStepped(places: Places, members: seq<nat>, pi: nat, none: iset<nat>)
    requires none == iset{}
    ensures SteppedAll(places, none, members, pi) == places
  {
  }

  lemma NextExternals(all: seq<nat>, m: nat, members: seq<nat>, pi: nat)
    requires m < |all| && DistinctNodes(all)
    ensures all[m] !in Externals(all, m, members, pi) && pi !in Externals(all, m, members, pi)
    ensures Externals(all, m + 1, members, pi) ==
              if all[m] in members || all[m] == pi then Externals(all, m, members, pi)
              else Externals(all, m, members, pi) + iset{all[m]}
    ensures Outside(all[..m + 1], members) == Outside(all[..m], members) + (if all[m] in members then [] else [all[m]])
  {
    assert all[..m + 1] == all[..m] + [all[m]];
    assert all[..m + 1][..m] == all[..m];
  }

  // ---------- All components ----------

  /** Node lists of disjoint components; the pi-block of component `j` is the node `first + j`. */
  ghost predicate Components(nodes: seq<nat>, sccs: seq<seq<nat>>, first: nat) {
    (forall n :: n in nodes ==> n < first) && Disjoint(nodes, sccs)
  }

  ghost predicate Disjoint(nodes: seq<nat>, sccs: seq<seq<nat>>) {
    sccs != [] ==>
      var last := sccs[|sccs| - 1];
      && Disjoint(nodes, sccs[..|sccs| - 1]) && DistinctNodes(last)
      && forall n :: n in last ==> n in nodes && !Contracted(sccs[..|sccs| - 1], n)
  }

  ghost predicate EndsIn(deps: set<Dependence>, nodes: seq<nat>) {
    forall o :: o in deps ==> o.src in nodes && o.dst in nodes
  }

  /** `n` lies in one of the components. */
  ghost predicate Contracted(sccs: seq<seq<nat>>, n: nat) {
    sccs != [] && (n in sccs[|sccs| - 1] || Contracted(sccs[..|sccs| - 1], n))
  }

  /** `u` and `v` lie in the same component. */
  ghost predicate Together(sccs: seq<seq<nat>>, u: nat, v: nat) {
    sccs != [] && ((u in sccs[|sccs| - 1] && v in sccs[|sccs| - 1]) || Together(sccs[..|sccs| - 1], u, v))
  }

  /** The node that stands for `n`: the pi-block of its component, or `n` itself. */
  ghost function ClassOf(sccs: seq<seq<nat>>, first: nat, n: nat): nat {
    if sccs == [] then n
    else if n in sccs[|sccs| - 1] then first + |sccs| - 1
    else ClassOf(sccs[..|sccs| - 1], first, n)
  }

  /** The ordinal of `n` in its component, zero outside of components. */
  ghost function OrdinalOf(sccs: seq<seq<nat>>, n: nat): nat {
    if sccs == [] then 0
    else if n in sccs[|sccs| - 1] then IndexIn(sccs[|sccs| - 1], n)
    else OrdinalOf(sccs[..|sccs| - 1], n)
  }

  ghost function FinalPlace(sccs: seq<seq<nat>>, first: nat, o: Dependence): Place {
    if Together(sccs, o.src, o.dst) then Place(o.src, o.dst, false, 0, 0)
    else Place(ClassOf(sccs, first, o.src), ClassOf(sccs, first, o.dst),
               Contracted(sccs, o.src) || Contracted(sccs, o.dst), OrdinalOf(sccs, o.src), OrdinalOf(sccs, o.dst))
  }

  ghost function FinalPlaces(deps: set<Dependence>, sccs: seq<seq<nat>>, first: nat): Places {
    map o | o in deps :: FinalPlace(sccs, first, o)
  }

  /** The node list after contraction. */
  ghost function NodesAfter(nodes: seq<nat>, sccs: seq<seq<nat>>, first: nat): seq<nat> {
    if sccs == [] then nodes
    else Outside(NodesAfter(nodes, sccs[..|sccs| - 1], first), sccs[|sccs| - 1]) + [first + |sccs| - 1]
  }

  lemma {:induction false} OutsideMembers(nodes: seq<nat>, members: seq<nat>)
    ensures forall n :: n in Outside(nodes, members) <==> n in nodes && n !in members
    ensures DistinctNodes(nodes) ==> DistinctNodes(Outside(nodes, members))
  {
    if nodes != [] {
      var k := |nodes| - 1;
      OutsideMembers(nodes[..k], members);
      assert nodes == nodes[..k] + [nodes[k]];
      assert DistinctNodes(nodes) ==> nodes[k] !in nodes[..k];
    }
  }

  lemma {:induction false} NodesAfterAre(nodes: seq<nat>, sccs: seq<seq<nat>>, first: nat)
    requires Components(nodes, sccs, first) && DistinctNodes(nodes)
    ensures DistinctNodes(NodesAfter(nodes, sccs, first))
    ensures forall n :: n in NodesAfter(nodes, sccs, first) <==>
                          (n in nodes && !Contracted(sccs, n)) || first <= n < first + |sccs|
  {
    hide Components, Contracted, Outside;
    if sccs != [] {
      var k := |sccs| - 1;
      ComponentFacts(nodes, sccs, first);
      NodesAfterAre(nodes, sccs[..k], first);
      OutsideMembers(NodesAfter(nodes, sccs[..k], first), sccs[k]);
      DistinctAppend(Outside(NodesAfter(nodes, sccs[..k], first), sccs[k]), first + k);
    } else {
      NoneContracted();
    }
  }

  lemma NoneContracted()
    ensures forall n :: !Contracted([], n)
  {
  }

  lemma ComponentFacts(nodes: seq<nat>, sccs: seq<seq<nat>>, first: nat)
    requires Components(nodes, sccs, first) && sccs != []
    ensures var k := |sccs| - 1;
            && Components(nodes, sccs[..k], first)
            && (forall n :: n in sccs[k] ==> n < first && !Contracted(sccs[..k], n))
            && (forall n :: n in nodes ==> n < first)
            && (forall n :: Contracted(sccs, n) <==> n in sccs[k] || Contracted(sccs[..k], n))
  {
  }

  lemma DistinctAppend(s: seq<nat>, x: nat)
    requires DistinctNodes(s) && x !in s
    ensures DistinctNodes(s + [x])
  {
  }

  lemma {:induction false} DisjointPrefix(nodes: seq<nat>, sccs: seq<seq<nat>>, j: nat)
    requires Disjoint(nodes, sccs) && j <= |sccs|
    ensures Disjoint(nodes, sccs[..j])
  {
    if j == |sccs| {
      assert sccs[..j] == sccs;
    } else {
      DisjointPrefix(nodes, sccs[..|sccs| - 1], j);
      assert sccs[..|sccs| - 1][..j] == sccs[..j];
    }
  }

  lemma {:induction false} ClassIs(sccs: seq<seq<nat>>, first: nat, n: nat)
    ensures if Contracted(sccs, n) then first <= ClassOf(sccs, first, n) < first + |sccs|
            else ClassOf(sccs, first, n) == n && OrdinalOf(sccs, n) == 0
  {
    if sccs != [] {
      ClassIs(sccs[..|sccs| - 1], first, n);
    }
  }

  lemma {:induction false} TogetherContracted(sccs: seq<seq<nat>>, u: nat, v: nat)
    requires Together(sccs, u, v)
    ensures Contracted(sccs, u) && Contracted(sccs, v)
  {
    if !(u in sccs[|sccs| - 1] && v in sccs[|sccs| - 1]) {
      TogetherContracted(sccs[..|sccs| - 1], u, v);
    }
  }

  /** Contracting one more component moves every original edge to its next place. */
  lemma PlaceStep(nodes: seq<nat>, sccs: seq<seq<nat>>, first: nat, o: Dependence)
    requires Components(nodes, sccs, first) && DistinctNodes(nodes) && sccs != []
    requires o.src in nodes && o.dst in nodes
    ensures var k := |sccs| - 1;
            Stepped(FinalPlace(sccs[..k], first, o), Others(NodesAfter(nodes, sccs[..k], first), sccs[k]), sccs[k], first + k)
            == FinalPlace(sccs, first, o)
  {
    var k := |sccs| - 1;
    var others := Others(NodesAfter(nodes, sccs[..k], first), sccs[k]);
    NodesAfterAre(nodes, sccs[..k], first);
    EndStep(nodes, sccs, first, o.src);
    EndStep(nodes, sccs, first, o.dst);
    if Together(sccs[..k], o.src, o.dst) {
      TogetherContracted(sccs[..k], o.src, o.dst);
    }
    hide NodesAfter, ClassOf, OrdinalOf, Contracted, Others, Components, DistinctNodes;
  }

  /** What one more component means for one end of an edge. */
  lemma EndStep(nodes: seq<nat>, sccs: seq<seq<nat>>, first: nat, n: nat)
    requires Components(nodes, sccs, first) && DistinctNodes(nodes) && sccs != [] && n in nodes
    ensures var k := |sccs| - 1;
            var others := Others(NodesAfter(nodes, sccs[..k], first), sccs[k]);
            var c := ClassOf(sccs[..k], first, n);
            if n in sccs[k] then
              && !Contracted(sccs[..k], n) && c == n && OrdinalOf(sccs[..k], n) == 0 && n !in others
              && Contracted(sccs, n) && ClassOf(sccs, first, n) == first + k && OrdinalOf(sccs, n) == IndexIn(sccs[k], n)
            else
              && c !in sccs[k] && (Contracted(sccs, n) <==> Contracted(sccs[..k], n))
              && c in others && (Contracted(sccs, n) ==> n !in others)
              && ClassOf(sccs, first, n) == c && OrdinalOf(sccs, n) == OrdinalOf(sccs[..k], n)
  {
    var k := |sccs| - 1;
    NodesAfterAre(nodes, sccs[..k], first);
    ClassIs(sccs[..k], first, n);
  }

  /** `createPiBlocks`: every original edge ends up, exactly once, between the classes of its ends. */
  method CreatePiBlocks(g: ProgramDependencyGraph, sccs: seq<seq<nat>>, first: nat, ghost deps: set<Dependence>)
    requires Components(g.nodes, sccs, first) && DistinctNodes(g.nodes) && EndsIn(deps, g.nodes)
    requires g.edges == set o | o in deps :: PlainEdge(o)
    modifies g
    ensures g.nodes == NodesAfter(old(g.nodes), sccs, first)
    ensures Represents(g.edges, FinalPlaces(deps, sccs, first))
  {
    hide Represents, Components, DistinctNodes, EndsIn, NodesAfter, FinalPlaces;
    ghost var nodes := g.nodes;
    InitiallyPlaced(nodes, deps, first);
    for j := 0 to |sccs|
      invariant g.nodes == NodesAfter(nodes, sccs[..j], first)
      invariant Represents(g.edges, FinalPlaces(deps, sccs[..j], first))
    {
      NodesReady(nodes, sccs, first, j);
      PlacesReady(nodes, sccs, first, deps, j);
      ContractComponent(g, sccs[j], first + j, FinalPlaces(deps, sccs[..j], first));
    }
    assert sccs[..|sccs|] == sccs;
  }

  lemma InitiallyPlaced(nodes: seq<nat>, deps: set<Dependence>, first: nat)
    ensures NodesAfter(nodes, [], first) == nodes
    ensures Represents(set o | o in deps :: PlainEdge(o), FinalPlaces(deps, [], first))
  {
    var edges := set o | o in deps :: PlainEdge(o);
    forall e | e in edges
      ensures HandlesPlaced(e, FinalPlaces(deps, [], first))
    {
      var o :| o in deps && e == PlainEdge(o);
      assert Handle(0, 0, o) in e.inlined;
    }
    forall o | o in deps
      ensures Kept(edges, o, FinalPlaces(deps, [], first)[o])
    {
      assert Keeps(PlainEdge(o), o, Place(o.src, o.dst, false, 0, 0));
    }
  }

  /** The node list when component `j` is about to be contracted. */
  lemma NodesReady(nodes: seq<nat>, sccs: seq<seq<nat>>, first: nat, j: nat)
    requires Components(nodes, sccs, first) && DistinctNodes(nodes) && j < |sccs|
    ensures Components(nodes, sccs[..j], first) && Components(nodes, sccs[..j + 1], first)
    ensures sccs[..j + 1] != [] && sccs[..j + 1][..j] == sccs[..j] && sccs[..j + 1][j] == sccs[j]
    ensures DistinctNodes(sccs[j]) && first + j !in sccs[j]
    ensures DistinctNodes(NodesAfter(nodes, sccs[..j], first) + [first + j])
    ensures NodesAfter(nodes, sccs[..j + 1], first)
         == Outside(NodesAfter(nodes, sccs[..j], first), sccs[j]) + [first + j]
  {
    assert sccs[..j + 1][..j] == sccs[..j];
    DisjointPrefix(nodes, sccs, j);
    DisjointPrefix(nodes, sccs, j + 1);
    NodesAfterAre(nodes, sccs[..j], first);
    DistinctAppend(NodesAfter(nodes, sccs[..j], first), first + j);
  }

  /** The places when component `j` is about to be contracted, and afterwards. */
  lemma PlacesReady(nodes: seq<nat>, sccs: seq<seq<nat>>, first: nat, deps: set<Dependence>, j: nat)
    requires Components(nodes, sccs, first) && DistinctNodes(nodes) && EndsIn(deps, nodes) && j < |sccs|
    ensures FreshNode(FinalPlaces(deps, sccs[..j], first), first + j)
    ensures SteppedAll(FinalPlaces(deps, sccs[..j], first), Others(NodesAfter(nodes, sccs[..j], first), sccs[j]), sccs[j], first + j)
         == FinalPlaces(deps, sccs[..j + 1], first)
  {
    hide Components, DistinctNodes, NodesAfter, Others, FinalPlace, Stepped;
    NodesReady(nodes, sccs, first, j);
    var others := Others(NodesAfter(nodes, sccs[..j], first), sccs[j]);
    forall o | o in deps
      ensures FinalPlace(sccs[..j], first, o).src != first + j && FinalPlace(sccs[..j], first, o).dst != first + j
      ensures Stepped(FinalPlace(sccs[..j], first, o), others, sccs[j], first + j) == FinalPlace(sccs[..j + 1], first, o)
    {
      PlaceIsOld(nodes, sccs[..j], first, o);
      PlaceStep(nodes, sccs[..j + 1], first, o);
    }
  }

  lemma PlaceIsOld(nodes: seq<nat>, sccs: seq<seq<nat>>, first: nat, o: Dependence)
    requires Components(nodes, sccs, first) && o.src in nodes && o.dst in nodes
    ensures FinalPlace(sccs, first, o).src < first + |sccs| && FinalPlace(sccs, first, o).dst < first + |sccs|
  {
    ClassIs(sccs, first, o.src);
    ClassIs(sccs, first, o.dst);
  }

  // ---------- What the contracted graph is ----------

  ghost function DependenceEdges(deps: set<Dependence>): iset<(nat, nat)> {
    iset e: (nat, nat) | exists o :: o in deps && o.src == e.0 && o.dst == e.1
  }

  /** The lists are exactly the non-trivial strongly connected components of the original graph. */
  ghost predicate ExactComponents(nodes: seq<nat>, deps: set<Dependence>, sccs: seq<seq<nat>>, first: nat) {
    && Components(nodes, sccs, first) && DistinctNodes(nodes) && EndsIn(deps, nodes)
    && forall u, v :: u in nodes && v in nodes && u != v ==>
         (Together(sccs, u, v) <==> Reach(DependenceEdges(deps), u, v) && Reach(DependenceEdges(deps), v, u))
  }

  /** Nodes with the same class are equal or lie in the same component. */
  lemma {:induction false} SameClass(nodes: seq<nat>, sccs: seq<seq<nat>>, first: nat, u: nat, v: nat)
    requires Components(nodes, sccs, first) && u in nodes && v in nodes
    ensures ClassOf(sccs, first, u) == ClassOf(sccs, first, v) <==> u == v || Together(sccs, u, v)
    decreases |sccs|
  {
    if sccs != [] {
      var k := |sccs| - 1;
      SameClass(nodes, sccs[..k], first, u, v);
      ClassIs(sccs[..k], first, u);
      ClassIs(sccs[..k], first, v);
      if Together(sccs[..k], u, v) {
        TogetherContracted(sccs[..k], u, v);
      }
    }
  }

  /** An original edge of type `dep` leads from a node of class `a` to a node of another class `b`. */
  ghost predicate Crosses(o: Dependence, sccs: seq<seq<nat>>, first: nat, a: nat, b: nat, dep: DependenceType) {
    o.dep == dep && ClassOf(sccs, first, o.src) == a && ClassOf(sccs, first, o.dst) == b && a != b
  }

  ghost function HandleOf(sccs: seq<seq<nat>>, o: Dependence): Handle {
    Handle(OrdinalOf(sccs, o.src), OrdinalOf(sccs, o.dst), o)
  }

  ghost predicate Links(e: Edge, a: nat, b: nat, dep: DependenceType) {
    e.src == a && e.dst == b && e.dep == dep
  }

  /** An original edge kept in an edge at a live node crosses between the classes of its ends. */
  lemma KeptCrosses(nodes: seq<nat>, deps: set<Dependence>, sccs: seq<seq<nat>>, first: nat, e: Edge, h: Handle)
    requires Components(nodes, sccs, first) && DistinctNodes(nodes) && EndsIn(deps, nodes)
    requires HandlesPlaced(e, FinalPlaces(deps, sccs, first)) && h in e.inlined
    requires e.src in NodesAfter(nodes, sccs, first) || e.dst in NodesAfter(nodes, sccs, first)
    ensures h.edge in deps && h == HandleOf(sccs, h.edge) && h.edge.dep == e.dep
    ensures ClassOf(sccs, first, h.edge.src) == e.src && ClassOf(sccs, first, h.edge.dst) == e.dst
    ensures e.complex <==> Contracted(sccs, h.edge.src) || Contracted(sccs, h.edge.dst)
    ensures e.complex <==> e.src >= first || e.dst >= first
    ensures e.src in NodesAfter(nodes, sccs, first) && e.dst in NodesAfter(nodes, sccs, first)
    ensures e.complex ==> e.src != e.dst
  {
    hide NodesAfter, ClassOf, Contracted, Together, OrdinalOf, Disjoint, DistinctNodes;
    var o := h.edge;
    assert o.src in nodes && o.dst in nodes;
    NodesAfterAre(nodes, sccs, first);
    ClassIs(sccs, first, o.src);
    ClassIs(sccs, first, o.dst);
    SameClass(nodes, sccs, first, o.src, o.dst);
    TogetherSelf(sccs, o.src);
    if Together(sccs, o.src, o.dst) {
      TogetherContracted(sccs, o.src, o.dst);
    }
  }

  lemma {:induction false} TogetherSelf(sccs: seq<seq<nat>>, u: nat)
    ensures Together(sccs, u, u) <==> Contracted(sccs, u)
  {
    if sccs != [] {
      TogetherSelf(sccs[..|sccs| - 1], u);
    }
  }

  /** An original edge that crosses between two classes is kept in an edge between their nodes. */
  lemma CrossingIsKept(nodes: seq<nat>, deps: set<Dependence>, sccs: seq<seq<nat>>, first: nat, edges: set<Edge>,
                       o: Dependence) returns (e: Edge)
    requires Components(nodes, sccs, first) && EndsIn(deps, nodes) && o in deps
    requires Represents(edges, FinalPlaces(deps, sccs, first))
    requires ClassOf(sccs, first, o.src) != ClassOf(sccs, first, o.dst)
    ensures e in edges && Links(e, ClassOf(sccs, first, o.src), ClassOf(sccs, first, o.dst), o.dep)
    ensures HandleOf(sccs, o) in e.inlined
  {
    hide AllPlaced, NoRedundantEdges;
    SameClass(nodes, sccs, first, o.src, o.dst);
    var places := FinalPlaces(deps, sccs, first);
    assert o in places && Kept(edges, o, places[o]);
    e :| e in edges && Keeps(e, o, places[o]);
  }

  /**
   The edges at a pi-block: one edge from a node to another of each type at most, there is one exactly when some
   original edge of that type crosses between the two classes, and it holds exactly these original edges.
   */
  lemma PiBlockEdges(nodes: seq<nat>, deps: set<Dependence>, sccs: seq<seq<nat>>, first: nat, edges: set<Edge>,
                     a: nat, b: nat, dep: DependenceType)
    requires Components(nodes, sccs, first) && DistinctNodes(nodes) && EndsIn(deps, nodes)
    requires Represents(edges, FinalPlaces(deps, sccs, first))
    requires a in NodesAfter(nodes, sccs, first) && b in NodesAfter(nodes, sccs, first) && (a >= first || b >= first)
    ensures forall e, f :: e in edges && f in edges && Links(e, a, b, dep) && Links(f, a, b, dep) ==> e == f
    ensures (exists e :: e in edges && Links(e, a, b, dep)) <==> exists o :: o in deps && Crosses(o, sccs, first, a, b, dep)
    ensures forall e, h :: e in edges && Links(e, a, b, dep) ==>
              (h in e.inlined <==> h.edge in deps && Crosses(h.edge, sccs, first, a, b, dep) && h == HandleOf(sccs, h.edge))
  {
    hide AllKept, Components, DistinctNodes, EndsIn, NodesAfter, FinalPlaces, ClassOf, Contracted;
    forall e, h | e in edges && Links(e, a, b, dep) && h in e.inlined
      ensures h.edge in deps && Crosses(h.edge, sccs, first, a, b, dep) && h == HandleOf(sccs, h.edge) && e.complex
    {
      assert HandlesPlaced(e, FinalPlaces(deps, sccs, first));
      KeptCrosses(nodes, deps, sccs, first, e, h);
    }
    forall e | e in edges && Links(e, a, b, dep)
      ensures e.complex && exists o :: o in deps && Crosses(o, sccs, first, a, b, dep)
    {
      assert HandlesPlaced(e, FinalPlaces(deps, sccs, first));
      var h :| h in e.inlined;
      assert Crosses(h.edge, sccs, first, a, b, dep);
    }
    forall o | o in deps && Crosses(o, sccs, first, a, b, dep)
      ensures exists e :: e in edges && Links(e, a, b, dep) && HandleOf(sccs, o) in e.inlined
    {
      var e := CrossingIsKept(nodes, deps, sccs, first, edges, o);
    }
  }

  /** Between nodes outside of all components exactly the original edges are left. */
  lemma OrdinaryEdges(nodes: seq<nat>, deps: set<Dependence>, sccs: seq<seq<nat>>, first: nat, edges: set<Edge>, e: Edge)
    requires Components(nodes, sccs, first) && DistinctNodes(nodes) && EndsIn(deps, nodes)
    requires Represents(edges, FinalPlaces(deps, sccs, first))
    requires e.src in nodes && e.dst in nodes && !Contracted(sccs, e.src) && !Contracted(sccs, e.dst)
    ensures e in edges <==> exists o :: o in deps && e == PlainEdge(o)
  {
    hide AllKept, Components, DistinctNodes, EndsIn, ClassOf, Contracted, NodesAfter, FinalPlaces;
    NodesAfterAre(nodes, sccs, first);
    BelowFirst(nodes, sccs, first, e.src);
    BelowFirst(nodes, sccs, first, e.dst);
    if e in edges {
      assert HandlesPlaced(e, FinalPlaces(deps, sccs, first));
      var h :| h in e.inlined;
      KeptCrosses(nodes, deps, sccs, first, e, h);
      assert e == PlainEdge(h.edge);
    }
    if o :| o in deps && e == PlainEdge(o) {
      OrdinaryKept(deps, sccs, first, edges, o);
    }
  }

  lemma OrdinaryKept(deps: set<Dependence>, sccs: seq<seq<nat>>, first: nat, edges: set<Edge>, o: Dependence)
    requires Represents(edges, FinalPlaces(deps, sccs, first)) && o in deps
    requires !Contracted(sccs, o.src) && !Contracted(sccs, o.dst)
    ensures PlainEdge(o) in edges
  {
    hide AllPlaced;
    var places := FinalPlaces(deps, sccs, first);
    OrdinaryPlace(sccs, first, o);
    assert o in places && Kept(edges, o, places[o]);
    var f :| f in edges && Keeps(f, o, places[o]);
    assert f == PlainEdge(o);
  }

  lemma BelowFirst(nodes: seq<nat>, sccs: seq<seq<nat>>, first: nat, n: nat)
    requires Components(nodes, sccs, first) && n in nodes
    ensures n < first
  {
  }

  lemma OrdinaryPlace(sccs: seq<seq<nat>>, first: nat, o: Dependence)
    requires !Contracted(sccs, o.src) && !Contracted(sccs, o.dst)
    ensures FinalPlace(sccs, first, o) == Place(o.src, o.dst, false, 0, 0)
  {
    ClassIs(sccs, first, o.src);
    ClassIs(sccs, first, o.dst);
    if Together(sccs, o.src, o.dst) {
      TogetherContracted(sccs, o.src, o.dst);
    }
  }

  /** The edges of the contracted graph from a live node to another node. */
  ghost function LiveEdges(edges: set<Edge>, live: seq<nat>): iset<(nat, nat)> {
    iset p: (nat, nat) | p.0 in live && p.0 != p.1 && exists e :: e in edges && e.src == p.0 && e.dst == p.1
  }

  /** A live edge between different nodes comes from an original edge between their classes. */
  lemma LiveEdgeOrigin(nodes: seq<nat>, deps: set<Dependence>, sccs: seq<seq<nat>>, first: nat, edges: set<Edge>,
                       a: nat, b: nat) returns (o: Dependence)
    requires Components(nodes, sccs, first) && DistinctNodes(nodes) && EndsIn(deps, nodes)
    requires Represents(edges, FinalPlaces(deps, sccs, first))
    requires (a, b) in LiveEdges(edges, NodesAfter(nodes, sccs, first))
    ensures o in deps && ClassOf(sccs, first, o.src) == a && ClassOf(sccs, first, o.dst) == b
  {
    hide AllKept, Components, DistinctNodes, EndsIn, NodesAfter, FinalPlaces, ClassOf, Contracted;
    var e :| e in edges && e.src == a && e.dst == b;
    assert HandlesPlaced(e, FinalPlaces(deps, sccs, first));
    var h :| h in e.inlined;
    KeptCrosses(nodes, deps, sccs, first, e, h);
    o := h.edge;
  }

  /** What reaches one node of a class reaches every node of the class. */
  lemma ReachesClass(nodes: seq<nat>, deps: set<Dependence>, sccs: seq<seq<nat>>, first: nat, u: nat, v: nat, w: nat)
    requires ExactComponents(nodes, deps, sccs, first) && v in nodes && w in nodes
    requires Reach(DependenceEdges(deps), u, v) && ClassOf(sccs, first, v) == ClassOf(sccs, first, w)
    ensures Reach(DependenceEdges(deps), u, w)
  {
    SameClass(nodes, sccs, first, v, w);
    if v != w {
      ReachTrans(DependenceEdges(deps), u, v, w);
    }
  }

  /** The nodes of the contracted graph whose whole class `u` reaches. */
  ghost function ReachedClasses(nodes: seq<nat>, deps: set<Dependence>, sccs: seq<seq<nat>>, first: nat, u: nat): iset<nat> {
    iset c: nat | ReachesAll(nodes, deps, sccs, first, u, c)
  }

  ghost predicate ReachesAll(nodes: seq<nat>, deps: set<Dependence>, sccs: seq<seq<nat>>, first: nat, u: nat, c: nat) {
    forall v :: v in nodes && ClassOf(sccs, first, v) == c ==> Reach(DependenceEdges(deps), u, v)
  }

  lemma ReachedClassesClosed(nodes: seq<nat>, deps: set<Dependence>, sccs: seq<seq<nat>>, first: nat, edges: set<Edge>, u: nat)
    requires ExactComponents(nodes, deps, sccs, first) && Represents(edges, FinalPlaces(deps, sccs, first))
    ensures Closed(LiveEdges(edges, NodesAfter(nodes, sccs, first)), ReachedClasses(nodes, deps, sccs, first, u))
  {
    hide Represents, Components, DistinctNodes, ClassOf, FinalPlaces;
    var E := DependenceEdges(deps);
    forall a: nat, b: nat | a in ReachedClasses(nodes, deps, sccs, first, u)
                            && (a, b) in LiveEdges(edges, NodesAfter(nodes, sccs, first))
      ensures b in ReachedClasses(nodes, deps, sccs, first, u)
    {
      var o := LiveEdgeOrigin(nodes, deps, sccs, first, edges, a, b);
      assert (o.src, o.dst) in E && o.src in nodes;
      ReachThen(E, u, o.src, o.dst);
      forall v | v in nodes && ClassOf(sccs, first, v) == b
        ensures Reach(E, u, v)
      {
        ReachesClass(nodes, deps, sccs, first, u, o.dst, v);
      }
    }
  }

  /** After contraction no cycle is left but edges from a node to itself. */
  lemma ContractedIsAcyclic(nodes: seq<nat>, deps: set<Dependence>, sccs: seq<seq<nat>>, first: nat, edges: set<Edge>)
    requires ExactComponents(nodes, deps, sccs, first) && Represents(edges, FinalPlaces(deps, sccs, first))
    ensures Acyclic(LiveEdges(edges, NodesAfter(nodes, sccs, first)))
  {
    hide Represents, Components, DistinctNodes, ClassOf, FinalPlaces;
    var E := DependenceEdges(deps);
    var L := LiveEdges(edges, NodesAfter(nodes, sccs, first));
    forall a: nat
      ensures !ReachPlus(L, a, a)
    {
      if ReachPlus(L, a, a) {
        var c :| (a, c) in L && Reach(L, c, a);
        var o := LiveEdgeOrigin(nodes, deps, sccs, first, edges, a, c);
        var reached := ReachedClasses(nodes, deps, sccs, first, o.dst);
        ReachRefl(E, o.dst);
        forall v | v in nodes && ClassOf(sccs, first, v) == c
          ensures Reach(E, o.dst, v)
        {
          ReachesClass(nodes, deps, sccs, first, o.dst, o.dst, v);
        }
        ReachedClassesClosed(nodes, deps, sccs, first, edges, o.dst);
        ReachClosed(L, reached, c, a);
        assert (o.src, o.dst) in E && Reach(E, o.dst, o.src);
        ReachEdge(E, o.src, o.dst);
        SameClass(nodes, sccs, first, o.src, o.dst);
      }
    }
  }
}

/**
 The one-pass solver of include/tsar/ADT/DataFlow.h: a depth-first postorder of the inverse graph,
 read backwards, and a single evaluation of each equation in that order.
 */
module TopologicalSolver {
  import opened Graphs
  import opened DataFlow

  /** `succs` lists, for each node, the nodes its value flows to: the children in `llvm::Inverse`. */
  ghost predicate Inverse(g: FlowGraph, succs: seq<seq<nat>>) {
    && |succs| == |g.children|
    && (forall n :: 0 <= n < |succs| ==> InRange(succs[n], |succs|))
    && (forall u: nat, v: nat :: u < |succs| && v < |succs| ==> (v in succs[u] <==> u in g.children[v]))
  }

  ghost predicate Distinct(post: seq<nat>) {
    forall i, j :: 0 <= i < j < |post| ==> post[i] != post[j]
  }

  /** Whatever `n` flows to is among the nodes finished before it. */
  ghost predicate FlowsInto(g: FlowGraph, n: nat, finished: set<nat>, done: seq<nat>) {
    forall w: nat :: (n, w) in g.Flow() ==> w in finished || w in done
  }

  /** Whatever a listed node flows to is in `finished` or listed before it. */
  ghost predicate PostOrdered(g: FlowGraph, finished: set<nat>, post: seq<nat>) {
    && Distinct(post)
    && (forall n :: n in post ==> n !in finished && n < |g.children|)
    && (forall i: nat :: i < |post| ==> FlowsInto(g, post[i], finished, post[..i]))
  }

  ghost predicate AllReach(g: FlowGraph, from: set<nat>, n: nat) {
    forall u :: u in from ==> Reach(g.Flow(), u, n)
  }

  ghost predicate AllReached(g: FlowGraph, n: nat, post: seq<nat>) {
    forall u :: u in post ==> Reach(g.Flow(), n, u)
  }

  ghost function Elements(post: seq<nat>): set<nat> {
    set n | n in post
  }

  lemma PostOrderConcat(g: FlowGraph, finished: set<nat>, a: seq<nat>, b: seq<nat>)
    requires PostOrdered(g, finished, a) && PostOrdered(g, finished + Elements(a), b)
    ensures PostOrdered(g, finished, a + b)
    ensures Elements(a + b) == Elements(a) + Elements(b)
  {
    var c := a + b;
    forall i, j | 0 <= i < j < |c|
      ensures c[i] != c[j]
    {
      if i < |a| <= j {
        assert a[i] in Elements(a) && b[j - |a|] in b;
      }
    }
    forall i: nat | i < |c|
      ensures FlowsInto(g, c[i], finished, c[..i])
    {
      if i < |a| {
        assert c[..i] == a[..i];
      } else {
        assert c[..i] == a + b[..i - |a|];
        assert FlowsInto(g, b[i - |a|], finished + Elements(a), b[..i - |a|]);
      }
    }
  }

  /** The end of the visit of `n`: it is listed after everything it flows to. */
  lemma PostOrderSnoc(g: FlowGraph, finished: set<nat>, a: seq<nat>, n: nat)
    requires PostOrdered(g, finished, a) && n < |g.children| && n !in finished && n !in a
    requires FlowsInto(g, n, finished, a)
    ensures PostOrdered(g, finished, a + [n])
  {
    var c := a + [n];
    forall i: nat | i < |c|
      ensures FlowsInto(g, c[i], finished, c[..i])
    {
      assert c[..i] == a[..i];
    }
  }

  /** In an acyclic graph a node never flows back to a node the search is still inside of. */
  lemma NoFlowToOpenNode(g: FlowGraph, gray: set<nat>, n: nat, c: nat)
    requires Acyclic(g.Flow()) && AllReach(g, gray, n) && (n, c) in g.Flow()
    ensures c !in gray && c != n
    ensures AllReach(g, gray + {n}, c)
  {
    forall u | u in gray + {n}
      ensures Reach(g.Flow(), u, c) && ReachPlus(g.Flow(), u, c)
    {
      ReachRefl(g.Flow(), n);
      ReachThen(g.Flow(), u, n, c);
    }
    assert n in gray + {n} && !ReachPlus(g.Flow(), c, c);
  }

  lemma ReachedThrough(g: FlowGraph, n: nat, c: nat, sub: seq<nat>)
    requires (n, c) in g.Flow() && AllReached(g, c, sub)
    ensures AllReached(g, n, sub)
  {
    forall u | u in sub
      ensures Reach(g.Flow(), n, u)
    {
      ReachEdge(g.Flow(), n, c);
      ReachTrans(g.Flow(), n, c, u);
    }
  }

  /** What `po_iterator` yields below `n`; `gray` are the nodes whose visit has not ended. */
  method PostOrder(g: FlowGraph, succs: seq<seq<nat>>, n: nat, ghost finished: set<nat>, ghost gray: set<nat>,
                   visited: set<nat>) returns (seen: set<nat>, post: seq<nat>)
    requires g.Valid() && Inverse(g, succs) && Acyclic(g.Flow())
    requires n < |succs| && n !in visited && visited == finished + gray && visited <= Graphs.Below(|succs|)
    requires AllReach(g, gray, n)
    ensures seen == visited + Elements(post) && seen <= Graphs.Below(|succs|)
    ensures PostOrdered(g, finished, post) && Elements(post) !! gray && AllReached(g, n, post)
    ensures |post| > 0 && post[|post| - 1] == n
    decreases Graphs.Below(|succs|) - visited
  {
    hide Acyclic, AllReach, Reach;
    seen, post := visited + {n}, [];
    var i := 0;
    while i < |succs[n]|
      invariant 0 <= i <= |succs[n]|
      invariant seen == visited + {n} + Elements(post) && seen <= Graphs.Below(|succs|)
      invariant PostOrdered(g, finished, post) && Elements(post) !! gray + {n} && AllReached(g, n, post)
      invariant Elements(succs[n][..i]) <= finished + Elements(post)
    {
      var c := succs[n][i];
      assert c in succs[n];
      assert (n, c) in g.Flow();
      NoFlowToOpenNode(g, gray, n, c);
      assert Elements(succs[n][..i + 1]) == Elements(succs[n][..i]) + {c};
      if c !in seen {
        var sub;
        seen, sub := PostOrder(g, succs, c, finished + Elements(post), gray + {n}, seen);
        ReachedThrough(g, n, c, sub);
        PostOrderConcat(g, finished, post, sub);
        assert c in sub;
        post := post + sub;
      }
      i := i + 1;
    }
    assert succs[n][..|succs[n]|] == succs[n];
    forall w: nat | (n, w) in g.Flow()
      ensures w in finished || w in post
    {
      assert w in Elements(succs[n]);
    }
    PostOrderSnoc(g, finished, post, n);
    ReachRefl(g.Flow(), n);
    assert Elements(post + [n]) == Elements(post) + {n};
    post := post + [n];
  }

  /** Read backwards, `post` lists every node after all nodes it takes its value from. */
  ghost predicate ReverseTopological(g: FlowGraph, post: seq<nat>) {
    && Distinct(post) && InRange(post, |g.children|)
    && (forall n: nat :: n < |g.children| ==> n in post)
    && (forall i: nat :: i < |post| ==> forall c :: c in g.children[post[i]] ==> c in post[i + 1..])
  }

  lemma PostOrderIsTopological(g: FlowGraph, post: seq<nat>)
    requires g.Valid() && PostOrdered(g, {}, post) && AllReached(g, g.entry, post) && g.entry in post
    requires forall n: nat :: n < |g.children| ==> Reach(g.Flow(), g.entry, n)
    ensures ReverseTopological(g, post)
  {
    forall n: nat | n < |g.children|
      ensures n in post
    {
      assert Closed(g.Flow(), (iset u: nat | u in post)) by {
        forall a: nat, b: nat | a in post && (a, b) in g.Flow()
          ensures b in post
        {
          var i :| 0 <= i < |post| && post[i] == a;
          assert FlowsInto(g, a, {}, post[..i]);
        }
      }
      ReachClosed(g.Flow(), (iset u: nat | u in post), g.entry, n);
    }
    forall k | 0 <= k < |post|
      ensures post[k] < |g.children|
    {
      assert post[k] in post;
    }
    forall i: nat, c | i < |post| && c in g.children[post[i]]
      ensures c in post[i + 1..]
    {
      assert (c, post[i]) in g.Flow();
      assert c < |g.children| && c in post;
      var k: nat :| k < |post| && post[k] == c;
      assert FlowsInto(g, c, {}, post[..k]);
    }
  }

  /** The vector `RPOT`: for an acyclic graph all of whose nodes are reachable, its reverse is a topological order. */
  method TopologicalOrder(g: FlowGraph, succs: seq<seq<nat>>) returns (rpot: seq<nat>)
    requires g.Valid() && Inverse(g, succs) && Acyclic(g.Flow())
    requires forall n: nat :: n < |g.children| ==> Reach(g.Flow(), g.entry, n)
    ensures ReverseTopological(g, rpot)
    ensures |rpot| > 0 && rpot[|rpot| - 1] == g.entry
  {
    var seen;
    seen, rpot := PostOrder(g, succs, g.entry, {}, {}, {});
    PostOrderIsTopological(g, rpot);
  }

  lemma {:induction false} MeetOfUnaffected<V(!new)>(fw: Framework<V>, value: seq<V>, nodes: seq<nat>, n: nat, v: V)
    requires n < |value| && InRange(nodes, |value|) && n !in nodes
    ensures MeetOf(fw, value[n := v], nodes) == MeetOf(fw, value, nodes)
  {
    if nodes != [] {
      MeetOfUnaffected(fw, value, nodes[..|nodes| - 1], n, v);
    }
  }

  /** The equations of the nodes evaluated so far hold, and the entry still has its boundary value. */
  ghost predicate SolvedOn<V(!new)>(fw: Framework<V>, g: FlowGraph, value: seq<V>, done: seq<nat>)
    requires g.Valid()
  {
    && |value| == |g.children| && value[g.entry] == fw.boundary
    && forall n: nat :: n < |g.children| && n in done && n != g.entry ==> value[n] == Equation(fw, g, value, n)
  }

  lemma SolveOneMore<V(!new)>(fw: Framework<V>, g: FlowGraph, post: seq<nat>, value: seq<V>, i: nat)
    requires g.Valid() && ReverseTopological(g, post) && i < |post| && post[i] != g.entry
    requires SolvedOn(fw, g, value, post[i + 1..])
    ensures SolvedOn(fw, g, value[post[i] := Equation(fw, g, value, post[i])], post[i..])
  {
    var n := post[i];
    var next := value[n := Equation(fw, g, value, n)];
    assert post[i..] == [n] + post[i + 1..];
    forall m: nat | m < |g.children| && m in post[i..] && m != g.entry
      ensures next[m] == Equation(fw, g, next, m)
    {
      var k: nat :| i <= k < |post| && post[k] == m;
      forall c | c in g.children[m]
        ensures c != n
      {
        assert c in post[k + 1..];
        var j :| k + 1 <= j < |post| && post[j] == c;
      }
      MeetOfUnaffected(fw, value, g.children[m], n, next[n]);
    }
  }

  /** `solveDataFlowTopologicaly`: one evaluation of each equation already solves the problem. */
  method SolveTopologically<V(!new)>(fw: Framework<V>, g: FlowGraph, succs: seq<seq<nat>>, value: array<V>)
    requires g.Valid() && Inverse(g, succs) && Acyclic(g.Flow()) && value.Length == |g.children|
    requires forall n: nat :: n < |g.children| ==> Reach(g.Flow(), g.entry, n)
    modifies value
    ensures Solution(fw, g, value[..])
  {
    var rpot := TopologicalOrder(g, succs);
    var last := |rpot| - 1;
    forall n: nat | n < |g.children| && n != g.entry
      ensures n in rpot[..last]
    {
      assert rpot[..last] + [g.entry] == rpot && n in rpot;
    }
    Initialize(fw, g, value, rpot[..last]);
    var i := last;
    while i > 0
      invariant 0 <= i <= last
      invariant SolvedOn(fw, g, value[..], rpot[i..])
    {
      i := i - 1;
      ghost var now := value[..];
      var n := rpot[i];
      assert n != rpot[last];
      var met := MeetChildren(fw, value, g.children[n]);
      SolveOneMore(fw, g, rpot, now, i);
      value[n] := fw.transfer(n, met);
      assert value[..] == now[n := Equation(fw, g, now, n)];
    }
    assert rpot[0..] == rpot;
  }

  ghost function Sources(g: FlowGraph, n: nat): set<nat> {
    set u | u in Graphs.Below(|g.children|) && ReachPlus(g.Flow(), u, n)
  }

  lemma {:induction false} UniqueAt<V(!new)>(fw: Framework<V>, g: FlowGraph, a: seq<V>, b: seq<V>, n: nat)
    requires g.Valid() && Acyclic(g.Flow()) && Solution(fw, g, a) && Solution(fw, g, b) && n < |g.children|
    ensures a[n] == b[n]
    decreases Sources(g, n), 1
  {
    if n != g.entry {
      UniqueMeet(fw, g, a, b, n, |g.children[n]|);
      assert g.children[n][..|g.children[n]|] == g.children[n];
    }
  }

  lemma {:induction false} UniqueMeet<V(!new)>(fw: Framework<V>, g: FlowGraph, a: seq<V>, b: seq<V>, n: nat, k: nat)
    requires g.Valid() && Acyclic(g.Flow()) && Solution(fw, g, a) && Solution(fw, g, b)
    requires n < |g.children| && k <= |g.children[n]|
    ensures MeetOf(fw, a, g.children[n][..k]) == MeetOf(fw, b, g.children[n][..k])
    decreases Sources(g, n), 0, k
  {
    if k > 0 {
      var c := g.children[n][k - 1];
      assert (c, n) in g.Flow();
      SourcesShrink(g, c, n);
      UniqueAt(fw, g, a, b, c);
      UniqueMeet(fw, g, a, b, n, k - 1);
      assert g.children[n][..k][..k - 1] == g.children[n][..k - 1];
    }
  }

  lemma SourcesShrink(g: FlowGraph, c: nat, n: nat)
    requires g.Valid() && Acyclic(g.Flow()) && (c, n) in g.Flow() && n < |g.children| && c < |g.children|
    ensures Sources(g, c) < Sources(g, n)
  {
    ReachRefl(g.Flow(), n);
    assert c in Sources(g, n) && c !in Sources(g, c);
    forall u | u in Sources(g, c)
      ensures u in Sources(g, n)
    {
      var d :| (u, d) in g.Flow() && Reach(g.Flow(), d, c);
      ReachThen(g.Flow(), d, c, n);
    }
  }

  /** On an acyclic graph the equations have one solution, so the one-pass solver and the iterative solver agree. */
  lemma SolversAgree<V(!new)>(fw: Framework<V>, g: FlowGraph, iterative: seq<V>, onePass: seq<V>)
    requires g.Valid() && Acyclic(g.Flow())
    requires GreatestSolution(fw, g, iterative) && Solution(fw, g, onePass)
    ensures iterative == onePass
  {
    forall n: nat | n < |g.children|
      ensures iterative[n] == onePass[n]
    {
      UniqueAt(fw, g, iterative, onePass, n);
    }
  }
}

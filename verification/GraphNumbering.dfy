/**
 The depth-first numbering of include/tsar/ADT/GraphNumbering.h.
 */
module GraphNumbering {
  import opened Trees

  /** The four numbers kept for a node. */
  datatype Numbers = Numbers(preorder: int, reversePreorder: int, postorder: int, reversePostorder: int)

  type Numbering = map<nat, Numbers>

  /** The numbers a node has to get in a graph of `size` nodes, from its places in the two orders. */
  ghost function NumbersOf(f: Forest, size: nat, n: nat): Numbers
  {
    Numbers(Pre(f, n) + 1, size - Pre(f, n), Post(f, n) + 1, size - Post(f, n))
  }

  ghost predicate Numbered(f: Forest, numbering: Numbering) {
    forall n :: n in Ids(f) ==> n in numbering && numbering[n] == NumbersOf(f, Size(f), n)
  }

  /** `DFIteratorNumberingSet`: the visited set of the iterator, which numbers what it is told about. */
  class NumberingSet {
    var visited: set<nat>
    var numbering: Numbering
    var lastPreorder: nat
    var lastReversePreorder: nat
    var lastPostorder: nat
    var lastReversePostorder: nat

    constructor (numbering: Numbering, graphSize: nat)
      ensures this.numbering == numbering && visited == {}
      ensures Counters(0, 0, graphSize)
    {
      this.numbering := numbering;
      visited := {};
      lastPreorder, lastReversePreorder := 1, graphSize;
      lastPostorder, lastReversePostorder := 1, graphSize;
    }

    /** The counters after `entered` insertions and `left` completions. */
    ghost predicate Counters(entered: nat, left: nat, size: nat)
      reads this
    {
      && entered <= size && left <= size
      && lastPreorder == entered + 1 && lastReversePreorder == size - entered
      && lastPostorder == left + 1 && lastReversePostorder == size - left
    }

    /** `NumberingTraits::get`: the stored numbers, all zero for a node seen for the first time. */
    function Get(n: nat): Numbers
      reads this
    {
      if n in numbering then numbering[n] else Numbers(0, 0, 0, 0)
    }

    method Insert(n: nat) returns (isNew: bool)
      requires lastReversePreorder > 0
      modifies this
      ensures isNew == (n !in old(visited)) && visited == old(visited) + {n}
      ensures numbering == old(numbering)[n := old(Get(n)).(preorder := old(lastPreorder),
                                                             reversePreorder := old(lastReversePreorder))]
      ensures lastPreorder == old(lastPreorder) + 1 && lastReversePreorder == old(lastReversePreorder) - 1
      ensures lastPostorder == old(lastPostorder) && lastReversePostorder == old(lastReversePostorder)
    {
      numbering := numbering[n := Get(n).(preorder := lastPreorder, reversePreorder := lastReversePreorder)];
      lastPreorder, lastReversePreorder := lastPreorder + 1, lastReversePreorder - 1;
      isNew := n !in visited;
      visited := visited + {n};
    }

    method Completed(n: nat)
      requires lastReversePostorder > 0
      modifies this
      ensures visited == old(visited)
      ensures numbering == old(numbering)[n := old(Get(n)).(postorder := old(lastPostorder),
                                                             reversePostorder := old(lastReversePostorder))]
      ensures lastPostorder == old(lastPostorder) + 1 && lastReversePostorder == old(lastReversePostorder) - 1
      ensures lastPreorder == old(lastPreorder) && lastReversePreorder == old(lastReversePreorder)
    {
      numbering := numbering[n := Get(n).(postorder := lastPostorder, reversePostorder := lastReversePostorder)];
      lastPostorder, lastReversePostorder := lastPostorder + 1, lastReversePostorder - 1;
    }

    /** The depth-first iterator over `f`: it inserts a node on the way down and completes it on the way up. */
    method Visit(f: Forest, ghost entered: nat, ghost left: nat, ghost size: nat)
      requires Distinct(f) && Ids(f) !! visited
      requires Counters(entered, left, size) && entered + Size(f) <= size && left + Size(f) <= size
      modifies this
      ensures Counters(entered + Size(f), left + Size(f), size) && visited == old(visited) + Ids(f)
      ensures forall n :: n in old(numbering) && n !in Ids(f) ==> n in numbering && numbering[n] == old(numbering)[n]
      ensures AllShifted(f, entered, left, size, numbering)
      decreases f
    {
      if f.Tree? {
        var isNew := Insert(f.node);
        assert isNew;
        Visit(f.children, entered + 1, left, size);
        Completed(f.node);
        ghost var subtree := numbering;
        Visit(f.siblings, entered + 1 + Size(f.children), left + 1 + Size(f.children), size);
        Assemble(f, entered, left, size, subtree, numbering);
      }
    }
  }

  ghost predicate AllShifted(f: Forest, entered: nat, left: nat, size: nat, numbering: Numbering) {
    forall n :: n in Ids(f) ==> n in numbering && numbering[n] == Shifted(f, entered, left, size, n)
  }

  /** The numbers of the first tree and of its siblings together. */
  lemma Assemble(f: Forest, entered: nat, left: nat, size: nat, subtree: Numbering, all: Numbering)
    requires f.Tree? && Distinct(f)
    requires f.node in subtree
    requires var k := Size(f.children);
             subtree[f.node] == Numbers(entered + 1, size - entered, left + k + 1, size - left - k)
    requires AllShifted(f.children, entered + 1, left, size, subtree)
    requires AllShifted(f.siblings, entered + 1 + Size(f.children), left + 1 + Size(f.children), size, all)
    requires forall n :: n in subtree && n !in Ids(f.siblings) ==> n in all && all[n] == subtree[n]
    ensures AllShifted(f, entered, left, size, all)
  {
    forall n | n in Ids(f)
      ensures n in all && all[n] == Shifted(f, entered, left, size, n)
    {
    }
  }

  /** The numbers of a node of `f` when `entered` and `left` nodes were numbered before `f`. */
  ghost function Shifted(f: Forest, entered: nat, left: nat, size: nat, n: nat): Numbers
  {
    Numbers(entered + Pre(f, n) + 1, size - entered - Pre(f, n), left + Post(f, n) + 1, size - left - Post(f, n))
  }

  /** `numberGraph` on a tree. */
  method NumberGraph(f: Forest, numbering: Numbering) returns (r: Numbering)
    requires Distinct(f)
    ensures Numbered(f, r)
  {
    var s := new NumberingSet(numbering, Size(f));
    s.Visit(f, 0, 0, Size(f));
    r := s.numbering;
  }

  ghost predicate IsNumber(f: Forest, number: nat -> int, k: int) {
    exists a :: a in Ids(f) && number(a) == k
  }

  ghost predicate BijectionOnto(f: Forest, number: nat -> int) {
    && (forall a, b :: a in Ids(f) && b in Ids(f) && number(a) == number(b) ==> a == b)
    && (forall a :: a in Ids(f) ==> 1 <= number(a) <= Size(f))
    && (forall k :: 1 <= k <= Size(f) ==> IsNumber(f, number, k))
  }

  /** The number of `n` in one of the four numberings; zero outside of the map. */
  function Select(numbering: Numbering, which: Numbers -> int): nat -> int {
    n => if n in numbering then which(numbering[n]) else 0
  }

  /** A numbering that counts the places of an order, upwards or downwards, is a bijection. */
  lemma PlacesBijection(f: Forest, order: seq<nat>, place: nat -> nat, number: nat -> int, up: bool)
    requires |order| == Size(f) && NoDuplicates(order) && forall n :: n in order ==> n in Ids(f)
    requires forall n :: n in Ids(f) ==> place(n) < |order| && order[place(n)] == n
    requires forall n :: n in Ids(f) ==> number(n) == if up then place(n) + 1 else Size(f) - place(n)
    ensures BijectionOnto(f, number)
  {
    forall a, b | a in Ids(f) && b in Ids(f) && number(a) == number(b)
      ensures a == b
    {
      assert order[place(a)] == a && order[place(b)] == b;
    }
    forall k | 1 <= k <= Size(f)
      ensures IsNumber(f, number, k)
    {
      var i := if up then k - 1 else Size(f) - k;
      assert order[i] in order;
      assert place(order[i]) == i;
    }
  }

  lemma EntryNumbers(f: Forest, numbering: Numbering)
    requires Distinct(f) && Numbered(f, numbering)
    ensures BijectionOnto(f, Select(numbering, (m: Numbers) => m.preorder))
    ensures BijectionOnto(f, Select(numbering, (m: Numbers) => m.reversePreorder))
  {
    OrdersListTheNodes(f);
    OrdersAreDistinct(f);
    forall n | n in Ids(f)
      ensures Pre(f, n) < Size(f) && Preorder(f)[Pre(f, n)] == n
    {
      PositionsInOrders(f, n);
    }
    PlacesBijection(f, Preorder(f), n => Pre(f, n), Select(numbering, (m: Numbers) => m.preorder), true);
    PlacesBijection(f, Preorder(f), n => Pre(f, n), Select(numbering, (m: Numbers) => m.reversePreorder), false);
  }

  lemma ExitNumbers(f: Forest, numbering: Numbering)
    requires Distinct(f) && Numbered(f, numbering)
    ensures BijectionOnto(f, Select(numbering, (m: Numbers) => m.postorder))
    ensures BijectionOnto(f, Select(numbering, (m: Numbers) => m.reversePostorder))
  {
    OrdersListTheNodes(f);
    OrdersAreDistinct(f);
    forall n | n in Ids(f)
      ensures Post(f, n) < Size(f) && Postorder(f)[Post(f, n)] == n
    {
      PositionsInOrders(f, n);
    }
    PlacesBijection(f, Postorder(f), n => Post(f, n), Select(numbering, (m: Numbers) => m.postorder), true);
    PlacesBijection(f, Postorder(f), n => Post(f, n), Select(numbering, (m: Numbers) => m.reversePostorder), false);
  }

  /** Each of the four numberings is a bijection onto 1..size. */
  lemma NumberingsAreBijections(f: Forest, numbering: Numbering)
    requires Distinct(f) && Numbered(f, numbering)
    ensures BijectionOnto(f, Select(numbering, (m: Numbers) => m.preorder))
    ensures BijectionOnto(f, Select(numbering, (m: Numbers) => m.reversePreorder))
    ensures BijectionOnto(f, Select(numbering, (m: Numbers) => m.postorder))
    ensures BijectionOnto(f, Select(numbering, (m: Numbers) => m.reversePostorder))
  {
    EntryNumbers(f, numbering);
    ExitNumbers(f, numbering);
  }
}

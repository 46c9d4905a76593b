/**
 Persistent iterators of include/tsar/ADT/PersistentIterator.h: each bucket of a map heads an intrusive
 doubly linked list of the iterators that point to it.
 */
module PersistentIterators {

  /**
   The pointer cell a `PersistentIteratorC **` leads to: the `mNext` of the iterator that holds it, the `mNext` of
   another iterator, or the list head of a bucket.
   */
  datatype Cell = Own | NextOf(it: Iterator) | HeadOf(bucket: Bucket)

  /** `PersistentBucket`: an element of the map and the head of its list of iterators. */
  class Bucket {
    const element: int
    var persistentList: Iterator?

    constructor (element: int)
      ensures this.element == element && persistentList == null
    {
      this.element := element;
      persistentList := null;
    }
  }

  /** `PersistentIteratorC`. */
  class Iterator {
    var ptr: Bucket?
    var next: Iterator?
    var prev: Cell

    /** An iterator that is in no list; `ptr` may be the mark of an empty or a tombstone iterator. */
    constructor (ptr: Bucket?)
      ensures this.ptr == ptr && next == null && !IsValid()
    {
      this.ptr, next, prev := ptr, null, Own;
    }

    predicate IsValid()
      reads this
    {
      prev != Own
    }

    method AddToList()
      requires ptr != null && ptr.persistentList != this
      modifies this, ptr, ptr.persistentList
      ensures ptr == old(ptr) && next == old(ptr.persistentList) && prev == HeadOf(ptr) && ptr.persistentList == this
      ensures next != null ==> next.prev == NextOf(this) && next.next == old(ptr.persistentList.next)
      ensures next != null ==> next.ptr == old(ptr.persistentList.ptr)
    {
      next := ptr.persistentList;
      ptr.persistentList := this;
      prev := HeadOf(ptr);
      if next != null {
        next.prev := NextOf(this);
      }
    }

    /** The object whose pointer leads to this iterator. */
    ghost function PrevOwner(): object
      reads this
    {
      match prev
      case Own => this
      case NextOf(it) => it
      case HeadOf(bucket) => bucket
    }

    method RemoveFromList()
      requires prev.NextOf? ==> prev.it != this && prev.it != next
      requires next != this
      modifies this, next, PrevOwner()
      ensures !IsValid() && ptr == old(ptr) && next == old(next)
      ensures old(prev).HeadOf? ==> old(prev).bucket.persistentList == next
      ensures old(prev).NextOf? ==> old(prev).it.next == next && old(prev).it.prev == old(prev.it.prev)
      ensures old(prev).NextOf? ==> old(prev).it.ptr == old(prev.it.ptr)
      ensures next != null ==> next.prev == old(prev) && next.next == old(next.next) && next.ptr == old(next.ptr)
    {
      match prev {
        case Own =>
        case NextOf(it) => it.next := next;
        case HeadOf(bucket) => bucket.persistentList := next;
      }
      if next != null {
        next.prev := prev;
      }
      prev := Own;
    }
  }

  // ---------- What the pointers say ----------

  /** The pointers stored in an iterator. */
  datatype Fields = Fields(ptr: Bucket?, next: Iterator?, prev: Cell)

  /** Item `i` of a list, null past its end. */
  ghost function At(s: seq<Iterator>, i: nat): Iterator? {
    if i < |s| then s[i] else null
  }

  ghost function CellBefore(b: Bucket, s: seq<Iterator>, i: nat): Cell
    requires i <= |s|
  {
    if i == 0 then HeadOf(b) else NextOf(s[i - 1])
  }

  ghost predicate Distinct(s: seq<Iterator>) {
    forall i, j :: 0 <= i < j < |s| ==> s[i] != s[j]
  }

  /** The head pointer of `b` and the pointers of the iterators make `s` the list of `b`. */
  ghost predicate Linked(b: Bucket, head: Iterator?, s: seq<Iterator>, fields: map<Iterator, Fields>) {
    && Distinct(s) && head == At(s, 0)
    && forall i: nat :: i < |s| ==>
         s[i] in fields && fields[s[i]] == Fields(b, At(s, i + 1), CellBefore(b, s, i))
  }

  /**
   All pointers of a map and its iterators, together with what they are to represent: the list of each bucket and
   the element each iterator was made for.
   */
  datatype State = State(heads: map<Bucket, Iterator?>, fields: map<Iterator, Fields>,
                         lists: map<Bucket, seq<Iterator>>, made: map<Iterator, int>)

  /** A valid iterator is in the list of the bucket it points to, and this bucket holds its element. */
  ghost predicate Attached(st: State, it: Iterator)
    requires it in st.fields && it in st.made
  {
    var b := st.fields[it].ptr;
    b != null && b in st.lists && it in st.lists[b] && b.element == st.made[it]
  }

  ghost predicate ListsLinked(st: State) {
    st.lists.Keys == st.heads.Keys && forall b :: b in st.lists ==> Linked(b, st.heads[b], st.lists[b], st.fields)
  }

  /** Each bucket's list is a finite, duplicate-free, back-linked list of exactly the valid iterators that point to it. */
  ghost predicate Consistent(st: State) {
    && ListsLinked(st) && st.made.Keys == st.fields.Keys
    && forall it :: it in st.fields && st.fields[it].prev != Own ==> Attached(st, it)
  }

  /** The lists hold exactly the valid iterators, each in the list of its bucket. */
  lemma ListMembers(st: State, b: Bucket, it: Iterator)
    requires Consistent(st) && b in st.lists && it in st.fields
    ensures it in st.lists[b] <==> st.fields[it].prev != Own && st.fields[it].ptr == b
    ensures it in st.lists[b] ==> st.made[it] == b.element
  {
    if it in st.lists[b] {
      var i: nat :| i < |st.lists[b]| && st.lists[b][i] == it;
      assert st.fields[it] == Fields(b, At(st.lists[b], i + 1), CellBefore(b, st.lists[b], i));
    }
  }

  // ---------- Adding to the front of a list ----------

  /** What `addToList` does to the pointers. */
  ghost function Pushed(st: State, it: Iterator, b: Bucket): State
    requires it in st.fields && b in st.heads && b in st.lists
    requires st.heads[b] != null ==> st.heads[b] in st.fields
  {
    var head := st.heads[b];
    var linked := st.fields[it := Fields(b, head, HeadOf(b))];
    State(st.heads[b := it],
          if head == null then linked else linked[head := st.fields[head].(prev := NextOf(it))],
          st.lists[b := [it] + st.lists[b]],
          st.made[it := b.element])
  }

  lemma PushedParts(st: State, it: Iterator, b: Bucket)
    requires it in st.fields && b in st.heads && b in st.lists
    requires st.heads[b] != null ==> st.heads[b] in st.fields
    ensures var head := st.heads[b];
            var linked := st.fields[it := Fields(b, head, HeadOf(b))];
            Pushed(st, it, b) == State(st.heads[b := it],
                                       if head == null then linked else linked[head := st.fields[head].(prev := NextOf(it))],
                                       st.lists[b := [it] + st.lists[b]], st.made[it := b.element])
  {
  }

  lemma HeadInFields(st: State, b: Bucket)
    requires ListsLinked(st) && b in st.lists
    ensures st.heads[b] != null ==> st.lists[b] != [] && st.heads[b] == st.lists[b][0] && st.heads[b] in st.fields
    ensures st.heads[b] == null ==> st.lists[b] == []
  {
    assert Linked(b, st.heads[b], st.lists[b], st.fields);
    if st.lists[b] != [] {
      assert st.lists[b][0] in st.fields;
    }
  }

  /** The head of a list is not the head of its own rest. */
  lemma ListBehind(st: State, b: Bucket)
    requires ListsLinked(st) && b in st.lists && b in st.heads && st.heads[b] != null
    ensures st.heads[b] in st.fields && st.fields[st.heads[b]].prev != Own
  {
    assert Linked(b, st.heads[b], st.lists[b], st.fields);
  }

  lemma PushedList(st: State, it: Iterator, b: Bucket)
    requires Consistent(st) && it in st.fields && st.fields[it].prev == Own && b in st.lists
    requires st.heads[b] != null ==> st.heads[b] in st.fields
    ensures var next := Pushed(st, it, b);
            forall c :: c in next.lists ==> Linked(c, next.heads[c], next.lists[c], next.fields)
  {
    var next := Pushed(st, it, b);
    HeadInFields(st, b);
    forall c | c in next.lists
      ensures Linked(c, next.heads[c], next.lists[c], next.fields)
    {
      var s := st.lists[c];
      assert Linked(c, st.heads[c], s, st.fields);
      ListMembers(st, c, it);
      if c == b {
        PushedFront(b, s, it, st.heads[b], st.fields, next.fields);
      } else {
        if st.heads[b] != null {
          ListMembers(st, c, st.heads[b]);
          ListMembers(st, b, st.heads[b]);
        }
      }
    }
  }

  lemma PushedFront(b: Bucket, s: seq<Iterator>, it: Iterator, head: Iterator?, before: map<Iterator, Fields>,
                    after: map<Iterator, Fields>)
    requires Linked(b, head, s, before) && it !in s
    requires it in after && after[it] == Fields(b, head, HeadOf(b))
    requires s != [] ==> s[0] in after && after[s[0]] == before[s[0]].(prev := NextOf(it))
    requires forall i: nat :: 0 < i < |s| ==> s[i] in after && after[s[i]] == before[s[i]]
    ensures Linked(b, it, [it] + s, after)
  {
    var t := [it] + s;
    forall i: nat | i < |t|
      ensures t[i] in after && after[t[i]] == Fields(b, At(t, i + 1), CellBefore(b, t, i))
    {
      if i > 0 {
        assert t[i] == s[i - 1];
      }
    }
  }

  /** Adding an iterator that is in no list keeps everything consistent. */
  lemma PushKeeps(st: State, it: Iterator, b: Bucket)
    requires Consistent(st) && it in st.fields && st.fields[it].prev == Own && b in st.lists
    requires st.heads[b] != null ==> st.heads[b] in st.fields
    ensures Consistent(Pushed(st, it, b))
  {
    var next := Pushed(st, it, b);
    PushedList(st, it, b);
    HeadInFields(st, b);
    forall j | j in next.fields && next.fields[j].prev != Own
      ensures Attached(next, j)
    {
      if j != it {
        if j == st.heads[b] {
          ListMembers(st, b, j);
        }
        assert Attached(st, j);
      }
    }
  }

  // ---------- Removing from a list ----------

  ghost function PositionIn(s: seq<Iterator>, it: Iterator): (k: nat)
    ensures k <= |s| && (k < |s| <==> it in s) && (k < |s| ==> s[k] == it)
    ensures it !in s[..k]
  {
    if s == [] then 0 else if s[0] == it then 0 else 1 + PositionIn(s[1..], it)
  }

  ghost function Without(s: seq<Iterator>, it: Iterator): seq<Iterator> {
    var k := PositionIn(s, it);
    if k < |s| then s[..k] + s[k + 1..] else s
  }

  /** The lists when an iterator has left the one it was in. */
  ghost function Detached(lists: map<Bucket, seq<Iterator>>, it: Iterator, ptr: Bucket?): map<Bucket, seq<Iterator>> {
    if ptr != null && ptr in lists then lists[ptr := Without(lists[ptr], it)] else lists
  }

  /** The pointers of the iterators after `removeFromList`. */
  ghost function Unlinked(fields: map<Iterator, Fields>, it: Iterator): (r: map<Iterator, Fields>)
    requires it in fields
    requires fields[it].prev.NextOf? ==> fields[it].prev.it in fields
    requires fields[it].next != null ==> fields[it].next in fields
    ensures r.Keys == fields.Keys
  {
    var f := fields[it];
    var f1 := if f.prev.NextOf? then fields[f.prev.it := fields[f.prev.it].(next := f.next)] else fields;
    var f2 := if f.next != null then f1[f.next := f1[f.next].(prev := f.prev)] else f1;
    f2[it := f2[it].(prev := Own)]
  }

  /** `Unlinked` changes the iterator and its two neighbours. */
  lemma ClosedGap(before: map<Iterator, Fields>, now: map<Iterator, Fields>, it: Iterator)
    requires now.Keys == before.Keys && it in before && now[it] == before[it].(prev := Own)
    requires var p := before[it].prev; p.NextOf? ==>
               p.it != it && p.it in before && now[p.it] == before[p.it].(next := before[it].next)
    requires var n := before[it].next; n != null ==>
               n != it && n in before && before[it].prev != NextOf(n) && now[n] == before[n].(prev := before[it].prev)
    requires forall j :: j in before && j != it && j != before[it].next && before[it].prev != NextOf(j) ==> now[j] == before[j]
    ensures now == Unlinked(before, it)
  {
  }

  /** The cells an iterator refers to belong to known objects. */
  ghost predicate Surrounded(st: State, it: Iterator) {
    && it in st.fields
    && (st.fields[it].prev.NextOf? ==> st.fields[it].prev.it in st.fields)
    && (st.fields[it].prev.HeadOf? ==> st.fields[it].prev.bucket in st.heads)
    && (st.fields[it].next != null ==> st.fields[it].next in st.fields)
  }

  ghost function Dropped(st: State, it: Iterator, b: Bucket): State
    requires Surrounded(st, it) && b in st.lists
  {
    var f := st.fields[it];
    State(if f.prev.HeadOf? then st.heads[f.prev.bucket := f.next] else st.heads,
          Unlinked(st.fields, it), st.lists[b := Without(st.lists[b], it)], st.made)
  }

  lemma DroppedParts(st: State, it: Iterator, b: Bucket)
    requires Surrounded(st, it) && b in st.lists
    ensures var f := st.fields[it];
            Dropped(st, it, b) == State(if f.prev.HeadOf? then st.heads[f.prev.bucket := f.next] else st.heads,
                                        Unlinked(st.fields, it), st.lists[b := Without(st.lists[b], it)], st.made)
  {
  }

  lemma ListSurrounds(st: State, it: Iterator, b: Bucket)
    requires ListsLinked(st) && b in st.lists && it in st.lists[b]
    ensures Surrounded(st, it) && st.fields[it].ptr == b && st.fields[it].prev != Own
    ensures st.fields[it].prev.HeadOf? ==> st.fields[it].prev.bucket == b
    ensures st.fields[it].prev.NextOf? ==>
              st.fields[it].prev.it in st.lists[b] && st.fields[it].prev.it != it && st.fields[it].prev.it != st.fields[it].next
    ensures st.fields[it].next != null ==> st.fields[it].next in st.lists[b] && st.fields[it].next != it
  {
    var s := st.lists[b];
    assert Linked(b, st.heads[b], s, st.fields);
    var k := PositionIn(s, it);
    assert st.fields[s[k]] == Fields(b, At(s, k + 1), CellBefore(b, s, k));
  }

  /** What the removal of `it` does to the pointers of `x`. */
  lemma UnlinkedAt(fields: map<Iterator, Fields>, it: Iterator, x: Iterator)
    requires it in fields && x in fields && x != it
    requires fields[it].prev.NextOf? ==> fields[it].prev.it in fields
    requires fields[it].next != null ==> fields[it].next in fields
    ensures Unlinked(fields, it)[x]
         == Fields(fields[x].ptr, if fields[it].prev == NextOf(x) then fields[it].next else fields[x].next,
                   if fields[it].next == x then fields[it].prev else fields[x].prev)
  {
  }

  /** The pointers of the item `j` after the item `k` has been removed. */
  lemma DroppedAt(b: Bucket, head: Iterator?, s: seq<Iterator>, fields: map<Iterator, Fields>, k: nat, j: nat)
    requires Linked(b, head, s, fields) && k < |s| && j < |s| && j != k
    requires fields[s[k]].prev.NextOf? ==> fields[s[k]].prev.it in fields
    requires fields[s[k]].next != null ==> fields[s[k]].next in fields
    ensures s[j] in Unlinked(fields, s[k])
    ensures Unlinked(fields, s[k])[s[j]] == Fields(b, if j + 1 == k then At(s, k + 1) else At(s, j + 1),
                                                   if j == k + 1 then CellBefore(b, s, k) else CellBefore(b, s, j))
  {
    hide Unlinked;
    assert fields[s[k]] == Fields(b, At(s, k + 1), CellBefore(b, s, k));
    assert fields[s[j]] == Fields(b, At(s, j + 1), CellBefore(b, s, j));
    UnlinkedAt(fields, s[k], s[j]);
    assert CellBefore(b, s, k) == NextOf(s[j]) <==> j + 1 == k;
    assert At(s, k + 1) == s[j] <==> j == k + 1;
  }

  /** A list without its item `k`, item by item. */
  lemma Spliced(b: Bucket, s: seq<Iterator>, k: nat, i: nat)
    requires k < |s| && i < |s| - 1
    ensures var t := s[..k] + s[k + 1..];
            var j := if i < k then i else i + 1;
            && t[i] == s[j]
            && At(t, i + 1) == (if j + 1 == k then At(s, k + 1) else At(s, j + 1))
            && CellBefore(b, t, i) == (if j == k + 1 then CellBefore(b, s, k) else CellBefore(b, s, j))
  {
  }

  lemma HeadAfter(b: Bucket, s: seq<Iterator>, k: nat)
    requires k < |s|
    ensures At(s[..k] + s[k + 1..], 0) == if k == 0 then At(s, 1) else At(s, 0)
    ensures Distinct(s) ==> Distinct(s[..k] + s[k + 1..])
  {
  }

  lemma DroppedItem(b: Bucket, head: Iterator?, s: seq<Iterator>, fields: map<Iterator, Fields>, k: nat)
    requires Linked(b, head, s, fields) && k < |s|
    requires fields[s[k]].prev.NextOf? ==> fields[s[k]].prev.it in fields
    requires fields[s[k]].next != null ==> fields[s[k]].next in fields
    ensures Linked(b, if k == 0 then fields[s[k]].next else head, s[..k] + s[k + 1..], Unlinked(fields, s[k]))
  {
    hide Unlinked, At, CellBefore;
    var t := s[..k] + s[k + 1..];
    HeadAfter(b, s, k);
    var after := Unlinked(fields, s[k]);
    assert fields[s[k]] == Fields(b, At(s, k + 1), CellBefore(b, s, k));
    forall i: nat | i < |t|
      ensures t[i] in after && after[t[i]] == Fields(b, At(t, i + 1), CellBefore(b, t, i))
    {
      Spliced(b, s, k, i);
      DroppedAt(b, head, s, fields, k, if i < k then i else i + 1);
    }
  }

  lemma DropOther(st: State, it: Iterator, b: Bucket, c: Bucket)
    requires Consistent(st) && b in st.lists && c in st.lists && it in st.lists[b] && c != b
    requires Surrounded(st, it)
    ensures Linked(c, st.heads[c], st.lists[c], Unlinked(st.fields, it))
  {
    ListSurrounds(st, it, b);
    assert Linked(c, st.heads[c], st.lists[c], st.fields);
    forall i: nat | i < |st.lists[c]|
      ensures st.lists[c][i] !in st.lists[b]
    {
      var j := st.lists[c][i];
      assert st.fields[j].ptr == c;
      ListMembers(st, b, j);
    }
  }

  lemma DropOwn(st: State, it: Iterator, b: Bucket)
    requires Consistent(st) && b in st.lists && it in st.lists[b] && Surrounded(st, it)
    ensures var next := Dropped(st, it, b);
            next.heads.Keys == st.heads.Keys && Linked(b, next.heads[b], next.lists[b], next.fields)
    ensures forall c :: c in st.heads && c != b ==> Dropped(st, it, b).heads[c] == st.heads[c]
  {
    hide Unlinked;
    var s := st.lists[b];
    var k := PositionIn(s, it);
    ListSurrounds(st, it, b);
    assert Linked(b, st.heads[b], s, st.fields);
    assert st.fields[s[k]] == Fields(b, At(s, k + 1), CellBefore(b, s, k));
    DroppedItem(b, st.heads[b], s, st.fields, k);
  }

  /** Removing an iterator from its list keeps everything consistent. */
  lemma DropKeeps(st: State, it: Iterator, b: Bucket)
    requires Consistent(st) && b in st.lists && it in st.lists[b] && Surrounded(st, it)
    ensures Consistent(Dropped(st, it, b))
  {
    hide Linked, Attached;
    var next := Dropped(st, it, b);
    DropOwn(st, it, b);
    forall c | c in next.lists
      ensures Linked(c, next.heads[c], next.lists[c], next.fields)
    {
      if c != b {
        DropOther(st, it, b, c);
      }
    }
    forall j | j in next.fields && next.fields[j].prev != Own
      ensures Attached(next, j)
    {
      DroppedOthers(st, it, b, j);
    }
  }

  /** The other iterators keep their bucket and stay in a list. */
  lemma DroppedKeepsOthers(st: State, it: Iterator, b: Bucket, j: Iterator)
    requires Consistent(st) && b in st.lists && it in st.lists[b] && Surrounded(st, it) && j in st.fields && j != it
    ensures var f := Dropped(st, it, b).fields;
            f[j].ptr == st.fields[j].ptr && (f[j].prev == Own <==> st.fields[j].prev == Own)
  {
    ListSurrounds(st, it, b);
    ListMembers(st, b, j);
  }

  lemma WithoutKeeps(s: seq<Iterator>, it: Iterator, j: Iterator)
    requires j in s && j != it
    ensures j in Without(s, it)
  {
    var k, m := PositionIn(s, it), PositionIn(s, j);
    if k < |s| {
      assert (s[..k] + s[k + 1..])[if m < k then m else m - 1] == j;
    }
  }

  lemma DroppedOthers(st: State, it: Iterator, b: Bucket, j: Iterator)
    requires Consistent(st) && b in st.lists && it in st.lists[b] && Surrounded(st, it)
    requires j in st.fields && Unlinked(st.fields, it)[j].prev != Own
    ensures Attached(Dropped(st, it, b), j)
  {
    hide Linked, Without;
    ListSurrounds(st, it, b);
    if st.fields[it].next == j {
      ListMembers(st, b, j);
    }
    assert j != it && Attached(st, j);
    if st.fields[j].ptr == b {
      WithoutKeeps(st.lists[b], it, j);
    }
  }

  // ---------- Moving a bucket ----------

  /** The pointers after the list of `b` has been handed over to the new bucket `nb`. */
  ghost function HandedOver(fields: map<Iterator, Fields>, s: seq<Iterator>, nb: Bucket): map<Iterator, Fields> {
    map it | it in fields ::
      if it !in s then fields[it]
      else if it == s[0] then fields[it].(ptr := nb, prev := HeadOf(nb)) else fields[it].(ptr := nb)
  }

  ghost function Moved(st: State, b: Bucket, nb: Bucket): State
    requires b in st.lists && b in st.heads
  {
    State(st.heads[b := null][nb := st.heads[b]], HandedOver(st.fields, st.lists[b], nb),
          st.lists[b := []][nb := st.lists[b]], st.made)
  }

  lemma MovedParts(st: State, b: Bucket, nb: Bucket)
    requires b in st.lists && b in st.heads
    ensures Moved(st, b, nb) == State(st.heads[b := null][nb := st.heads[b]], HandedOver(st.fields, st.lists[b], nb),
                                      st.lists[b := []][nb := st.lists[b]], st.made)
  {
  }

  /** The bucket move keeps everything consistent: every iterator of the list now points to the new bucket. */
  lemma MoveKeeps(st: State, b: Bucket, nb: Bucket)
    requires Consistent(st) && b in st.lists && nb !in st.lists && nb.element == b.element
    ensures Consistent(Moved(st, b, nb))
  {
    hide Linked;
    var next := Moved(st, b, nb);
    var s := st.lists[b];
    forall c | c in next.lists
      ensures Linked(c, next.heads[c], next.lists[c], next.fields)
    {
      if c == nb {
        MoveOwn(st, b, nb);
      } else if c == b {
        NothingLinked(b, next.fields);
      } else {
        MoveOther(st, b, nb, c);
      }
    }
    forall j | j in next.fields && next.fields[j].prev != Own
      ensures Attached(next, j)
    {
      ListMembers(st, b, j);
      if j in s {
        assert Attached(next, j);
      } else {
        assert Attached(st, j);
      }
    }
  }

  lemma NothingLinked(b: Bucket, fields: map<Iterator, Fields>)
    ensures Linked(b, null, [], fields)
  {
  }

  lemma MoveOwn(st: State, b: Bucket, nb: Bucket)
    requires ListsLinked(st) && b in st.lists
    ensures Linked(nb, st.heads[b], st.lists[b], HandedOver(st.fields, st.lists[b], nb))
  {
    var s := st.lists[b];
    assert Linked(b, st.heads[b], s, st.fields);
    forall i: nat | i < |s|
      ensures var f := HandedOver(st.fields, s, nb); s[i] in f && f[s[i]] == Fields(nb, At(s, i + 1), CellBefore(nb, s, i))
    {
      assert st.fields[s[i]] == Fields(b, At(s, i + 1), CellBefore(b, s, i));
    }
  }

  lemma MovedOthers(st: State, b: Bucket, nb: Bucket, j: Iterator)
    requires Consistent(st) && b in st.lists && b in st.heads && j in st.fields
    ensures var f := Moved(st, b, nb).fields;
            && j in f && f[j].ptr == (if j in st.lists[b] then nb else st.fields[j].ptr)
            && (f[j].prev == Own <==> st.fields[j].prev == Own)
  {
    ListMembers(st, b, j);
  }

  lemma NothingHandedOver(fields: map<Iterator, Fields>, nb: Bucket)
    ensures HandedOver(fields, [], nb) == fields
  {
  }

  lemma TakenOver(s: seq<Iterator>, nb: Bucket, before: map<Iterator, Fields>, now: map<Iterator, Fields>)
    requires now.Keys == before.Keys
    requires forall it :: it in before ==> now[it].next == before[it].next
    requires forall it :: it in before ==> now[it].ptr == if it in s then nb else before[it].ptr
    requires forall it :: it in before ==> now[it].prev == if s != [] && it == s[0] then HeadOf(nb) else before[it].prev
    ensures now == HandedOver(before, s, nb)
  {
  }

  lemma MovedLists(st: State, b: Bucket, nb: Bucket)
    requires b in st.lists && b in st.heads
    ensures var next := Moved(st, b, nb);
            next.lists == st.lists[b := []][nb := st.lists[b]] && next.made == st.made
  {
  }

  lemma MoveOther(st: State, b: Bucket, nb: Bucket, c: Bucket)
    requires Consistent(st) && b in st.lists && c in st.lists && c != b
    ensures Linked(c, st.heads[c], st.lists[c], HandedOver(st.fields, st.lists[b], nb))
  {
    assert Linked(c, st.heads[c], st.lists[c], st.fields);
    forall i: nat | i < |st.lists[c]|
      ensures st.lists[c][i] !in st.lists[b]
    {
      var j := st.lists[c][i];
      assert st.fields[j].ptr == c;
      ListMembers(st, b, j);
    }
  }

  // ---------- Copy assignment ----------

  /** Where the pointers of an iterator lead. */
  lemma Bearings(st: State, it: Iterator)
    requires Consistent(st) && it in st.fields
    ensures Surrounded(st, it) || st.fields[it].prev == Own
    ensures st.fields[it].prev != Own ==>
              var b := st.fields[it].ptr; b != null && b in st.lists && b in st.heads && it in st.lists[b]
    ensures st.fields[it].prev != Own ==> var b := st.fields[it].ptr; st.heads[b] != null ==> st.heads[b] in st.fields
    ensures st.fields[it].prev.NextOf? ==>
              st.fields[it].prev.it != it && st.fields[it].prev.it != st.fields[it].next
    ensures st.fields[it].prev != Own ==> st.fields[it].next != it
  {
    if st.fields[it].prev != Own {
      assert Attached(st, it);
      ListSurrounds(st, it, st.fields[it].ptr);
      HeadInFields(st, st.fields[it].ptr);
    }
  }

  /** An iterator does not head the list of a bucket it does not point to. */
  lemma HeadElsewhere(st: State, it: Iterator, b: Bucket)
    requires Consistent(st) && it in st.fields && b in st.lists && st.fields[it].ptr != b
    ensures b in st.heads && st.heads[b] != it
  {
    HeadInFields(st, b);
    ListMembers(st, b, it);
  }

  /** What the copy assignment `it = source` does to the pointers. */
  ghost function CopyAssigned(st: State, it: Iterator, source: Iterator): State
    requires Consistent(st) && it in st.fields && source in st.fields
  {
    var target, from := st.fields[it], st.fields[source];
    Bearings(st, it);
    Bearings(st, source);
    if from.prev != Own then
      if target.ptr == from.ptr then st else Pushed(st, it, from.ptr)
    else
      var redirected := st.(fields := st.fields[it := target.(ptr := from.ptr)]);
      if target.prev != Own then Dropped(redirected, it, target.ptr) else redirected
  }

  /** What an assignment is for: the target denotes what the source denotes, and all lists are in order. */
  ghost predicate Assigned(st: State, next: State, it: Iterator, source: Iterator)
    requires source in st.fields
  {
    && Consistent(next) && it in next.fields
    && next.fields[it].ptr == st.fields[source].ptr
    && (next.fields[it].prev == Own <==> st.fields[source].prev == Own)
  }

  /**
   The copy assignment does what it is for exactly when the source is invalid, or the target is valid and already
   points to the bucket of the source, or the target is invalid and points elsewhere. A valid target that points to
   another bucket is linked into its new list but is not taken out of its old one, and an invalid target that still
   points to the bucket of the source stays invalid: then no `lists` and `made` make sense of the pointers.
   */
  lemma AssignmentWorks(st: State, it: Iterator, source: Iterator, lists: map<Bucket, seq<Iterator>>, made: map<Iterator, int>)
    requires Consistent(st) && it in st.fields && source in st.fields
    ensures var target, from := st.fields[it], st.fields[source];
            var next := CopyAssigned(st, it, source);
            if from.prev == Own || (target.prev != Own <==> target.ptr == from.ptr)
            then Assigned(st, next, it, source)
            else !Assigned(st, next.(lists := lists, made := made), it, source)
  {
    hide Linked, ListsLinked, Consistent, Unlinked, Without;
    var target, from := st.fields[it], st.fields[source];
    Bearings(st, it);
    Bearings(st, source);
    if from.prev == Own {
      DetachKeeps(st, it, from.ptr);
    } else if target.ptr == from.ptr {
    } else if target.prev == Own {
      HeadElsewhere(st, it, from.ptr);
      PushKeeps(st, it, from.ptr);
    } else {
      HeadElsewhere(st, it, from.ptr);
      LinkedTwice(st, it, from.ptr, lists, made);
    }
  }

  lemma DetachKeeps(st: State, it: Iterator, ptr: Bucket?)
    requires Consistent(st) && it in st.fields
    requires Surrounded(st, it) || st.fields[it].prev == Own
    requires st.fields[it].prev != Own ==>
               var b := st.fields[it].ptr; b != null && b in st.lists && b in st.heads && it in st.lists[b]
    ensures var redirected := st.(fields := st.fields[it := st.fields[it].(ptr := ptr)]);
            var next := if st.fields[it].prev != Own then Dropped(redirected, it, st.fields[it].ptr) else redirected;
            Consistent(next) && it in next.fields && next.fields[it].ptr == ptr && next.fields[it].prev == Own
  {
    hide Consistent, Dropped, Linked, ListsLinked, Attached;
    if st.fields[it].prev != Own {
      var b := st.fields[it].ptr;
      DropKeeps(st, it, b);
      DroppedPointers(st, it, b, ptr);
      var dropped := Dropped(st, it, b);
      AddInvalidKeeps(dropped, it, dropped.fields[it].(ptr := ptr), dropped.made[it]);
    } else {
      StateShape(st);
      AddInvalidKeeps(st, it, st.fields[it].(ptr := ptr), st.made[it]);
      assert st.made == st.made[it := st.made[it]];
    }
  }

  /** It does not matter whether the bucket pointer is changed before or after the removal. */
  lemma DroppedPointers(st: State, it: Iterator, b: Bucket, ptr: Bucket?)
    requires Consistent(st) && Surrounded(st, it) && b in st.lists && it in st.lists[b]
    ensures var dropped := Dropped(st, it, b);
            && it in dropped.fields && it in dropped.made && dropped.fields[it].prev == Own
            && Dropped(st.(fields := st.fields[it := st.fields[it].(ptr := ptr)]), it, b)
               == dropped.(fields := dropped.fields[it := dropped.fields[it].(ptr := ptr)],
                           made := dropped.made[it := dropped.made[it]])
  {
    hide Linked, Without;
    ListSurrounds(st, it, b);
    var redirected := st.(fields := st.fields[it := st.fields[it].(ptr := ptr)]);
    var dropped := Dropped(st, it, b);
    assert Dropped(redirected, it, b).fields == dropped.fields[it := dropped.fields[it].(ptr := ptr)];
    assert dropped.made == dropped.made[it := dropped.made[it]];
  }

  /** An iterator that heads a second list is still reached from its first one, whose bucket it no longer points to. */
  lemma LinkedTwice(st: State, it: Iterator, b: Bucket, lists: map<Bucket, seq<Iterator>>, made: map<Iterator, int>)
    requires Consistent(st) && it in st.fields && st.fields[it].prev != Own && st.fields[it].ptr != b
    requires b in st.lists && b in st.heads && st.heads[b] != it && (st.heads[b] != null ==> st.heads[b] in st.fields)
    ensures var next := Pushed(st, it, b); !Consistent(State(next.heads, next.fields, lists, made))
  {
    hide Consistent, Linked, Attached, Pushed;
    var next := Pushed(st, it, b);
    var claim := State(next.heads, next.fields, lists, made);
    PushedPointers(st, it, b);
    Bearings(st, it);
    var was := st.fields[it].ptr;
    StateShape(st);
    Predecessor(st, it, was);
    if Consistent(claim) {
      StateShape(claim);
      if st.heads[was] == it {
        HeadElsewhere(claim, it, was);
      } else {
        var p := st.fields[it].prev.it;
        ListMembers(st, was, p);
        HeadElsewhere(st, p, b);
        Bearings(claim, p);
        NextInList(claim, was, p);
        ListMembers(claim, was, it);
      }
    }
  }

  /** Whatever leads to an iterator of a list. */
  lemma Predecessor(st: State, it: Iterator, b: Bucket)
    requires ListsLinked(st) && b in st.lists && it in st.lists[b]
    ensures it in st.fields && (st.heads[b] == it || st.fields[it].prev.NextOf?)
    ensures st.heads[b] != it ==>
              var p := st.fields[it].prev.it; p in st.lists[b] && p in st.fields && st.fields[p].next == it && p != it
  {
    var s := st.lists[b];
    assert Linked(b, st.heads[b], s, st.fields);
    var k := PositionIn(s, it);
    assert st.fields[s[k]] == Fields(b, At(s, k + 1), CellBefore(b, s, k));
    if k > 0 {
      assert st.fields[s[k - 1]] == Fields(b, At(s, k), CellBefore(b, s, k - 1));
    }
  }

  /** Adding to a list sets the bucket pointer anyway. */
  lemma PushedRedirected(st: State, it: Iterator, b: Bucket)
    requires it in st.fields && b in st.heads && b in st.lists
    requires st.heads[b] != null ==> st.heads[b] in st.fields && st.heads[b] != it
    ensures Pushed(st.(fields := st.fields[it := st.fields[it].(ptr := b)]), it, b) == Pushed(st, it, b)
  {
    var redirected := st.(fields := st.fields[it := st.fields[it].(ptr := b)]);
    assert Pushed(redirected, it, b).fields == Pushed(st, it, b).fields;
  }

  lemma PushedPointers(st: State, it: Iterator, b: Bucket)
    requires it in st.fields && b in st.heads && b in st.lists
    requires st.heads[b] != null ==> st.heads[b] in st.fields && st.heads[b] != it
    ensures var next := Pushed(st, it, b);
            && next.heads == st.heads[b := it] && next.fields.Keys == st.fields.Keys
            && next.fields[it] == Fields(b, st.heads[b], HeadOf(b))
            && forall p :: p in st.fields && p != it && p != st.heads[b] ==> next.fields[p] == st.fields[p]
  {
  }

  lemma NextInList(st: State, b: Bucket, p: Iterator)
    requires Consistent(st) && b in st.lists && p in st.lists[b]
    ensures p in st.fields && (st.fields[p].next != null ==> st.fields[p].next in st.lists[b])
  {
    ListSurrounds(st, p, b);
  }

  // ---------- The map and its iterators ----------

  ghost function HeadsOf(buckets: set<Bucket>): map<Bucket, Iterator?>
    reads buckets
  {
    map b | b in buckets :: b.persistentList
  }

  ghost function FieldsOf(iterators: set<Iterator>): map<Iterator, Fields>
    reads iterators
  {
    map it | it in iterators :: Fields(it.ptr, it.next, it.prev)
  }

  /** All buckets of a map and all iterators into it; the ghost fields say what the pointers represent. */
  class Pool {
    ghost var buckets: set<Bucket>
    ghost var iterators: set<Iterator>
    ghost var lists: map<Bucket, seq<Iterator>>
    ghost var made: map<Iterator, int>

    /** The pointers as they are now. */
    ghost function Current(): State
      reads this, buckets, iterators
    {
      State(HeadsOf(buckets), FieldsOf(iterators), lists, made)
    }

    ghost predicate Valid()
      reads this, buckets, iterators
    {
      Consistent(Current())
    }

    constructor ()
      ensures Valid() && buckets == {} && iterators == {}
    {
      buckets, iterators, lists, made := {}, {}, map[], map[];
    }

    /** The bucket of a new element. */
    method NewBucket(element: int) returns (b: Bucket)
      requires Valid()
      modifies this
      ensures Valid() && fresh(b) && b.element == element && b.persistentList == null
      ensures buckets == old(buckets) + {b} && iterators == old(iterators)
      ensures lists == old(lists)[b := []] && made == old(made)
    {
      hide Consistent;
      b := new Bucket(element);
      AddBucketKeeps(Current(), b);
      buckets, lists := buckets + {b}, lists[b := []];
      assert Current().heads == old(Current()).heads[b := null];
      assert Current().fields == old(Current()).fields;
    }

    /** `PersistentIteratorC(Ptr)`: an iterator that is in no list. */
    method NewInvalid(ptr: Bucket?) returns (it: Iterator)
      requires Valid()
      modifies this
      ensures Valid() && fresh(it) && !it.IsValid() && it.ptr == ptr
      ensures buckets == old(buckets) && iterators == old(iterators) + {it}
      ensures lists == old(lists) && made == old(made)[it := 0]
    {
      hide Consistent;
      it := new Iterator(ptr);
      AddInvalidKeeps(Current(), it, Fields(ptr, null, Own), 0);
      iterators, made := iterators + {it}, made[it := 0];
      assert Current().heads == old(Current()).heads;
      assert Current().fields == old(Current()).fields[it := Fields(ptr, null, Own)];
    }

    /** `addToList` puts the pointers into the state `Pushed`. */
    method Push(it: Iterator)
      requires it in iterators && it.ptr != null && it.ptr in buckets && it.ptr in lists
      requires it.ptr.persistentList != null ==> it.ptr.persistentList in iterators - {it}
      modifies this, buckets, iterators
      ensures buckets == old(buckets) && iterators == old(iterators)
      ensures it.IsValid() && it.ptr == old(it.ptr)
      ensures Current() == Pushed(old(Current()), it, it.ptr)
    {
      hide Pushed;
      ghost var b := it.ptr;
      ghost var before := Current();
      ghost var head := before.heads[b];
      it.AddToList();
      lists, made := lists[b := [it] + lists[b]], made[it := b.element];
      assert HeadsOf(buckets) == before.heads[b := it];
      ghost var linked := before.fields[it := Fields(b, head, HeadOf(b))];
      assert FieldsOf(iterators) == if head == null then linked else linked[head := before.fields[head].(prev := NextOf(it))];
      PushedParts(before, it, b);
    }

    /** `addToList` for an iterator that is in no list. */
    method Link(it: Iterator)
      requires Valid() && it in iterators && !it.IsValid() && it.ptr != null && it.ptr in buckets
      modifies this, buckets, iterators
      ensures Valid() && buckets == old(buckets) && iterators == old(iterators)
      ensures it.IsValid() && it.ptr == old(it.ptr) && it.ptr in old(lists)
      ensures lists == old(lists)[it.ptr := [it] + old(lists)[it.ptr]] && made == old(made)[it := it.ptr.element]
      ensures forall j :: j in iterators && j != it ==> j.ptr == old(j.ptr) && j.IsValid() == old(j.IsValid())
    {
      hide Consistent, Linked, Attached, ListsLinked;
      ghost var b := it.ptr;
      ghost var before := Current();
      StateShape(before);
      HeadInFields(before, b);
      PushKeeps(before, it, b);
      if before.heads[b] != null {
        ListBehind(before, b);
      }
      Push(it);
      forall j | j in iterators && j != it
        ensures j.ptr == old(j.ptr) && j.IsValid() == old(j.IsValid())
      {
        SameIterator(before, Current(), j);
      }
    }

    /** `removeFromList` puts the pointers into the state `Dropped`. */
    method Drop(it: Iterator, ghost b: Bucket)
      requires it in iterators && b in lists && Surrounded(Current(), it)
      requires it.prev.NextOf? ==> it.prev.it != it && it.prev.it != it.next
      requires it.next != it
      modifies this, buckets, iterators
      ensures buckets == old(buckets) && iterators == old(iterators)
      ensures !it.IsValid() && it.ptr == old(it.ptr)
      ensures old(Surrounded(Current(), it)) && Current() == Dropped(old(Current()), it, b)
    {
      hide Without, Unlinked, Dropped;
      ghost var before := Current();
      ghost var f := before.fields[it];
      it.RemoveFromList();
      lists := lists[b := Without(lists[b], it)];
      assert HeadsOf(buckets) == if f.prev.HeadOf? then before.heads[f.prev.bucket := f.next] else before.heads;
      ClosedGap(before.fields, FieldsOf(iterators), it);
      DroppedParts(before, it, b);
    }

    /** `removeFromList` for a valid iterator. */
    method Unlink(it: Iterator)
      requires Valid() && it in iterators && it.IsValid()
      modifies this, buckets, iterators
      ensures Valid() && buckets == old(buckets) && iterators == old(iterators) && made == old(made)
      ensures !it.IsValid() && it.ptr == old(it.ptr) && it.ptr != null && it.ptr in buckets && it.ptr in old(lists)
      ensures lists == old(lists)[it.ptr := Without(old(lists)[it.ptr], it)]
      ensures forall j :: j in iterators && j != it ==> j.ptr == old(j.ptr) && j.IsValid() == old(j.IsValid())
    {
      hide Consistent, Linked, ListsLinked, Without, Unlinked, Surrounded;
      ghost var before := Current();
      StateShape(before);
      assert Attached(before, it);
      ghost var b := it.ptr;
      ListSurrounds(before, it, b);
      DropKeeps(before, it, b);
      Drop(it, b);
      forall j | j in iterators && j != it
        ensures j.ptr == old(j.ptr) && j.IsValid() == old(j.IsValid())
      {
        DroppedKeepsOthers(before, it, b, j);
        SameIterator(before, Current(), j);
      }
    }

    /** The pointers of an iterator as the state shows them. */
    lemma SameIterator(before: State, now: State, j: Iterator)
      requires j in iterators && now == Current() && j in before.fields
      ensures j in now.fields && now.fields[j] == Fields(j.ptr, j.next, j.prev)
    {
    }

    /** A valid iterator is in the list of its bucket and denotes the element it was made for. */
    lemma ValidIsAttached(it: Iterator)
      requires Valid() && it in iterators
      ensures it in made
      ensures it.IsValid() ==> it.ptr != null && it.ptr in buckets && it.ptr in lists && it in lists[it.ptr]
      ensures it.IsValid() ==> it.ptr.element == made[it]
    {
      assert it.IsValid() ==> Attached(Current(), it);
    }

    /** Construction from an iterator of the map, which points to the bucket `b`. */
    method FromMap(b: Bucket) returns (it: Iterator)
      requires Valid() && b in buckets
      modifies this, buckets, iterators
      ensures Valid() && fresh(it) && it.IsValid() && it.ptr == b && b in old(lists)
      ensures buckets == old(buckets) && iterators == old(iterators) + {it}
      ensures lists == old(lists)[b := [it] + old(lists)[b]] && made == old(made)[it := b.element]
      ensures forall j :: j in old(iterators) ==> j.ptr == old(j.ptr) && j.IsValid() == old(j.IsValid())
    {
      hide Valid;
      it := NewInvalid(b);
      Link(it);
      assert made == old(made)[it := b.element];
    }

    /** Copy construction: a second iterator for the element of the source. */
    method CopyConstruct(source: Iterator) returns (it: Iterator)
      requires Valid() && source in iterators
      modifies this, buckets, iterators
      ensures Valid() && fresh(it) && buckets == old(buckets) && iterators == old(iterators) + {it}
      ensures it.ptr == source.ptr && it.IsValid() == old(source.IsValid())
      ensures source in old(made) && made == old(made)[it := if it.IsValid() then old(made)[source] else 0]
      ensures it.IsValid() ==> it.ptr != null && it.ptr in old(lists) && lists == old(lists)[it.ptr := [it] + old(lists)[it.ptr]]
      ensures !it.IsValid() ==> lists == old(lists)
      ensures forall j :: j in old(iterators) ==> j.ptr == old(j.ptr) && j.IsValid() == old(j.IsValid())
    {
      hide Valid;
      ValidIsAttached(source);
      it := NewInvalid(source.ptr);
      if source.IsValid() {
        Link(it);
      }
      assert made == old(made)[it := if it.IsValid() then old(made)[source] else 0];
    }

    /** Move construction: the new iterator takes the place of the source, which becomes invalid. */
    method MoveConstruct(source: Iterator) returns (it: Iterator)
      requires Valid() && source in iterators
      modifies this, buckets, iterators
      ensures Valid() && fresh(it) && buckets == old(buckets) && iterators == old(iterators) + {it}
      ensures !source.IsValid() && it.ptr == source.ptr == old(source.ptr) && it.IsValid() == old(source.IsValid())
      ensures source in old(made) && made == old(made)[it := if it.IsValid() then old(made)[source] else 0]
      ensures it.IsValid() ==> it.ptr != null && it.ptr in old(lists)
      ensures it.IsValid() ==> lists == old(lists)[it.ptr := [it] + Without(old(lists)[it.ptr], source)]
      ensures !it.IsValid() ==> lists == old(lists)
      ensures forall j :: j in old(iterators) - {source} ==> j.ptr == old(j.ptr) && j.IsValid() == old(j.IsValid())
    {
      hide Valid, Without;
      ValidIsAttached(source);
      it := NewInvalid(source.ptr);
      if source.IsValid() {
        Link(it);
        Unlink(source);
        WithoutBehindFront(it, old(lists)[it.ptr], source);
      }
      assert made == old(made)[it := if it.IsValid() then old(made)[source] else 0];
    }

    /** Destruction. */
    method Destroy(it: Iterator)
      requires Valid() && it in iterators
      modifies this, buckets, iterators
      ensures Valid() && buckets == old(buckets) && iterators == old(iterators) - {it} && made == old(made) - {it}
      ensures it.ptr == old(it.ptr) && (old(it.IsValid()) ==> it.ptr != null && it.ptr in old(lists))
      ensures old(it.IsValid()) ==> lists == old(lists)[it.ptr := Without(old(lists)[it.ptr], it)]
      ensures !old(it.IsValid()) ==> lists == old(lists)
      ensures forall j :: j in iterators ==> j.ptr == old(j.ptr) && j.IsValid() == old(j.IsValid())
    {
      hide Valid, Without;
      ValidIsAttached(it);
      if it.IsValid() {
        Unlink(it);
      }
      Forget(it);
    }

    /** An invalid iterator goes away. */
    ghost method Forget(it: Iterator)
      requires Valid() && it in iterators && !it.IsValid()
      modifies this
      ensures Valid() && buckets == old(buckets) && iterators == old(iterators) - {it}
      ensures lists == old(lists) && made == old(made) - {it}
    {
      hide Consistent;
      ghost var before := Current();
      ForgetKeeps(before, it);
      iterators, made := iterators - {it}, made - {it};
      assert Current().heads == before.heads && Current().fields == before.fields - {it};
    }

    /** A new bucket pointer. */
    method SetBucket(it: Iterator, ptr: Bucket?)
      requires it in iterators
      modifies it`ptr
      ensures it.ptr == ptr
      ensures it in old(Current()).fields
      ensures Current() == old(Current()).(fields := old(Current()).fields[it := old(Current()).fields[it].(ptr := ptr)])
    {
      it.ptr := ptr;
      assert HeadsOf(buckets) == old(HeadsOf(buckets));
      assert FieldsOf(iterators) == old(FieldsOf(iterators))[it := old(FieldsOf(iterators))[it].(ptr := ptr)];
    }

    /** An invalid iterator may be set to any bucket. */
    method SetPtr(it: Iterator, ptr: Bucket?)
      requires Valid() && it in iterators && !it.IsValid()
      modifies it`ptr
      ensures Valid() && it.ptr == ptr
    {
      hide Consistent;
      ghost var before := Current();
      StateShape(before);
      AddInvalidKeeps(before, it, Fields(ptr, it.next, Own), made[it]);
      SetBucket(it, ptr);
      assert made == made[it := made[it]];
    }

    /** Copy assignment, for any two iterators; `AssignmentWorks` says when its outcome is the intended one. */
    method CopyAssign(it: Iterator, source: Iterator)
      requires Valid() && it in iterators && source in iterators
      modifies this, buckets, iterators
      ensures buckets == old(buckets) && iterators == old(iterators)
      ensures Current() == CopyAssigned(old(Current()), it, source)
    {
      hide Consistent, Linked, ListsLinked, Without, Unlinked, Pushed, Dropped, FieldsOf, HeadsOf;
      ghost var before := Current();
      ShownFields(it);
      ShownFields(source);
      Bearings(before, it);
      Bearings(before, source);
      if source.IsValid() {
        if it.ptr != source.ptr {
          HeadElsewhere(before, it, source.ptr);
          ShownHead(source.ptr);
          SetBucket(it, source.ptr);
          PushedRedirected(before, it, source.ptr);
          Push(it);
        }
      } else {
        ghost var b := it.ptr;
        SetBucket(it, source.ptr);
        if it.IsValid() {
          Drop(it, b);
        }
      }
    }

    lemma ShownFields(it: Iterator)
      requires it in iterators
      ensures it in Current().fields && Current().fields[it] == Fields(it.ptr, it.next, it.prev)
    {
    }

    lemma ShownHead(b: Bucket)
      requires b in Current().heads
      ensures b in buckets && Current().heads[b] == b.persistentList && Current().fields.Keys == iterators
    {
    }

    /** Assignment from an iterator of the map, which points to the bucket `b`. */
    method AssignFromMap(it: Iterator, b: Bucket)
      requires Valid() && it in iterators && b in buckets
      modifies this, buckets, iterators
      ensures Valid() && buckets == old(buckets) && iterators == old(iterators)
      ensures it.IsValid() && it.ptr == b && made == old(made)[it := b.element]
      ensures old(it.IsValid() ==> it.ptr != null && it.ptr in lists)
      ensures var rest := if old(it.IsValid()) then Detached(old(lists), it, old(it.ptr)) else old(lists);
              b in rest && lists == rest[b := [it] + rest[b]]
      ensures forall j :: j in iterators && j != it ==> j.ptr == old(j.ptr) && j.IsValid() == old(j.IsValid())
    {
      hide Valid, Without;
      ValidIsAttached(it);
      if it.IsValid() {
        Unlink(it);
      }
      SetPtr(it, b);
      Link(it);
    }

    /** The list head moves to the new bucket. */
    method TakeHead(b: Bucket, nb: Bucket)
      requires b in buckets && nb !in buckets
      modifies `buckets, nb, b
      ensures buckets == old(buckets) + {nb}
      ensures nb.persistentList == old(b.persistentList) && b.persistentList == null
      ensures HeadsOf(buckets) == old(HeadsOf(buckets))[b := null][nb := old(b.persistentList)]
    {
      nb.persistentList := b.persistentList;
      b.persistentList := null;
      buckets := buckets + {nb};
    }

    /** The pointer updates of the bucket move put the pointers into the state `Moved`. */
    method HandOver(b: Bucket, nb: Bucket)
      requires b in buckets && b in lists && nb !in buckets && nb.persistentList == null
      requires b.persistentList == At(lists[b], 0) && Chain(lists[b], iterators)
      modifies this, nb, b, iterators`ptr, iterators`prev
      ensures buckets == old(buckets) + {nb} && iterators == old(iterators) && b.persistentList == null
      ensures Current() == Moved(old(Current()), b, nb)
    {
      hide Chain, FieldsOf, HandedOver, CellBefore, Moved;
      ghost var before := Current();
      ghost var s := lists[b];
      TakeHead(b, nb);
      lists := lists[b := []][nb := s];
      if nb.persistentList != null {
        Redirect(nb.persistentList, s, nb, iterators);
      } else {
        NothingHandedOver(before.fields, nb);
      }
      assert FieldsOf(iterators) == HandedOver(before.fields, s, nb);
      MovedParts(before, b, nb);
    }

    /** `PersistentValueWrapper(PersistentValueWrapper &&)`: the list moves to a new bucket. */
    method MoveBucket(b: Bucket) returns (nb: Bucket)
      requires Valid() && b in buckets
      modifies this, buckets, iterators
      ensures Valid() && fresh(nb) && nb.element == b.element && b.persistentList == null
      ensures buckets == old(buckets) + {nb} && iterators == old(iterators) && made == old(made)
      ensures b in old(lists) && lists == old(lists)[b := []][nb := old(lists)[b]]
      ensures forall j :: j in iterators ==>
                j.IsValid() == old(j.IsValid()) && j.ptr == if old(j.IsValid() && j.ptr == b) then nb else old(j.ptr)
    {
      hide Consistent, Moved;
      ghost var before := Current();
      BucketList(before, b);
      nb := new Bucket(b.element);
      MoveKeeps(before, b, nb);
      assert before == Current();
      BucketItems(b);
      HandOver(b, nb);
      MovedLists(before, b, nb);
      forall j | j in iterators
        ensures j.IsValid() == old(j.IsValid()) && j.ptr == if old(j.IsValid() && j.ptr == b) then nb else old(j.ptr)
      {
        ListMembers(before, b, j);
        MovedOthers(before, b, nb, j);
        SameIterator(before, Current(), j);
      }
    }

    /** The list of a bucket, item by item. */
    lemma BucketItems(b: Bucket)
      requires Valid() && b in buckets
      ensures b in lists && b.persistentList == At(lists[b], 0) && Chain(lists[b], iterators)
    {
      hide Consistent;
      ghost var st := Current();
      BucketList(st, b);
      forall i: nat | i < |lists[b]|
        ensures lists[b][i] in iterators && lists[b][i].next == At(lists[b], i + 1)
      {
        assert st.fields[lists[b][i]] == Fields(b, At(lists[b], i + 1), CellBefore(b, lists[b], i));
      }
    }

    /** `~PersistentValueWrapper`: all iterators of the bucket become invalid, the others stay as they are. */
    method DestroyBucket(b: Bucket)
      requires Valid() && b in buckets
      modifies this, buckets, iterators
      ensures Valid() && buckets == old(buckets) - {b} && iterators == old(iterators) && made == old(made)
      ensures b in old(lists) && lists == old(lists) - {b}
      ensures forall j :: j in iterators ==> j.ptr == old(j.ptr) && j.IsValid() == old(j.IsValid() && j.ptr != b)
    {
      hide Valid, Without;
      FrontItem(b);
      Members(b);
      ghost var s := lists[b];
      ghost var gone := 0;
      while b.persistentList != null
        invariant Valid() && b in buckets && b in lists
        invariant buckets == old(buckets) && iterators == old(iterators) && made == old(made)
        invariant gone <= |s| && lists[b] == s[gone..] && lists == old(lists)[b := lists[b]]
        invariant forall j :: j in iterators ==> j.ptr == old(j.ptr)
        invariant forall j :: j in iterators && j !in s ==> j.IsValid() == old(j.IsValid())
        invariant forall k: nat :: k < gone ==> !s[k].IsValid()
        decreases |lists[b]|
      {
        DropFront(b, s, gone);
        gone := gone + 1;
      }
      FrontItem(b);
      ForgetBucket(b);
    }

    /** The list of a bucket holds exactly the valid iterators that point to it. */
    lemma Members(b: Bucket)
      requires Valid() && b in buckets
      ensures b in lists && forall j :: j in iterators ==> (j in lists[b] <==> j.IsValid() && j.ptr == b)
    {
      hide Consistent;
      BucketList(Current(), b);
      forall j | j in iterators
        ensures j in lists[b] <==> j.IsValid() && j.ptr == b
      {
        ListMembers(Current(), b, j);
      }
    }

    /** A bucket is moved to its new place and destroyed at its old one. */
    method Relocate(b: Bucket) returns (nb: Bucket)
      requires Valid() && b in buckets
      modifies this, buckets, iterators
      ensures Valid() && fresh(nb) && nb.element == b.element
      ensures buckets == old(buckets) + {nb} - {b} && iterators == old(iterators) && made == old(made)
      ensures forall j :: j in iterators ==> j.IsValid() == old(j.IsValid())
      ensures Pointers(iterators).Keys == old(Pointers(iterators)).Keys
      ensures forall j :: j in Pointers(iterators) ==>
                Pointers(iterators)[j] == if old(Pointers(iterators))[j] == b then nb else old(Pointers(iterators))[j]
    {
      hide Valid;
      nb := MoveBucket(b);
      DestroyBucket(b);
    }

    /**
     Growing the map: every bucket is moved to its new place and destroyed at its old one. Valid iterators stay valid
     and go on denoting the element they were made for.
     */
    method Rehash(bs: seq<Bucket>) returns (nbs: seq<Bucket>)
      requires Valid() && (forall b :: b in bs ==> b in buckets) && forall i, k :: 0 <= i < k < |bs| ==> bs[i] != bs[k]
      modifies this, buckets, iterators
      ensures Valid() && iterators == old(iterators) && made == old(made)
      ensures |nbs| == |bs| && forall k :: 0 <= k < |bs| ==> fresh(nbs[k]) && nbs[k].element == bs[k].element
      ensures buckets == old(buckets) - (set b | b in bs) + (set b | b in nbs)
      ensures forall j :: j in iterators ==> j.IsValid() == old(j.IsValid())
      ensures Followed(old(Pointers(iterators)), Pointers(iterators), bs, nbs)
      ensures forall j :: j in iterators && j.IsValid() ==> j in made && j.ptr != null && j.ptr.element == made[j]
    {
      hide Valid, Followed;
      NothingFollowed(Pointers(iterators), bs);
      nbs := [];
      while |nbs| < |bs|
        invariant |nbs| <= |bs| && Valid() && iterators == old(iterators) && made == old(made)
        invariant buckets == old(buckets) - (set b | b in bs[..|nbs|]) + (set b | b in nbs)
        invariant forall k :: 0 <= k < |nbs| ==> fresh(nbs[k]) && nbs[k].element == bs[k].element
        invariant forall j :: j in iterators ==> j.IsValid() == old(j.IsValid())
        invariant Followed(old(Pointers(iterators)), Pointers(iterators), bs, nbs)
      {
        ghost var b, nbs0, now := bs[|nbs|], nbs, Pointers(iterators);
        var nb := Relocate(bs[|nbs|]);
        nbs := nbs + [nb];
        FollowedStep(old(Pointers(iterators)), now, Pointers(iterators), bs, nbs0, nb);
        assert bs[..|nbs|] == bs[..|nbs0|] + [b];
      }
      assert bs[..|nbs|] == bs;
      ValidDenote();
    }

    /** Every valid iterator denotes the element it was made for. */
    lemma ValidDenote()
      requires Valid()
      ensures forall j :: j in iterators && j.IsValid() ==> j in made && j.ptr != null && j.ptr.element == made[j]
    {
      hide Valid;
      forall j | j in iterators && j.IsValid()
        ensures j in made && j.ptr != null && j.ptr.element == made[j]
      {
        ValidIsAttached(j);
      }
    }

    /** One round of the loop: the first iterator of the list becomes invalid. */
    method DropFront(b: Bucket, ghost s: seq<Iterator>, ghost gone: nat)
      requires Valid() && b in buckets && b in lists && b.persistentList != null
      requires gone <= |s| && lists[b] == s[gone..]
      modifies this, buckets, iterators
      ensures Valid() && buckets == old(buckets) && iterators == old(iterators) && made == old(made)
      ensures gone < |s| && s[gone] in iterators && !s[gone].IsValid()
      ensures b in lists && lists[b] == s[gone + 1..] && lists == old(lists)[b := lists[b]]
      ensures forall j :: j in iterators ==> j.ptr == old(j.ptr)
      ensures forall j :: j in iterators && j != s[gone] ==> j.IsValid() == old(j.IsValid())
    {
      hide Valid, Without;
      FrontItem(b);
      assert s[gone..][1..] == s[gone + 1..];
      WithoutFront(s[gone..], b.persistentList);
      Unlink(b.persistentList);
    }

    lemma FrontItem(b: Bucket)
      requires Valid() && b in buckets
      ensures b in lists && (b.persistentList == null <==> lists[b] == [])
      ensures b.persistentList != null ==>
                var it := lists[b][0]; b.persistentList == it && it in iterators && it.IsValid() && it.ptr == b
    {
      hide Consistent;
      BucketList(Current(), b);
    }

    /** A bucket with an empty list goes away. */
    ghost method ForgetBucket(b: Bucket)
      requires Valid() && b in buckets && b in lists && lists[b] == []
      modifies this
      ensures Valid() && buckets == old(buckets) - {b} && iterators == old(iterators)
      ensures lists == old(lists) - {b} && made == old(made)
    {
      hide Consistent;
      ghost var before := Current();
      ForgetBucketKeeps(before, b);
      buckets, lists := buckets - {b}, lists - {b};
      assert Current().heads == before.heads - {b} && Current().fields == before.fields;
    }
  }

  /** The buckets the valid iterators point to. */
  ghost function Pointers(iterators: set<Iterator>): map<Iterator, Bucket?>
    reads iterators
  {
    map it | it in iterators && it.IsValid() :: it.ptr
  }

  /** Every pointer to one of the first buckets has become one to the new bucket, and the others are what they were. */
  ghost predicate Followed(was: map<Iterator, Bucket?>, now: map<Iterator, Bucket?>, bs: seq<Bucket>, nbs: seq<Bucket>)
    requires |nbs| <= |bs|
  {
    && was.Keys == now.Keys
    && (forall j, k :: j in was && 0 <= k < |nbs| && was[j] == bs[k] ==> now[j] == nbs[k])
    && (forall j :: j in was && (forall k :: 0 <= k < |nbs| ==> was[j] != bs[k]) ==> now[j] == was[j])
  }

  lemma NothingFollowed(now: map<Iterator, Bucket?>, bs: seq<Bucket>)
    ensures Followed(now, now, bs, [])
  {
  }

  lemma FollowedStep(was: map<Iterator, Bucket?>, now: map<Iterator, Bucket?>, next: map<Iterator, Bucket?>,
                     bs: seq<Bucket>, nbs: seq<Bucket>, nb: Bucket)
    requires |nbs| < |bs| && Followed(was, now, bs, nbs) && now.Keys == next.Keys
    requires forall i, k :: 0 <= i < k < |bs| ==> bs[i] != bs[k]
    requires forall i, k :: 0 <= i < |nbs| && 0 <= k < |bs| ==> nbs[i] != bs[k]
    requires forall j :: j in now ==> next[j] == if now[j] == bs[|nbs|] then nb else now[j]
    ensures Followed(was, next, bs, nbs + [nb])
  {
  }

  /** The head pointer of a bucket and the ends of its list. */
  lemma BucketList(st: State, b: Bucket)
    requires Consistent(st) && b in st.heads
    ensures b in st.lists && Linked(b, st.heads[b], st.lists[b], st.fields)
    ensures st.heads[b] == null <==> st.lists[b] == []
    ensures st.heads[b] != null ==> st.heads[b] == st.lists[b][0] && st.heads[b] in st.fields
    ensures st.heads[b] != null ==> st.fields[st.heads[b]].prev != Own && st.fields[st.heads[b]].ptr == b
    ensures forall it :: it in st.fields && it !in st.lists[b] && st.fields[it].prev != Own ==> st.fields[it].ptr != b
  {
    HeadInFields(st, b);
    forall it | it in st.fields && it !in st.lists[b] && st.fields[it].prev != Own
      ensures st.fields[it].ptr != b
    {
      ListMembers(st, b, it);
    }
  }

  /** The `next` pointers follow `s`. */
  ghost predicate Chain(s: seq<Iterator>, its: set<Iterator>)
    reads its
  {
    Distinct(s) && forall i: nat :: i < |s| ==> s[i] in its && s[i].next == At(s, i + 1)
  }

  /** The first iterator of a moved list learns its new list head, and all of them learn their new bucket. */
  method Redirect(head: Iterator, ghost s: seq<Iterator>, nb: Bucket, ghost its: set<Iterator>)
    requires s != [] && s[0] == head && Chain(s, its)
    modifies its`ptr, its`prev
    ensures FieldsOf(its) == HandedOver(old(FieldsOf(its)), s, nb)
  {
    ghost var before := FieldsOf(its);
    head.prev := HeadOf(nb);
    head.ptr := nb;
    var curr := head.next;
    ghost var i := 1;
    while curr != null
      invariant 1 <= i <= |s| && curr == At(s, i)
      invariant forall it :: it in its ==> it.ptr == if it in s[..i] then nb else old(it.ptr)
      decreases |s| - i
      modifies its`ptr
    {
      ItemIndex(s, i);
      curr.ptr := nb;
      curr := curr.next;
      i := i + 1;
    }
    assert s[..|s|] == s;
    TakenOver(s, nb, before, FieldsOf(its));
  }

  lemma WithoutFront(s: seq<Iterator>, it: Iterator)
    requires s != [] && s[0] == it
    ensures Without(s, it) == s[1..]
  {
  }

  lemma WithoutBehindFront(it: Iterator, s: seq<Iterator>, source: Iterator)
    requires source in s && it != source
    ensures Without([it] + s, source) == [it] + Without(s, source)
  {
    hide Without;
    var k := PositionIn(s, source);
    WithoutAt([it] + s, source, k + 1);
    WithoutAt(s, source, k);
    assert ([it] + s)[..k + 1] == [it] + s[..k] && ([it] + s)[k + 2..] == s[k + 1..];
    Reassociate([it], s[..k], s[k + 1..]);
  }

  lemma Reassociate(a: seq<Iterator>, b: seq<Iterator>, c: seq<Iterator>)
    ensures (a + b) + c == a + (b + c)
  {
  }

  lemma WithoutAt(s: seq<Iterator>, it: Iterator, k: nat)
    requires k < |s| && s[k] == it && it !in s[..k]
    ensures Without(s, it) == s[..k] + s[k + 1..]
  {
    FirstPosition(s, it, k);
  }

  lemma {:induction false} FirstPosition(s: seq<Iterator>, it: Iterator, k: nat)
    requires k < |s| && s[k] == it && it !in s[..k]
    ensures PositionIn(s, it) == k
  {
    if k > 0 {
      assert s[0] in s[..k] && s[1..][..k - 1] == s[..k][1..];
      FirstPosition(s[1..], it, k - 1);
    }
  }

  lemma ItemIndex(s: seq<Iterator>, i: nat)
    requires i < |s|
    ensures s[..i + 1] == s[..i] + [s[i]]
  {
  }

  /** An invalid iterator may be forgotten. */
  lemma ForgetKeeps(st: State, it: Iterator)
    requires Consistent(st) && it in st.fields && st.fields[it].prev == Own
    ensures Consistent(st.(fields := st.fields - {it}, made := st.made - {it}))
  {
    var next := st.(fields := st.fields - {it}, made := st.made - {it});
    forall c | c in next.lists
      ensures Linked(c, next.heads[c], next.lists[c], next.fields)
    {
      assert Linked(c, st.heads[c], st.lists[c], st.fields);
      ListMembers(st, c, it);
    }
    forall j | j in next.fields && next.fields[j].prev != Own
      ensures Attached(next, j)
    {
      assert Attached(st, j);
    }
  }

  /** A bucket with an empty list may be forgotten. */
  lemma ForgetBucketKeeps(st: State, b: Bucket)
    requires Consistent(st) && b in st.lists && st.lists[b] == []
    ensures Consistent(st.(heads := st.heads - {b}, lists := st.lists - {b}))
  {
    var next := st.(heads := st.heads - {b}, lists := st.lists - {b});
    forall c | c in next.lists
      ensures Linked(c, next.heads[c], next.lists[c], next.fields)
    {
      assert Linked(c, st.heads[c], st.lists[c], st.fields);
    }
    forall j | j in next.fields && next.fields[j].prev != Own
      ensures Attached(next, j)
    {
      assert Attached(st, j);
    }
  }

  lemma StateShape(st: State)
    requires Consistent(st)
    ensures ListsLinked(st) && st.made.Keys == st.fields.Keys
    ensures forall it :: it in st.fields && st.fields[it].prev != Own ==> Attached(st, it)
  {
  }

  lemma AddBucketKeeps(st: State, b: Bucket)
    requires Consistent(st) && b !in st.heads
    ensures Consistent(st.(heads := st.heads[b := null], lists := st.lists[b := []]))
  {
    var next := st.(heads := st.heads[b := null], lists := st.lists[b := []]);
    forall c | c in next.lists
      ensures Linked(c, next.heads[c], next.lists[c], next.fields)
    {
      if c != b {
        assert Linked(c, st.heads[c], st.lists[c], st.fields);
      }
    }
    forall j | j in next.fields && next.fields[j].prev != Own
      ensures Attached(next, j)
    {
      assert Attached(st, j);
    }
  }

  /** An iterator that is in no list may be added, and may point anywhere. */
  lemma AddInvalidKeeps(st: State, it: Iterator, f: Fields, e: int)
    requires Consistent(st) && f.prev == Own && (it in st.fields ==> st.fields[it].prev == Own)
    ensures Consistent(st.(fields := st.fields[it := f], made := st.made[it := e]))
  {
    var next := st.(fields := st.fields[it := f], made := st.made[it := e]);
    forall c | c in next.lists
      ensures Linked(c, next.heads[c], next.lists[c], next.fields)
    {
      assert Linked(c, st.heads[c], st.lists[c], st.fields);
    }
    forall j | j in next.fields && next.fields[j].prev != Own
      ensures Attached(next, j)
    {
      assert Attached(st, j);
    }
  }
}

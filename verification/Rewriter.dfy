/**
 The text rewriter of lib/Support/RewriterBase.cpp: a flat buffer and a table of offsets, against a simple list of
 edits for each original character.
 */
module Rewriter {

  /** One more than the largest `std::size_t`. */
  const SIZE: nat := 0x1_0000_0000_0000_0000

  type Size = x: nat | x < SIZE

  /** Arithmetic on `std::size_t`. */
  function Wrap(x: int): (r: Size)
    ensures 0 <= x < SIZE ==> r == x
  {
    x % SIZE
  }

  lemma WrapSum(x: int, y: int)
    ensures Wrap(Wrap(x) + y) == Wrap(x + y)
  {
    var q := x / SIZE;
    assert x == SIZE * q + Wrap(x);
    assert Wrap(Wrap(x) + y + SIZE * q) == Wrap(Wrap(x) + y) by {
      WrapMultiple(Wrap(x) + y, q);
    }
  }

  lemma WrapMultiple(x: int, q: int)
    ensures Wrap(x + SIZE * q) == Wrap(x)
  {
    var r, d := x % SIZE, x / SIZE;
    assert x + SIZE * q == SIZE * (d + q) + r;
    assert (SIZE * (d + q) + r) % SIZE == r;
  }

  // ---------- The per-character model ----------

  /**
   The edits at one original character: text inserted before it, text inserted after that, and the character itself
   or what has replaced it. A covered character belongs to the replacement of an earlier one.
   */
  datatype Cell = Cell(before: string, after: string, core: string, covered: bool)

  function Text(c: Cell): string {
    c.before + c.after + c.core
  }

  /** The text of the characters from `i` up to `j`. */
  function Between(cells: seq<Cell>, i: nat, j: nat): string
    requires i <= j <= |cells|
    decreases j
  {
    if i == j then "" else Between(cells, i, j - 1) + Text(cells[j - 1])
  }

  function Render(cells: seq<Cell>): string {
    Between(cells, 0, |cells|)
  }

  function Unedited(text: string): (cells: seq<Cell>)
    ensures |cells| == |text|
  {
    seq(|text|, i requires 0 <= i < |text| => Cell("", "", [text[i]], false))
  }

  lemma {:induction false} UneditedText(text: string, j: nat)
    requires j <= |text|
    ensures Between(Unedited(text), 0, j) == text[..j]
  {
    if j > 0 {
      UneditedText(text, j - 1);
    }
  }

  /** A replacement begins at the character, or the character is its own. */
  predicate Begins(cells: seq<Cell>, j: nat) {
    j == |cells| || (j < |cells| && !cells[j].covered)
  }

  /** Covered characters have no text of their own. */
  ghost predicate WellFormed(cells: seq<Cell>) {
    && Begins(cells, 0)
    && forall j :: 0 <= j < |cells| && cells[j].covered ==> Text(cells[j]) == ""
  }

  /** A range that does not cut a replaced range. */
  predicate Whole(cells: seq<Cell>, begin: nat, length: nat) {
    length >= 1 && begin + length <= |cells| && Begins(cells, begin) && Begins(cells, begin + length)
  }

  /** The range gets the new text; insertions before its first character stay, all other edits in it are gone. */
  function Replaced(cells: seq<Cell>, begin: nat, length: nat, text: string): (r: seq<Cell>)
    requires Whole(cells, begin, length)
    ensures |r| == |cells|
  {
    seq(|cells|, j requires 0 <= j < |cells| =>
      if j == begin then Cell(cells[j].before, "", text, false)
      else if begin < j < begin + length then Cell("", "", "", true) else cells[j])
  }

  function InsertedBefore(cells: seq<Cell>, j: nat, text: string): (r: seq<Cell>)
    requires j < |cells|
    ensures |r| == |cells|
  {
    cells[j := cells[j].(before := cells[j].before + text)]
  }

  /** The text goes in front of the last character of the core, which is the original character itself before any replacement. */
  function InsertedAfter(cells: seq<Cell>, j: nat, text: string): (r: seq<Cell>)
    requires j < |cells| && cells[j].core != ""
    ensures |r| == |cells|
  {
    var c := cells[j];
    cells[j := c.(after := c.after + c.core[..|c.core| - 1] + text, core := c.core[|c.core| - 1..])]
  }

  // ---------- Offsets ----------

  lemma {:induction false} BetweenSplit(cells: seq<Cell>, i: nat, k: nat, j: nat)
    requires i <= k <= j <= |cells|
    ensures Between(cells, i, j) == Between(cells, i, k) + Between(cells, k, j)
    decreases j
  {
    if k < j {
      BetweenSplit(cells, i, k, j - 1);
    }
  }

  lemma {:induction false} BetweenSame(before: seq<Cell>, after: seq<Cell>, i: nat, j: nat)
    requires i <= j <= |before| == |after|
    requires forall k :: i <= k < j ==> Text(before[k]) == Text(after[k])
    ensures Between(before, i, j) == Between(after, i, j)
    decreases j
  {
    if i < j {
      BetweenSame(before, after, i, j - 1);
    }
  }

  lemma {:induction false} BetweenCovered(cells: seq<Cell>, i: nat, j: nat)
    requires i <= j <= |cells|
    requires forall k :: i <= k < j ==> Text(cells[k]) == ""
    ensures Between(cells, i, j) == ""
    decreases j
  {
    if i < j {
      BetweenCovered(cells, i, j - 1);
    }
  }

  /** Where the text of character `j` begins. */
  function Offset(cells: seq<Cell>, j: nat): nat
    requires j <= |cells|
  {
    |Between(cells, 0, j)|
  }

  /**
   The table: entry `2j` is the place behind the insertions before `j`, and entry `2j + 1` is the last place of the
   text of `j`, which may be one less than zero when that text is empty.
   */
  ghost predicate Located(cells: seq<Cell>, mapping: seq<Size>, j: nat)
    requires j < |cells| && |mapping| == 2 * |cells|
  {
    && (Begins(cells, j) ==> mapping[2 * j] == Offset(cells, j) + |cells[j].before|)
    && (Begins(cells, j + 1) ==> mapping[2 * j + 1] == Wrap(Offset(cells, j + 1) - 1))
  }

  ghost predicate Agrees(cells: seq<Cell>, mapping: seq<Size>) {
    && |mapping| == 2 * |cells|
    && forall j: nat :: j < |cells| ==> Located(cells, mapping, j)
  }

  /** The entries from `from` on, shifted. */
  ghost predicate Shifted(before: seq<Size>, after: seq<Size>, from: nat, delta: int) {
    && |after| == |before|
    && forall i :: 0 <= i < |before| ==> after[i] == if i < from then before[i] else Wrap(before[i] + delta)
  }

  /** The text of the cells from `begin` up to `end` changes its length by `delta`, and the others keep their text. */
  ghost predicate Resized(before: seq<Cell>, after: seq<Cell>, begin: nat, end: nat, delta: int) {
    && |before| == |after| && begin < end <= |before|
    && (forall j :: 0 <= j < |before| && !(begin <= j < end) ==> before[j] == after[j])
    && |Between(after, begin, end)| == |Between(before, begin, end)| + delta
  }

  lemma ResizedOffset(before: seq<Cell>, after: seq<Cell>, begin: nat, end: nat, delta: int, j: nat)
    requires Resized(before, after, begin, end, delta) && j <= |before| && !(begin < j < end)
    ensures Offset(after, j) == Offset(before, j) + if j <= begin then 0 else delta
  {
    if j <= begin {
      BetweenSame(before, after, 0, j);
    } else {
      BetweenSplit(before, 0, end, j);
      BetweenSplit(after, 0, end, j);
      BetweenSplit(before, 0, begin, end);
      BetweenSplit(after, 0, begin, end);
      BetweenSame(before, after, 0, begin);
      BetweenSame(before, after, end, j);
    }
  }

  lemma {:induction false} OffsetBounded(cells: seq<Cell>, j: nat)
    requires j <= |cells|
    ensures Offset(cells, j) <= |Render(cells)|
    ensures j < |cells| ==> Offset(cells, j) + |Text(cells[j])| == Offset(cells, j + 1) <= |Render(cells)|
  {
    BetweenSplit(cells, 0, j, |cells|);
    if j < |cells| {
      BetweenSplit(cells, 0, j + 1, |cells|);
    }
  }

  /** A character outside the edited range keeps its entries, shifted when it is behind the range. */
  lemma LocatedOutside(before: seq<Cell>, after: seq<Cell>, begin: nat, end: nat, delta: int,
                       was: seq<Size>, now: seq<Size>, from: nat, j: nat)
    requires Resized(before, after, begin, end, delta) && |Render(before)| < SIZE && |Render(after)| < SIZE
    requires |was| == 2 * |before| && Shifted(was, now, from, delta) && 2 * begin <= from <= 2 * end - 1
    requires j < |before| && !(begin <= j < end) && Located(before, was, j)
    requires Begins(after, begin) ==> Begins(before, begin)
    ensures Located(after, now, j)
  {
    ResizedOffset(before, after, begin, end, delta, j);
    ResizedOffset(before, after, begin, end, delta, j + 1);
    OffsetBounded(before, j);
    OffsetBounded(after, j);
    WrapSum(Offset(before, j + 1) - 1, delta);
  }

  /** The text of a range without the insertions before its first character. */
  function Inner(cells: seq<Cell>, begin: nat, length: nat): string
    requires length >= 1 && begin + length <= |cells|
  {
    cells[begin].after + cells[begin].core + Between(cells, begin + 1, begin + length)
  }

  /** What is in front of a range, and behind the insertions before its first character. */
  function Lead(cells: seq<Cell>, begin: nat): string
    requires begin < |cells|
  {
    Between(cells, 0, begin) + cells[begin].before
  }

  lemma RenderAround(cells: seq<Cell>, begin: nat, length: nat)
    requires Whole(cells, begin, length)
    ensures Between(cells, 0, begin + length) == Lead(cells, begin) + Inner(cells, begin, length)
    ensures Render(cells)
         == Lead(cells, begin) + Inner(cells, begin, length) + Between(cells, begin + length, |cells|)
  {
    hide Between, Text;
    var end := begin + length;
    BetweenSplit(cells, 0, end, |cells|);
    BetweenSplit(cells, 0, begin, end);
    BetweenSplit(cells, begin, begin + 1, end);
    BetweenOne(cells, begin);
    assert Between(cells, begin, end) == cells[begin].before + Inner(cells, begin, length);
  }

  lemma BetweenOne(cells: seq<Cell>, j: nat)
    requires j < |cells|
    ensures Between(cells, j, j + 1) == cells[j].before + cells[j].after + cells[j].core
  {
    assert Between(cells, j, j) == "";
  }

  lemma Slices(a: string, b: string, c: string)
    ensures var s := a + b + c;
            s[..|a|] == a && s[|a|..|a + b|] == b && s[|a + b|..] == c
  {
  }

  /** A range in the rendered text, between the places its table entries give. */
  lemma RangePlaces(cells: seq<Cell>, mapping: seq<Size>, begin: nat, length: nat)
    requires Agrees(cells, mapping) && Whole(cells, begin, length) && |Render(cells)| < SIZE
    ensures var b, e := mapping[2 * begin], Wrap(mapping[2 * (begin + length - 1) + 1] as int + 1);
            && b == |Lead(cells, begin)| && e == Offset(cells, begin + length)
            && b <= e <= |Render(cells)| && Wrap(e - b) == e - b
            && Render(cells)[..b] == Lead(cells, begin)
            && Render(cells)[b..e] == Inner(cells, begin, length)
            && Render(cells)[e..] == Between(cells, begin + length, |cells|)
  {
    hide Between, Inner, Render, Agrees;
    var end := begin + length;
    AgreesAt(cells, mapping, begin);
    AgreesAt(cells, mapping, end - 1);
    WrapSum(Offset(cells, end) - 1, 1);
    RenderAround(cells, begin, length);
    Slices(Lead(cells, begin), Inner(cells, begin, length), Between(cells, end, |cells|));
  }

  lemma AgreesAt(cells: seq<Cell>, mapping: seq<Size>, j: nat)
    requires Agrees(cells, mapping) && j < |cells|
    ensures |mapping| == 2 * |cells| && Located(cells, mapping, j)
  {
  }

  lemma ReplacedText(cells: seq<Cell>, begin: nat, length: nat, text: string)
    requires Whole(cells, begin, length) && WellFormed(cells)
    ensures var after := Replaced(cells, begin, length, text);
            && WellFormed(after) && Whole(after, begin, length)
            && Lead(after, begin) == Lead(cells, begin) && Inner(after, begin, length) == text
            && Between(after, begin + length, |cells|) == Between(cells, begin + length, |cells|)
  {
    var after, end := Replaced(cells, begin, length, text), begin + length;
    BetweenSame(cells, after, 0, begin);
    BetweenSame(cells, after, end, |cells|);
    BetweenCovered(after, begin + 1, end);
  }

  /** How much a replacement makes the text longer. */
  lemma ReplacedSize(cells: seq<Cell>, begin: nat, length: nat, text: string)
    requires Whole(cells, begin, length) && WellFormed(cells)
    ensures Resized(cells, Replaced(cells, begin, length, text), begin, begin + length, |text| - |Inner(cells, begin, length)|)
    ensures Render(Replaced(cells, begin, length, text))
         == Lead(cells, begin) + text + Between(cells, begin + length, |cells|)
  {
    hide Inner, Lead, WellFormed, Between, Render;
    var after, end := Replaced(cells, begin, length, text), begin + length;
    ReplacedText(cells, begin, length, text);
    RenderAround(cells, begin, length);
    RenderAround(after, begin, length);
    RangeSize(cells, begin, length);
    RangeSize(after, begin, length);
    assert cells[begin].before == after[begin].before;
  }

  lemma RangeSize(cells: seq<Cell>, begin: nat, length: nat)
    requires Whole(cells, begin, length)
    ensures |Between(cells, begin, begin + length)| == |cells[begin].before| + |Inner(cells, begin, length)|
  {
    hide Between, Inner;
    RenderAround(cells, begin, length);
    BetweenSplit(cells, 0, begin, begin + length);
  }

  /** The table after a replacement. */
  lemma ReplacedAgrees(cells: seq<Cell>, begin: nat, length: nat, text: string, was: seq<Size>, now: seq<Size>)
    requires Whole(cells, begin, length) && WellFormed(cells) && Agrees(cells, was)
    requires |Render(cells)| < SIZE && |Render(Replaced(cells, begin, length, text))| < SIZE
    requires Shifted(was, now, 2 * (begin + length - 1) + 1, |text| - |Inner(cells, begin, length)|)
    ensures Agrees(Replaced(cells, begin, length, text), now)
  {
    hide Inner, Render, Located;
    var after, end, delta := Replaced(cells, begin, length, text), begin + length, |text| - |Inner(cells, begin, length)|;
    ReplacedSize(cells, begin, length, text);
    forall j: nat | j < |after|
      ensures Located(after, now, j)
    {
      AgreesAt(cells, was, j);
      if begin <= j < end {
        LocatedInside(cells, begin, length, text, was, now, j);
      } else {
        LocatedOutside(cells, after, begin, end, delta, was, now, 2 * (end - 1) + 1, j);
      }
    }
  }

  lemma LocatedInside(cells: seq<Cell>, begin: nat, length: nat, text: string, was: seq<Size>, now: seq<Size>, j: nat)
    requires Whole(cells, begin, length) && begin <= j < begin + length && Agrees(cells, was)
    requires Resized(cells, Replaced(cells, begin, length, text), begin, begin + length,
                     |text| - |Inner(cells, begin, length)|)
    requires Shifted(was, now, 2 * (begin + length - 1) + 1, |text| - |Inner(cells, begin, length)|)
    requires |Render(cells)| < SIZE && |Render(Replaced(cells, begin, length, text))| < SIZE
    ensures |now| == 2 * |cells| && Located(Replaced(cells, begin, length, text), now, j)
  {
    hide Inner, Render, Resized, Between;
    var after, end, delta := Replaced(cells, begin, length, text), begin + length, |text| - |Inner(cells, begin, length)|;
    if j == begin {
      AgreesAt(cells, was, begin);
      ResizedOffset(cells, after, begin, end, delta, begin);
      OffsetBounded(cells, begin);
    }
    if j == end - 1 {
      AgreesAt(cells, was, j);
      ResizedOffset(cells, after, begin, end, delta, end);
      WrapSum(Offset(cells, end) - 1, delta);
    }
  }

  lemma RenderAt(cells: seq<Cell>, j: nat)
    requires j < |cells|
    ensures Render(cells) == Lead(cells, j) + (cells[j].after + cells[j].core) + Between(cells, j + 1, |cells|)
    ensures Offset(cells, j + 1) == |Lead(cells, j)| + |cells[j].after| + |cells[j].core|
  {
    hide Between;
    BetweenSplit(cells, 0, j + 1, |cells|);
    BetweenStep(cells, j);
    assert Between(cells, 0, j) + Text(cells[j]) == Lead(cells, j) + (cells[j].after + cells[j].core);
  }

  lemma BetweenStep(cells: seq<Cell>, j: nat)
    requires j < |cells|
    ensures Between(cells, 0, j + 1) == Between(cells, 0, j) + Text(cells[j])
  {
  }

  /** An insertion changes the text of one cell. */
  lemma OneResized(before: seq<Cell>, after: seq<Cell>, j: nat, size: int)
    requires |after| == |before| && j < |before| && |Text(after[j])| == |Text(before[j])| + size
    requires forall i :: 0 <= i < |before| && i != j ==> before[i] == after[i]
    ensures Resized(before, after, j, j + 1, size)
    ensures Between(after, 0, j) == Between(before, 0, j)
    ensures Between(after, j + 1, |before|) == Between(before, j + 1, |before|)
  {
    assert Between(before, j, j) == Between(after, j, j) == "";
    BetweenSame(before, after, 0, j);
    BetweenSame(before, after, j + 1, |before|);
  }

  lemma InsertedBeforeText(cells: seq<Cell>, j: nat, text: string)
    requires j < |cells| && WellFormed(cells) && Begins(cells, j)
    ensures var after := InsertedBefore(cells, j, text);
            && WellFormed(after) && Resized(cells, after, j, j + 1, |text|)
            && Render(after) == Lead(cells, j) + text + (cells[j].after + cells[j].core + Between(cells, j + 1, |cells|))
  {
    hide Resized;
    var after := InsertedBefore(cells, j, text);
    OneResized(cells, after, j, |text|);
    RenderAt(after, j);
    assert Lead(after, j) == Lead(cells, j) + text;
  }

  lemma InsertedAfterText(cells: seq<Cell>, j: nat, text: string)
    requires j < |cells| && WellFormed(cells) && cells[j].core != ""
    ensures var after := InsertedAfter(cells, j, text);
            var core := cells[j].core;
            && WellFormed(after) && Resized(cells, after, j, j + 1, |text|)
            && Render(after) == Lead(cells, j) + cells[j].after + core[..|core| - 1] + text
                                + (core[|core| - 1..] + Between(cells, j + 1, |cells|))
  {
    hide Resized, Between, Render, Lead, WellFormed;
    var after, c := InsertedAfter(cells, j, text), cells[j];
    AfterResized(cells, j, text);
    RenderAt(after, j);
    assert after[j].after + after[j].core == c.after + c.core[..|c.core| - 1] + text + c.core[|c.core| - 1..];
    Pieces(Lead(cells, j), c.after, c.core[..|c.core| - 1], text, c.core[|c.core| - 1..], Between(cells, j + 1, |cells|));
  }

  lemma AfterResized(cells: seq<Cell>, j: nat, text: string)
    requires j < |cells| && WellFormed(cells) && cells[j].core != ""
    ensures var after := InsertedAfter(cells, j, text);
            && WellFormed(after) && Resized(cells, after, j, j + 1, |text|) && Lead(after, j) == Lead(cells, j)
            && Between(after, j + 1, |cells|) == Between(cells, j + 1, |cells|)
  {
    hide Resized, Between, Lead;
    var after := InsertedAfter(cells, j, text);
    OneResized(cells, after, j, |text|);
    LeadSame(cells, after, j);
  }

  lemma LeadSame(before: seq<Cell>, after: seq<Cell>, j: nat)
    requires j < |before| == |after| && Between(after, 0, j) == Between(before, 0, j) && after[j].before == before[j].before
    ensures Lead(after, j) == Lead(before, j)
  {
  }

  lemma Pieces(lead: string, a: string, init: string, text: string, last: string, rest: string)
    ensures lead + (a + init + text + last) + rest == lead + a + init + text + (last + rest)
  {
    assert lead + (a + init + text + last) == lead + a + init + text + last;
  }

  /** The table after an insertion. */
  lemma InsertedAgrees(cells: seq<Cell>, after: seq<Cell>, j: nat, size: nat, was: seq<Size>, now: seq<Size>, from: nat)
    requires Agrees(cells, was) && Resized(cells, after, j, j + 1, size)
    requires |Render(cells)| < SIZE && |Render(after)| < SIZE && Shifted(was, now, from, size)
    requires from == 2 * j || from == 2 * j + 1
    requires |after[j].before| == |cells[j].before| + if from == 2 * j then size else 0
    requires forall i :: 0 <= i < |cells| ==> after[i].covered == cells[i].covered
    ensures Agrees(after, now)
  {
    hide Render, Located;
    forall i: nat | i < |after|
      ensures Located(after, now, i)
    {
      AgreesAt(cells, was, i);
      if i == j {
        LocatedHere(cells, after, j, size, was, now, from);
      } else {
        LocatedOutside(cells, after, j, j + 1, size, was, now, from, i);
      }
    }
  }

  lemma LocatedHere(cells: seq<Cell>, after: seq<Cell>, j: nat, size: nat, was: seq<Size>, now: seq<Size>, from: nat)
    requires j < |cells| && |was| == 2 * |cells| && Located(cells, was, j) && Resized(cells, after, j, j + 1, size)
    requires |Render(cells)| < SIZE && |Render(after)| < SIZE && Shifted(was, now, from, size)
    requires from == 2 * j || from == 2 * j + 1
    requires |after[j].before| == |cells[j].before| + if from == 2 * j then size else 0
    requires forall i :: 0 <= i < |cells| ==> after[i].covered == cells[i].covered
    ensures Located(after, now, j)
  {
    hide Render, Between;
    ResizedOffset(cells, after, j, j + 1, size, j);
    ResizedOffset(cells, after, j, j + 1, size, j + 1);
    OffsetBounded(cells, j);
    OffsetBounded(after, j);
    WrapSum(Offset(cells, j + 1) - 1, size);
  }

  /** The identity table belongs to the unedited text. */
  lemma UneditedAgrees(text: string, mapping: seq<Size>)
    requires |mapping| == 2 * |text| < 2 * SIZE
    requires forall k :: 0 <= k < |text| ==> mapping[2 * k] == k && mapping[2 * k + 1] == k
    ensures Agrees(Unedited(text), mapping) && WellFormed(Unedited(text)) && Render(Unedited(text)) == text
  {
    UneditedText(text, |text|);
    forall j: nat | j < |text|
      ensures Located(Unedited(text), mapping, j)
    {
      UneditedText(text, j);
      UneditedText(text, j + 1);
    }
  }

  /** A character that still stands for itself is where its second table entry says. */
  lemma UntouchedPlace(cells: seq<Cell>, mapping: seq<Size>, j: nat)
    requires Agrees(cells, mapping) && |Render(cells)| < SIZE
    requires j < |cells| && Begins(cells, j) && Begins(cells, j + 1) && |cells[j].core| == 1
    ensures |mapping| == 2 * |cells| && mapping[2 * j + 1] < |Render(cells)|
    ensures [Render(cells)[mapping[2 * j + 1]]] == cells[j].core
  {
    hide Between, Render, Agrees;
    InsertionPlace(cells, mapping, j, true);
    RenderAt(cells, j);
    var p := mapping[2 * j + 1];
    assert Render(cells)[p] == Render(cells)[p..][0];
  }

  // ---------- The order of edits ----------

  datatype Edit = Before(at: nat, text: string) | After(at: nat, text: string) | Replace(begin: nat, length: nat, text: string)
  {
    function First(): nat {
      if Replace? then begin else at
    }

    function End(): nat {
      if Replace? then begin + length else at + 1
    }
  }

  predicate Allowed(cells: seq<Cell>, e: Edit) {
    match e
    case Before(at, _) => at < |cells| && Begins(cells, at)
    case After(at, _) => at < |cells| && Begins(cells, at) && Begins(cells, at + 1) && cells[at].core != ""
    case Replace(begin, length, _) => Whole(cells, begin, length)
  }

  function Apply(cells: seq<Cell>, e: Edit): (r: seq<Cell>)
    requires Allowed(cells, e)
    ensures |r| == |cells|
  {
    match e
    case Before(at, text) => InsertedBefore(cells, at, text)
    case After(at, text) => InsertedAfter(cells, at, text)
    case Replace(begin, length, text) => Replaced(cells, begin, length, text)
  }

  /** The edits concern different characters, or one of them is an insertion in front of the range of the other. */
  predicate Apart(e: Edit, f: Edit) {
    || e.End() <= f.First() || f.End() <= e.First()
    || (e.First() == f.First() && e.Before? != f.Before?)
  }

  /** The order of edits that are apart does not matter. */
  lemma EditsCommute(cells: seq<Cell>, e: Edit, f: Edit)
    requires Allowed(cells, e) && Allowed(cells, f) && Apart(e, f)
    ensures Allowed(Apply(cells, e), f) && Allowed(Apply(cells, f), e)
    ensures Apply(Apply(cells, e), f) == Apply(Apply(cells, f), e)
  {
    hide Apply;
    StillAllowed(cells, e, f);
    StillAllowed(cells, f, e);
    forall j | 0 <= j < |cells|
      ensures Apply(Apply(cells, e), f)[j] == Apply(Apply(cells, f), e)[j]
    {
      CommuteAt(cells, e, f, j);
    }
  }

  lemma CommuteAt(cells: seq<Cell>, e: Edit, f: Edit, j: nat)
    requires Allowed(cells, e) && Allowed(cells, f) && Apart(e, f) && j < |cells|
    requires Allowed(Apply(cells, e), f) && Allowed(Apply(cells, f), e)
    ensures Apply(Apply(cells, e), f)[j] == Apply(Apply(cells, f), e)[j]
  {
    hide Apply;
    ApplyAt(cells, e, j);
    ApplyAt(cells, f, j);
    ApplyAt(Apply(cells, e), f, j);
    ApplyAt(Apply(cells, f), e, j);
  }

  /** What an edit does to the cell of character `j`. */
  function Edited(c: Cell, e: Edit, j: nat): Cell {
    match e
    case Before(at, text) => if j == at then c.(before := c.before + text) else c
    case After(at, text) =>
      if j == at && c.core != "" then
        c.(after := c.after + c.core[..|c.core| - 1] + text, core := c.core[|c.core| - 1..])
      else c
    case Replace(begin, length, text) =>
      if j == begin then Cell(c.before, "", text, false)
      else if begin < j < begin + length then Cell("", "", "", true) else c
  }

  lemma ApplyAt(cells: seq<Cell>, e: Edit, j: nat)
    requires Allowed(cells, e) && j < |cells|
    ensures Apply(cells, e)[j] == Edited(cells[j], e, j)
  {
  }

  lemma StillAllowed(cells: seq<Cell>, e: Edit, f: Edit)
    requires Allowed(cells, e) && Allowed(cells, f) && Apart(e, f)
    ensures Allowed(Apply(cells, e), f)
  {
  }

  /** A replacement makes no difference between what has been done inside its range before. */
  lemma ReplacementWins(cells: seq<Cell>, e: Edit, begin: nat, length: nat, text: string)
    requires Allowed(cells, e) && Whole(cells, begin, length)
    requires begin <= e.First() && e.End() <= begin + length && e != Before(begin, e.text)
    ensures Whole(Apply(cells, e), begin, length)
    ensures Replaced(Apply(cells, e), begin, length, text) == Replaced(cells, begin, length, text)
  {
  }

  // ---------- The buffer and its table ----------

  /** `RewriterBaseImpl`, with the edits it is to represent. */
  class RewriterBase {
    var mBuffer: string
    const mMapping: array<Size>
    ghost var cells: seq<Cell>

    ghost predicate Valid()
      reads this, mMapping
    {
      && WellFormed(cells) && |Render(cells)| < SIZE
      && mBuffer == Render(cells) && Agrees(cells, mMapping[..])
    }

    /** The rewriter of a text, with the identity table. */
    constructor (text: string)
      requires |text| < SIZE
      ensures Valid() && fresh(mMapping) && cells == Unedited(text) && mBuffer == text
    {
      mBuffer := text;
      mMapping := new Size[2 * |text|](_ => 0);
      cells := Unedited(text);
      new;
      var origIdx := 0;
      while origIdx < |mBuffer|
        invariant 0 <= origIdx <= |mBuffer| && mBuffer == text && cells == Unedited(text)
        invariant forall k :: 0 <= k < origIdx ==> mMapping[2 * k] == k && mMapping[2 * k + 1] == k
      {
        mMapping[2 * origIdx] := origIdx;
        mMapping[2 * origIdx + 1] := origIdx;
        origIdx := origIdx + 1;
      }
      UneditedAgrees(text, mMapping[..]);
    }

    /** The loop over the table: every entry from `from` on is moved by `delta`. */
    method Shift(from: nat, delta: int)
      requires from <= mMapping.Length
      modifies mMapping
      ensures Shifted(old(mMapping[..]), mMapping[..], from, delta)
    {
      var i := from;
      while i < mMapping.Length
        invariant from <= i <= mMapping.Length
        invariant forall k :: 0 <= k < from || i <= k < mMapping.Length ==> mMapping[k] == old(mMapping[k])
        invariant forall k :: from <= k < i ==> mMapping[k] == Wrap(old(mMapping[k]) + delta)
      {
        mMapping[i] := Wrap(mMapping[i] + delta);
        i := i + 1;
      }
    }

    method ReplaceText(origBegin: nat, length: nat, newStr: string)
      requires Valid() && Whole(cells, origBegin, length) && |mBuffer| + |newStr| < SIZE
      modifies this, mMapping
      ensures Valid() && cells == old(Replaced(cells, origBegin, length, newStr))
    {
      hide Agrees, WellFormed, Render, Between, Lead, Inner, Replaced, Offset, Resized, Wrap;
      RangePlaces(cells, mMapping[..], origBegin, length);
      ReplacedText(cells, origBegin, length, newStr);
      ReplacedSize(cells, origBegin, length, newStr);
      TableSize(cells, mMapping[..]);
      var origBeginIdx := 2 * origBegin;
      var origEndIdx := 2 * (origBegin + length - 1) + 1;
      var begin := mMapping[origBeginIdx];
      var end := Wrap(mMapping[origEndIdx] as int + 1);
      ghost var was, before := mMapping[..], cells;
      if Wrap(end - begin) < |newStr| {
        Shift(origEndIdx, |newStr| - Wrap(end - begin));
      } else if Wrap(end - begin) > |newStr| {
        Shift(origEndIdx, -(Wrap(end - begin) - |newStr|));
      } else {
        assert Shifted(was, mMapping[..], origEndIdx, 0);
      }
      mBuffer := mBuffer[..begin] + newStr + mBuffer[end..];
      cells := Replaced(cells, origBegin, length, newStr);
      ReplacedAgrees(before, origBegin, length, newStr, was, mMapping[..]);
    }

    /**
     Insertion at a character. In front of it the text goes behind all earlier insertions there; otherwise it goes
     behind these and all insertions after it, immediately in front of the character.
     */
    method InsertText(origBegin: nat, newStr: string, insertAfter: bool)
      requires Valid() && origBegin < |cells| && Begins(cells, origBegin) && |mBuffer| + |newStr| < SIZE
      requires insertAfter ==> Begins(cells, origBegin + 1) && cells[origBegin].core != ""
      modifies this, mMapping
      ensures Valid()
      ensures cells == old(if insertAfter then InsertedAfter(cells, origBegin, newStr)
                           else InsertedBefore(cells, origBegin, newStr))
    {
      hide Agrees, WellFormed, Render, Between, Lead, Resized;
      TableSize(cells, mMapping[..]);
      var origIdx := if insertAfter then 2 * origBegin + 1 else 2 * origBegin;
      ghost var was, before := mMapping[..], cells;
      AgreesAt(cells, was, origBegin);
      InsertionPlace(cells, was, origBegin, insertAfter);
      mBuffer := mBuffer[..mMapping[origIdx]] + newStr + mBuffer[mMapping[origIdx]..];
      Shift(origIdx, |newStr|);
      if insertAfter {
        InsertedAfterText(cells, origBegin, newStr);
        cells := InsertedAfter(cells, origBegin, newStr);
      } else {
        InsertedBeforeText(cells, origBegin, newStr);
        cells := InsertedBefore(cells, origBegin, newStr);
      }
      InsertedAgrees(before, cells, origBegin, |newStr|, was, mMapping[..], origIdx);
    }

    /** The rewritten form of a range: insertions before its first character do not belong to it. */
    method GetRewrittenText(origBegin: nat, length: nat) returns (text: string)
      requires Valid() && Whole(cells, origBegin, length)
      ensures text == Inner(cells, origBegin, length)
    {
      hide Agrees, WellFormed, Render, Between, Lead, Inner, Offset, Wrap;
      TableSize(cells, mMapping[..]);
      RangePlaces(cells, mMapping[..], origBegin, length);
      var begin := mMapping[2 * origBegin];
      var end := Wrap(mMapping[2 * (origBegin + length - 1) + 1] as int + 1);
      text := mBuffer[begin..][..Wrap(end - begin)];
      assert text == mBuffer[begin..end];
    }
  }

  /** Where an insertion takes place. */
  lemma InsertionPlace(cells: seq<Cell>, mapping: seq<Size>, j: nat, insertAfter: bool)
    requires Agrees(cells, mapping) && j < |cells| && Begins(cells, j) && |Render(cells)| < SIZE
    requires insertAfter ==> Begins(cells, j + 1) && cells[j].core != ""
    ensures |mapping| == 2 * |cells|
    ensures var p := mapping[if insertAfter then 2 * j + 1 else 2 * j];
            var c := cells[j];
            var front := if insertAfter then Lead(cells, j) + c.after + c.core[..|c.core| - 1] else Lead(cells, j);
            var rear := if insertAfter then c.core[|c.core| - 1..] + Between(cells, j + 1, |cells|)
                        else c.after + c.core + Between(cells, j + 1, |cells|);
            p <= |Render(cells)| && Render(cells)[..p] == front && Render(cells)[p..] == rear
  {
    hide Between, Render, Agrees;
    AgreesAt(cells, mapping, j);
    RenderAt(cells, j);
    var c := cells[j];
    if insertAfter {
      assert c.core == c.core[..|c.core| - 1] + c.core[|c.core| - 1..];
      assert Render(cells) == Lead(cells, j) + c.after + c.core[..|c.core| - 1]
                            + (c.core[|c.core| - 1..] + Between(cells, j + 1, |cells|));
    } else {
      assert Render(cells) == Lead(cells, j) + (c.after + c.core + Between(cells, j + 1, |cells|));
    }
  }

  lemma TableSize(cells: seq<Cell>, mapping: seq<Size>)
    requires Agrees(cells, mapping)
    ensures |mapping| == 2 * |cells|
  {
  }
}

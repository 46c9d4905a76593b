/**
 Division by products of constants and unknowns in lib/Support/SCEVUtils.cpp: it has no remainder when every term of the
 numerator has the factors of the denominator.
 */
module ScevProducts {
  import opened DivisionTermination
  import opened ScalarEvolution
  import opened ScevDivision
  import opened ScevMultiples
  import opened Wrappers

  /** Every term, and every term of the parts of a recurrence, has the unknowns `m` as factors. */
  predicate Contains(e: SCEV, m: multiset<SCEV>) {
    e == Zero
    || match e
       case Unknown(_) => m <= multiset{e}
       case Mul(ops) => m <= multiset(ops)
       case Add(ops) => forall i :: 0 <= i < |ops| ==> Contains(ops[i], m)
       case AddRec(ops, _) => |ops| == 2 && Contains(ops[0], m) && Contains(ops[1], m)
       case _ => m == multiset{}
  }

  ghost predicate Unknowns(m: multiset<SCEV>) {
    forall u :: u in m ==> u.Unknown?
  }

  ghost predicate AllContain(ops: seq<SCEV>, m: multiset<SCEV>) {
    forall i :: 0 <= i < |ops| ==> Contains(ops[i], m)
  }

  /** Products keep their unknowns, and recurrences and, with `sums`, sums those that all their parts have. */
  ghost predicate KeepsContents(se: Builders, sums: bool) {
    && (forall ops, m {:trigger Contains(se.getMul(ops), m)} ::
          ops != [] && (forall i :: 0 <= i < |ops| ==> Atom(ops[i])) && Unknowns(m) && m <= multiset(ops) ==>
          Contains(se.getMul(ops), m))
    && (forall s, t, loop, m {:trigger Contains(se.getAddRec(s, t, loop), m)} ::
          RecurrenceOperands(se, s, t, loop) && Contains(s, m) && Contains(t, m) ==> Contains(se.getAddRec(s, t, loop), m))
    && (sums ==> forall ops, m {:trigger Contains(se.getAdd(ops), m)} ::
          AllFormed(se, ops) && Unknowns(m) && AllContain(ops, m) ==> Contains(se.getAdd(ops), m))
  }

  /** What is left of the unknowns when one of them has divided; a constant leaves all of them. */
  function Rest(m: multiset<SCEV>, d: SCEV): multiset<SCEV> {
    if d.Unknown? then m - multiset{d} else m
  }

  /** The next factor of the denominator is an unknown that all terms have, or a constant that divides them. */
  ghost predicate Next(n: SCEV, d: SCEV, m: multiset<SCEV>)
    requires Proper(d)
  {
    Atom(d) && Unknowns(m) && Contains(n, m) && if d.Unknown? then d in m else MultipleOf(n, d)
  }

  lemma {:induction false} ContentIsMultiple(se: Builders, n: SCEV, u: SCEV, m: multiset<SCEV>)
    requires WellFormed(se, n) && u.Unknown? && u in m && Contains(n, m)
    ensures MultipleOf(n, u)
  {
    if n != Zero {
      match n
      case Add(ops) =>
        forall i | 0 <= i < |ops|
          ensures MultipleOf(ops[i], u)
        {
          ContentIsMultiple(se, ops[i], u, m);
        }
      case AddRec(ops, _) =>
        ContentIsMultiple(se, ops[0], u, m);
        ContentIsMultiple(se, ops[1], u, m);
      case Mul(ops) =>
        assert u in ops;
        var i :| 0 <= i < |ops| && ops[i] == u;
        assert MultipleOf(ops[i], u);
      case _ =>
    }
  }

  lemma NextIsMultiple(se: Builders, n: SCEV, d: SCEV, m: multiset<SCEV>)
    requires WellFormed(se, n) && Proper(d) && Next(n, d, m)
    ensures MultipleOf(n, d)
  {
    if d.Unknown? {
      ContentIsMultiple(se, n, d, m);
    }
  }

  // ---------- Products ----------

  /** The same unknowns at the same places. */
  ghost predicate SamePlaces(a: seq<SCEV>, b: seq<SCEV>) {
    |a| == |b| && forall i :: 0 <= i < |a| ==> if a[i].Unknown? then b[i] == a[i] else b[i].Constant?
  }

  lemma {:induction false} SamePlacesCount(a: seq<SCEV>, b: seq<SCEV>, u: SCEV)
    requires SamePlaces(a, b) && u.Unknown?
    ensures multiset(a)[u] == multiset(b)[u]
  {
    if a != [] {
      assert a == [a[0]] + a[1..] && b == [b[0]] + b[1..];
      SamePlacesCount(a[1..], b[1..], u);
    }
  }

  /** Division by a constant replaces constants only. */
  lemma {:induction false} UnknownsKept(se: Builders, n: SCEV, c: int, k: nat)
    requires n.Mul? && Monomial(n) && Zero !in n.ops && c != 0 && c != 1 && k <= |n.ops|
    ensures DivideFactor(se, n, Constant(c), k, 1).Some? && SamePlaces(n.ops[..k], DivideFactor(se, n, Constant(c), k, 1).value.1)
  {
    hide Divide;
    if k > 0 {
      UnknownsKept(se, n, c, k - 1);
      var op := n.ops[k - 1];
      if op.Unknown? {
        AtomDivision(se, op, Constant(c));
      } else {
        ConstantQuotient(se, op, c);
      }
      assert n.ops[..k] == n.ops[..k - 1] + [op];
    }
  }

  lemma ConstantQuotient(se: Builders, n: SCEV, c: int)
    requires n.Constant? && c != 0
    ensures Divide(se, n, Constant(c), 1).Some? && Divide(se, n, Constant(c), 1).value.quotient.Constant?
  {
  }

  lemma ContentsBuilt(se: Builders, sums: bool, qs: seq<SCEV>, m: multiset<SCEV>)
    requires KeepsContents(se, sums) && qs != [] && Unknowns(m) && m <= multiset(qs)
    requires forall i :: 0 <= i < |qs| ==> Atom(qs[i])
    ensures Contains(if |qs| == 1 then qs[0] else se.getMul(qs), m)
  {
    if |qs| == 1 {
      assert qs == [qs[0]];
    }
  }

  lemma ByUnknown(se: Builders, n: SCEV, d: SCEV, m: multiset<SCEV>, sums: bool)
    requires Sound(se) && KeepsContents(se, sums) && n.Mul? && Monomial(n) && Zero !in n.ops && d.Unknown?
    requires Unknowns(m) && d in n.ops && m <= multiset(n.ops)
    ensures Divide(se, n, d, 1).Some? && Contains(Divide(se, n, d, 1).value.quotient, m - multiset{d})
  {
    hide Sound, KeepsContents, DivideFactor, DivideByUnknown, Divide, Contains, Unknowns;
    ProductDivision(se, n, d, 1);
    assert n.ops[..|n.ops|] == n.ops;
    UnknownReplaced(se, n, d, |n.ops|);
    var (found, qs) := DivideFactor(se, n, d, |n.ops|, 1).value;
    var i :| 0 <= i < |n.ops| && n.ops[i] == d && qs == n.ops[i := One];
    OneReplaced(n.ops, i, m);
    ContentsBuilt(se, sums, qs, m - multiset{d});
  }

  lemma ProductContains(se: Builders, n: SCEV, d: SCEV, m: multiset<SCEV>, sums: bool)
    requires Sound(se) && KeepsContents(se, sums) && n.Mul? && Monomial(n) && Zero !in n.ops
    requires Proper(d) && Next(n, d, m) && d != One
    ensures Divide(se, n, d, 1).Some? && Contains(Divide(se, n, d, 1).value.quotient, Rest(m, d))
  {
    hide Sound, KeepsContents, Divide, Contains, Monomial, Unknowns, MultipleOf;
    if d.Unknown? {
      ContentOf(n, m);
      assert d in n.ops;
      ByUnknown(se, n, d, m, sums);
    } else {
      ByConstant(se, n, d.v, m, sums);
    }
  }

  lemma ContentOf(n: SCEV, m: multiset<SCEV>)
    requires n.Mul? && Contains(n, m)
    ensures m <= multiset(n.ops)
  {
  }

  lemma OneReplaced(ops: seq<SCEV>, i: nat, m: multiset<SCEV>)
    requires i < |ops| && m <= multiset(ops) && Unknowns(m) && forall k :: 0 <= k < |ops| ==> Atom(ops[k])
    ensures var qs, r := ops[i := One], m - multiset{ops[i]};
            Unknowns(r) && r <= multiset(qs) && qs != [] && forall k :: 0 <= k < |qs| ==> Atom(qs[k])
  {
    var qs := ops[i := One];
    assert multiset(qs) == multiset(ops) - multiset{ops[i]} + multiset{One};
  }

  lemma ByConstant(se: Builders, n: SCEV, c: int, m: multiset<SCEV>, sums: bool)
    requires Sound(se) && KeepsContents(se, sums) && n.Mul? && Monomial(n) && Zero !in n.ops && c != 0 && c != 1
    requires Unknowns(m) && Contains(n, m) && MultipleOf(n, Constant(c))
    ensures Divide(se, n, Constant(c), 1).Some? && Contains(Divide(se, n, Constant(c), 1).value.quotient, m)
  {
    hide Sound, KeepsContents, DivideFactor, Divide, Contains, MultipleOf;
    var d := Constant(c);
    ProductDivision(se, n, d, 1);
    UnknownsKept(se, n, c, |n.ops|);
    assert n.ops[..|n.ops|] == n.ops;
    ContentOf(n, m);
    var (found, qs) := DivideFactor(se, n, d, |n.ops|, 1).value;
    if found {
      forall u | u in m
        ensures m[u] <= multiset(qs)[u]
      {
        SamePlacesCount(n.ops, qs, u);
      }
      ContentsBuilt(se, sums, qs, m);
    } else {
      ZeroContains(m);
    }
  }

  lemma ZeroContains(m: multiset<SCEV>)
    ensures Contains(Zero, m)
  {
  }

  // ---------- Sums and recurrences ----------

  /** The quotient has the factors that are left. */
  lemma {:induction false} QuotientContains(se: Builders, n: SCEV, d: SCEV, m: multiset<SCEV>, sums: bool)
    requires Sound(se) && KeepsExpanded(se, sums) && KeepsContents(se, sums)
    requires WellFormed(se, n) && Expanded(n, sums) && Proper(d) && Next(n, d, m)
    ensures Works(se, n, d) && Contains(Divide(se, n, d, 1).value.quotient, Rest(m, d))
    decreases n, 1, 0
  {
    hide Sound, KeepsExpanded, KeepsContents, DivideTerms, DivideFactor, DivideByUnknown, DivideConstants;
    hide Faithful, Carries, Works;
    ExpandedQuotient(se, n, d, sums);
    if n == d || n == Zero || d == One {
      TrivialContains(se, n, d, m);
    } else {
      match n
      case AddRec(ops, loop) =>
        PartsFormed(se, n);
        PartsNext(n, d, m);
        QuotientContains(se, ops[0], d, m, sums);
        QuotientContains(se, ops[1], d, m, sums);
        RecurrenceContains(se, n, d, Rest(m, d), sums);
      case Add(ops) =>
        PartsFormed(se, n);
        PartsNext(n, d, m);
        TermsContain(se, n, d, |ops|, m, sums);
        SumContains(se, n, d, Rest(m, d), sums);
      case Mul(ops) =>
        FactorsAreNotZero(se, n);
        ProductContains(se, n, d, m, sums);
      case _ =>
        LeafContains(se, n, d, m);
    }
  }

  lemma TrivialContains(se: Builders, n: SCEV, d: SCEV, m: multiset<SCEV>)
    requires Proper(d) && Next(n, d, m) && Works(se, n, d) && (n == d || n == Zero || d == One)
    ensures Contains(Divide(se, n, d, 1).value.quotient, Rest(m, d))
  {
  }

  lemma LeafContains(se: Builders, n: SCEV, d: SCEV, m: multiset<SCEV>)
    requires Proper(d) && Next(n, d, m) && Works(se, n, d) && n != d && n != Zero && d != One
    requires !n.Add? && !n.Mul? && !n.AddRec?
    ensures Contains(Divide(se, n, d, 1).value.quotient, Rest(m, d))
  {
  }

  lemma FactorsAreNotZero(se: Builders, n: SCEV)
    requires WellFormed(se, n) && n.Mul?
    ensures Zero !in n.ops
  {
  }

  lemma PartsNext(n: SCEV, d: SCEV, m: multiset<SCEV>)
    requires Proper(d) && Next(n, d, m) && (n.Add? || n.AddRec?) && n != d && n != Zero && d != One
    ensures forall i :: 0 <= i < |n.ops| ==> Next(n.ops[i], d, m)
  {
  }

  lemma RecurrenceContains(se: Builders, n: SCEV, d: SCEV, r: multiset<SCEV>, sums: bool)
    requires Sound(se) && KeepsContents(se, sums) && WellFormed(se, n) && Proper(d) && Atom(d)
    requires n.AddRec? && |n.ops| == 2 && d != One && Works(se, n.ops[0], d) && Works(se, n.ops[1], d)
    requires Contains(Divide(se, n.ops[0], d, 1).value.quotient, r) && Contains(Divide(se, n.ops[1], d, 1).value.quotient, r)
    ensures Divide(se, n, d, 1).Some? && Contains(Divide(se, n, d, 1).value.quotient, r)
  {
    hide Sound, WellFormed, Contains, Faithful, FaithfulVisit, DivideTerms, DivideFactor, Unknowns, AllContain;
    OperandsStay(se, n);
    QuotientCarries(se, n.ops[0], d);
    QuotientCarries(se, n.ops[1], d);
    var q, t := Divide(se, n.ops[0], d, 1).value.quotient, Divide(se, n.ops[1], d, 1).value.quotient;
    assert RecurrenceOperands(se, q, t, n.loop);
    assert Contains(se.getAddRec(q, t, n.loop), r);
  }

  lemma {:induction false} TermsContain(se: Builders, n: SCEV, d: SCEV, k: nat, m: multiset<SCEV>, sums: bool)
    requires Sound(se) && KeepsExpanded(se, sums) && KeepsContents(se, sums)
    requires WellFormed(se, n) && Expanded(n, sums) && n.Add? && k <= |n.ops| && Proper(d)
    requires forall i :: 0 <= i < |n.ops| ==> Next(n.ops[i], d, m)
    ensures DivideTerms(se, n, d, k, 1).Some?
    ensures AllContain(DivideTerms(se, n, d, k, 1).value.0, Rest(m, d)) && (n.ops != [] ==> Atom(d))
    decreases n, 0, k
  {
    hide Sound, KeepsExpanded, KeepsContents, Divide, Faithful, Contains, Next, Rest;
    if n.ops != [] {
      NextIsAtom(n.ops[0], d, m);
    }
    if k > 0 {
      PartsFormed(se, n);
      TermsContain(se, n, d, k - 1, m, sums);
      QuotientContains(se, n.ops[k - 1], d, m, sums);
    }
  }

  lemma NextIsAtom(n: SCEV, d: SCEV, m: multiset<SCEV>)
    requires Proper(d) && Next(n, d, m)
    ensures Atom(d) && Unknowns(Rest(m, d))
  {
  }

  lemma SumContains(se: Builders, n: SCEV, d: SCEV, r: multiset<SCEV>, sums: bool)
    requires Sound(se) && KeepsExpanded(se, sums) && KeepsContents(se, sums) && Unknowns(r)
    requires WellFormed(se, n) && Expanded(n, sums) && n.Add? && Proper(d) && Atom(d) && n != d && d != One
    requires DivideTerms(se, n, d, |n.ops|, 1).Some? && AllContain(DivideTerms(se, n, d, |n.ops|, 1).value.0, r)
    ensures Divide(se, n, d, 1).Some? && Contains(Divide(se, n, d, 1).value.quotient, r)
  {
    hide Sound, KeepsExpanded, DivideTerms, Contains, Unknowns, AllFormed;
    TermsExpanded(se, n, d, |n.ops|, sums);
    var qs := DivideTerms(se, n, d, |n.ops|, 1).value.0;
    assert n.ops != [];
    CarriedForms(se, n, qs);
    assert |n.ops| != 1 ==> Contains(se.getAdd(qs), r);
    assert Divide(se, n, d, 1) == Visit(se, n, d, 1);
  }

  // ---------- Products as denominators ----------

  /** The unknowns among the factors of a denominator. */
  function UnknownsOf(ds: seq<SCEV>): (m: multiset<SCEV>) {
    if ds == [] then multiset{} else (if ds[0].Unknown? then multiset{ds[0]} else multiset{}) + UnknownsOf(ds[1..])
  }

  lemma {:induction false} OnlyUnknowns(ds: seq<SCEV>)
    ensures Unknowns(UnknownsOf(ds))
  {
    if ds != [] {
      OnlyUnknowns(ds[1..]);
    }
  }

  lemma TailUnknowns(ds: seq<SCEV>, i: nat)
    requires i < |ds|
    ensures ds[i].Unknown? ==> ds[i] in UnknownsOf(ds[i..])
    ensures Rest(UnknownsOf(ds[i..]), ds[i]) == UnknownsOf(ds[i + 1..])
  {
    assert ds[i..][0] == ds[i] && ds[i..][1..] == ds[i + 1..];
  }

  /** Division by one factor. */
  lemma FactorStep(se: Builders, q: SCEV, d: SCEV, m: multiset<SCEV>, sums: bool)
    requires Sound(se) && KeepsZero(se) && KeepsExpanded(se, sums) && KeepsContents(se, sums)
    requires WellFormed(se, q) && Expanded(q, sums) && Proper(d) && Next(q, d, m)
    ensures var r := Divide(se, q, d, 1);
            && r.Some? && r.value.remainder == Zero && Contains(r.value.quotient, Rest(m, d))
            && WellFormed(se, r.value.quotient) && Expanded(r.value.quotient, sums)
  {
    hide Sound, KeepsZero, KeepsExpanded, KeepsContents, WellFormed, Expanded, Divide, Faithful, Contains, MultipleOf, Rest;
    QuotientContains(se, q, d, m, sums);
    NextIsMultiple(se, q, d, m);
    MultipleDivided(se, q, d, 1);
    ExpandedQuotient(se, q, d, sums);
  }

  lemma {:induction false} FactorsContained(se: Builders, n: SCEV, d: SCEV, i: nat, q: SCEV, sums: bool)
    requires Sound(se) && KeepsZero(se) && KeepsExpanded(se, sums) && KeepsContents(se, sums)
    requires WellFormed(se, q) && Expanded(q, sums) && Proper(d) && d.Mul? && Monomial(d) && i <= |d.ops|
    requires forall k :: 1 <= k < |d.ops| ==> d.ops[k].Unknown?
    requires Contains(q, UnknownsOf(d.ops[i..])) && (i == 0 && d.ops[0].Constant? ==> MultipleOf(q, d.ops[0]))
    ensures var r := DivideByFactors(se, n, d, i, q, 1); r.Some? && r.value.remainder == Zero
    decreases |d.ops| - i
  {
    hide Sound, KeepsZero, KeepsExpanded, KeepsContents, WellFormed, Expanded, Divide;
    hide Contains, MultipleOf, UnknownsOf, Rest, Unknowns;
    if i < |d.ops| {
      var u := d.ops[i];
      TailUnknowns(d.ops, i);
      OnlyUnknowns(d.ops[i..]);
      FactorStep(se, q, u, UnknownsOf(d.ops[i..]), sums);
      FactorsContained(se, n, d, i + 1, Divide(se, q, u, 1).value.quotient, sums);
    }
  }

  /**
   An expression in expanded form, all terms of which have the factors of the denominator, is divided by it without a
   remainder.
   */
  lemma ProductDivides(se: Builders, n: SCEV, d: SCEV, sums: bool, fuel: nat)
    requires Sound(se) && KeepsZero(se) && KeepsExpanded(se, sums) && KeepsContents(se, sums)
    requires WellFormed(se, n) && Expanded(n, sums) && Proper(d) && d.Mul? && Monomial(d) && fuel > 0
    requires forall k :: 1 <= k < |d.ops| ==> d.ops[k].Unknown?
    requires Contains(n, UnknownsOf(d.ops)) && (d.ops[0].Constant? ==> MultipleOf(n, d.ops[0]))
    ensures var r := Divide(se, n, d, fuel); r.Some? && r.value.remainder == Zero
  {
    hide Sound, KeepsZero, KeepsExpanded, KeepsContents, WellFormed, Expanded, Contains, MultipleOf;
    assert d.ops[0..] == d.ops;
    FactorsContained(se, n, d, 0, n, sums);
    MoreFuel(se, n, d, 1, fuel);
  }
}

/**
 What the search for a common divisor finds among terms that are products of constants and unknowns: every unknown as
 often as all terms have it.
 */
module ScevCommonFactors {
  import opened DivisionTermination
  import opened GcdSearch
  import opened ScalarEvolution
  import opened ScevDivision
  import opened ScevMultiples
  import opened Wrappers

  // ---------- One term ----------

  /** The divisors of a term: unknowns, with at most one constant, which comes first. */
  predicate Divisors(ds: seq<SCEV>, half: nat) {
    && (ds != [] ==> ds[0].Unknown? || (ds[0].Constant? && Word(ds[0].v, half)))
    && forall i :: 1 <= i < |ds| ==> ds[i].Unknown?
  }

  function Less(m: nat, n: nat): nat {
    if m <= n then m else n
  }

  /** The divisor is a factor of the term, or a constant that divides its constant. */
  predicate Divisor(d: SCEV, t: SCEV) {
    if d.Constant? then d.v != 0 && ConstantDivides(d.v, t) else Times(t, d) > 0
  }

  lemma UnknownsTail(ds: seq<SCEV>, half: nat)
    requires Divisors(ds, half) && ds != []
    ensures Divisors(ds[1..], half) && forall i :: 0 <= i < |ds[1..]| ==> ds[1..][i].Unknown?
    ensures multiset(ds) == multiset{ds[0]} + multiset(ds[1..])
  {
    assert ds == [ds[0]] + ds[1..];
  }

  /** Every unknown is kept as often as the divisors and the term have it. */
  ghost predicate SameCounts(kept: seq<SCEV>, ds: seq<SCEV>, rest: SCEV) {
    forall u: SCEV :: u.Unknown? ==> multiset(kept)[u] == Less(multiset(ds)[u], Times(rest, u))
  }

  lemma OneMoreKept(kept: seq<SCEV>, d: SCEV, ds: seq<SCEV>, rest: SCEV, q: SCEV, half: nat)
    requires d.Unknown? && Times(rest, d) > 0 && Without(q, rest, d, half) && SameCounts(kept, ds, q)
    ensures SameCounts([d] + kept, [d] + ds, rest)
  {
    hide Times, Term;
    forall u: SCEV | u.Unknown?
      ensures multiset([d] + kept)[u] == Less(multiset([d] + ds)[u], Times(rest, u))
    {
      assert multiset(kept)[u] == Less(multiset(ds)[u], Times(q, u));
    }
  }

  lemma NoneMoreKept(kept: seq<SCEV>, d: SCEV, ds: seq<SCEV>, rest: SCEV)
    requires (d.Unknown? ==> Times(rest, d) == 0) && SameCounts(kept, ds, rest)
    ensures SameCounts(kept, [d] + ds, rest)
  {
    hide Times;
  }

  lemma ConstantKept(kept: seq<SCEV>, d: SCEV, ds: seq<SCEV>, rest: SCEV, q: SCEV, half: nat)
    requires d.Constant? && SameUnknowns(q, rest, half) && SameCounts(kept, ds, q)
    ensures SameCounts([d] + kept, [d] + ds, rest)
  {
    hide Times, Term;
    forall u: SCEV | u.Unknown?
      ensures multiset([d] + kept)[u] == Less(multiset([d] + ds)[u], Times(rest, u))
    {
      assert multiset(kept)[u] == Less(multiset(ds)[u], Times(q, u));
    }
  }

  /** Of unknowns those are kept that the term still has when their turn comes. */
  lemma {:induction false} KeptUnknowns(se: Builders, rest: SCEV, ds: seq<SCEV>)
    requires Sound(se) && KeepsTerms(se) && Term(rest, se.half)
    requires AllProper(ds) && forall i :: 0 <= i < |ds| ==> ds[i].Unknown?
    ensures Keep(se, rest, ds, 1).Some?
    ensures var kept := Keep(se, rest, ds, 1).value;
            (forall i :: 0 <= i < |kept| ==> kept[i].Unknown?) && SameCounts(kept, ds, rest)
    decreases |ds|
  {
    hide Sound, KeepsTerms, Divide, Term, Times, SameCounts;
    if ds == [] {
      NothingCounted(rest);
    } else {
      assert ds == [ds[0]] + ds[1..];
      TermByUnknown(se, rest, ds[0]);
      var r := Divide(se, rest, ds[0], 1).value;
      if r.remainder != Zero {
        KeptUnknowns(se, rest, ds[1..]);
        NoneMoreKept(Keep(se, rest, ds[1..], 1).value, ds[0], ds[1..], rest);
      } else {
        KeptUnknowns(se, r.quotient, ds[1..]);
        OneMoreKept(Keep(se, r.quotient, ds[1..], 1).value, ds[0], ds[1..], rest, r.quotient, se.half);
      }
    }
  }

  lemma NothingCounted(rest: SCEV)
    ensures SameCounts([], [], rest)
  {
  }

  /** Behind a constant in front the unknowns are kept as before. */
  lemma KeptConstant(se: Builders, rest: SCEV, ds: seq<SCEV>)
    requires Sound(se) && KeepsTerms(se) && Term(rest, se.half) && AllProper(ds)
    requires ds != [] && ds[0].Constant? && Word(ds[0].v, se.half) && forall i :: 0 <= i < |ds[1..]| ==> ds[1..][i].Unknown?
    ensures Keep(se, rest, ds, 1).Some?
    ensures var kept := Keep(se, rest, ds, 1).value; var front := ConstantDivides(ds[0].v, rest);
            && (front ==> kept != [] && kept[0] == ds[0])
            && (forall i :: (if front then 1 else 0) <= i < |kept| ==> kept[i].Unknown?)
            && SameCounts(kept, ds, rest)
  {
    hide Sound, KeepsTerms, Divide, Term, Times, ConstantDivides, SameCounts, Word;
    assert ds == [ds[0]] + ds[1..];
    TermByConstant(se, rest, ds[0].v);
    var r := Divide(se, rest, ds[0], 1).value;
    if r.remainder != Zero {
      KeptUnknowns(se, rest, ds[1..]);
      NoneMoreKept(Keep(se, rest, ds[1..], 1).value, ds[0], ds[1..], rest);
    } else {
      KeptUnknowns(se, r.quotient, ds[1..]);
      ConstantKept(Keep(se, r.quotient, ds[1..], 1).value, ds[0], ds[1..], rest, r.quotient, se.half);
    }
  }

  lemma KeptMembers(kept: seq<SCEV>, ds: seq<SCEV>, rest: SCEV, half: nat)
    requires Divisors(kept, half) && Divisors(ds, half) && SameCounts(kept, ds, rest)
    requires forall d: SCEV :: d.Constant? ==> (d in kept <==> d in ds && Divisor(d, rest))
    ensures forall d :: d in kept <==> d in ds && Divisor(d, rest)
  {
    hide Times, ConstantDivides;
    forall d
      ensures d in kept <==> d in ds && Divisor(d, rest)
    {
      assert d in kept <==> multiset(kept)[d] > 0;
      assert d in ds <==> multiset(ds)[d] > 0;
    }
  }

  /** A divisor is kept exactly when it divides the term, and an unknown as often as both have it. */
  lemma KeptDivisors(se: Builders, rest: SCEV, ds: seq<SCEV>)
    requires Sound(se) && KeepsTerms(se) && Term(rest, se.half) && Divisors(ds, se.half) && AllProper(ds) && ds != []
    ensures Keep(se, rest, ds, 1).Some?
    ensures var kept := Keep(se, rest, ds, 1).value;
            && Divisors(kept, se.half) && (forall d :: d in kept <==> d in ds && Divisor(d, rest))
            && SameCounts(kept, ds, rest)
  {
    hide Sound, KeepsTerms, Keep, Term, Times, ConstantDivides, SameCounts;
    if ds[0].Constant? {
      UnknownsTail(ds, se.half);
      KeptConstant(se, rest, ds);
      var kept := Keep(se, rest, ds, 1).value;
      KeptMembers(kept, ds, rest, se.half);
    } else {
      KeptUnknowns(se, rest, ds);
      var kept := Keep(se, rest, ds, 1).value;
      KeptMembers(kept, ds, rest, se.half);
    }
  }

  // ---------- All terms ----------

  ghost predicate AllTerms(se: Builders, terms: seq<SCEV>) {
    forall t :: t in terms ==> Term(t, se.half)
  }

  /** Every divisor fails to divide one of the terms. */
  ghost predicate NoneDivides(ds: seq<SCEV>, terms: seq<SCEV>) {
    terms != [] && forall d :: d in ds ==> exists t :: t in terms && !Divisor(d, t)
  }

  /** The unknown is a factor of `g` as often as it is one of all terms and among the divisors. */
  ghost predicate Shares(g: SCEV, u: SCEV, ds: seq<SCEV>, terms: seq<SCEV>) {
    && Times(g, u) <= multiset(ds)[u] && (forall t :: t in terms ==> Times(g, u) <= Times(t, u))
    && (Times(g, u) == multiset(ds)[u] || exists t :: t in terms && Times(g, u) == Times(t, u))
  }

  ghost predicate Collects(g: SCEV, ds: seq<SCEV>, terms: seq<SCEV>, half: nat)
    requires ds != []
  {
    && Term(g, half) && (forall u: SCEV :: u.Unknown? ==> Shares(g, u, ds, terms))
    && Part(g) == if ds[0].Constant? && (forall t :: t in terms ==> Divisor(ds[0], t)) then ds[0].v else 1
  }

  lemma {:induction false} NarrowTerms(se: Builders, terms: seq<SCEV>, ds: seq<SCEV>)
    requires Sound(se) && KeepsTerms(se) && AllTerms(se, terms) && Divisors(ds, se.half) && AllProper(ds) && ds != []
    ensures Narrow(se, terms, ds, 1).Some?
    ensures var g := Narrow(se, terms, ds, 1).value;
            if NoneDivides(ds, terms) then g == CouldNotCompute else Collects(g, ds, terms, se.half)
  {
    hide Sound, KeepsTerms, Keep, Divisor, Term, Times, Collects, NoneDivides, Divisors;
    if terms == [] {
      AllCollected(se, ds);
    } else {
      assert terms[0] in terms && terms == [terms[0]] + terms[1..];
      KeptDivisors(se, terms[0], ds);
      var kept := Keep(se, terms[0], ds, 1).value;
      if kept == [] {
        NothingKept(ds, terms);
      } else {
        NarrowTerms(se, terms[1..], kept);
        StillNone(ds, kept, terms);
        if !NoneDivides(ds, terms) {
          CollectedFurther(Narrow(se, terms[1..], kept, 1).value, ds, kept, terms, se.half);
        }
      }
    }
  }

  lemma AllCollected(se: Builders, ds: seq<SCEV>)
    requires KeepsTerms(se) && Divisors(ds, se.half) && ds != []
    ensures Collects(if |ds| == 1 then ds[0] else se.getMul(ds), ds, [], se.half) && !NoneDivides(ds, [])
  {
    hide KeepsTerms, Term, Times;
    var c := if ds[0].Constant? then ds[0].v else 1;
    LargeWords(se);
    assert Foldable(ds, se.half) && PartOf(ds, c);
    QuotientBuilt(se, ds);
  }

  lemma NothingKept(ds: seq<SCEV>, terms: seq<SCEV>)
    requires terms != [] && forall d :: !(d in ds && Divisor(d, terms[0]))
    ensures NoneDivides(ds, terms)
  {
    hide Divisor;
    assert terms[0] in terms;
  }

  lemma StillNone(ds: seq<SCEV>, kept: seq<SCEV>, terms: seq<SCEV>)
    requires terms != [] && kept != [] && forall d :: d in kept <==> d in ds && Divisor(d, terms[0])
    ensures NoneDivides(ds, terms) <==> NoneDivides(kept, terms[1..])
  {
    hide Divisor;
    assert terms == [terms[0]] + terms[1..];
    assert kept[0] in kept;
    if NoneDivides(kept, terms[1..]) {
      forall d | d in ds
        ensures exists t :: t in terms && !Divisor(d, t)
      {
        if Divisor(d, terms[0]) {
          var t :| t in terms[1..] && !Divisor(d, t);
          assert t in terms;
        } else {
          assert terms[0] in terms;
        }
      }
    }
    if NoneDivides(ds, terms) {
      forall d | d in kept
        ensures exists t :: t in terms[1..] && !Divisor(d, t)
      {
        var t :| t in terms && !Divisor(d, t);
        assert t in terms[1..];
      }
      var t :| t in terms && !Divisor(kept[0], t);
      assert t in terms[1..];
    }
  }

  lemma CollectedFurther(g: SCEV, ds: seq<SCEV>, kept: seq<SCEV>, terms: seq<SCEV>, half: nat)
    requires terms != [] && ds != [] && kept != [] && Divisors(ds, half) && Divisors(kept, half)
    requires forall d :: d in kept <==> d in ds && Divisor(d, terms[0])
    requires SameCounts(kept, ds, terms[0])
    requires Collects(g, kept, terms[1..], half)
    ensures Collects(g, ds, terms, half)
  {
    hide Divisor, Term, Times;
    assert terms == [terms[0]] + terms[1..];
    forall u: SCEV | u.Unknown?
      ensures Shares(g, u, ds, terms)
    {
      assert Shares(g, u, kept, terms[1..]);
      assert terms[0] in terms;
    }
    SameConstant(ds, kept, terms, half);
  }

  /** The constant among the divisors is kept when it divides the term, and it stays in front. */
  lemma SameConstant(ds: seq<SCEV>, kept: seq<SCEV>, terms: seq<SCEV>, half: nat)
    requires terms != [] && ds != [] && kept != [] && Divisors(ds, half) && Divisors(kept, half)
    requires forall d :: d in kept <==> d in ds && Divisor(d, terms[0])
    ensures (kept[0].Constant? && forall t :: t in terms[1..] ==> Divisor(kept[0], t)) <==>
            (ds[0].Constant? && forall t :: t in terms ==> Divisor(ds[0], t))
    ensures kept[0].Constant? ==> kept[0] == ds[0]
  {
    hide Divisor;
    assert terms == [terms[0]] + terms[1..];
    assert kept[0] in kept && ds[0] in ds && terms[0] in terms;
    if ds[0].Constant? && Divisor(ds[0], terms[0]) {
      assert ds[0] in kept;
    }
  }

  // ---------- The answer ----------

  ghost predicate HasRemainder(se: Builders, t: SCEV, d: SCEV, fuel: nat)
    requires Proper(d)
  {
    var r := Divide(se, t, d, fuel); r.Some? && r.value.remainder != Zero
  }

  /** The unknown is a factor of `g` as often as it is one of the term with the fewest occurrences. */
  ghost predicate Greatest(g: SCEV, u: SCEV, terms: seq<SCEV>) {
    && (forall t :: t in terms ==> Times(g, u) <= Times(t, u))
    && exists t :: t in terms && Times(g, u) == Times(t, u)
  }

  lemma DivisorDivides(se: Builders, t: SCEV, d: SCEV, fuel: nat)
    requires Sound(se) && KeepsTerms(se) && Term(t, se.half) && Proper(d) && (d.Unknown? || (d.Constant? && Word(d.v, se.half)))
    requires fuel > 0
    ensures HasRemainder(se, t, d, fuel) <==> !Divisor(d, t)
  {
    hide Sound, KeepsTerms, Divide, Term, Times, ConstantDivides;
    if d.Constant? {
      TermByConstant(se, t, d.v);
    } else {
      TermByUnknown(se, t, d);
    }
    MoreFuel(se, t, d, 1, fuel);
  }

  lemma TermDivisors(t: SCEV, half: nat)
    requires Term(t, half)
    ensures Divisors(DivisorsOf(t), half) && DivisorsOf(t) != [] && AllProper(DivisorsOf(t))
    ensures forall u: SCEV :: u.Unknown? ==> multiset(DivisorsOf(t))[u] == Times(t, u)
    ensures Part(t) == if DivisorsOf(t)[0].Constant? then DivisorsOf(t)[0].v else 1
  {
  }

  /** Every factor of the first term leaves a remainder of another one. */
  ghost predicate NothingShared(se: Builders, terms: seq<SCEV>, fuel: nat)
    requires terms != [] ==> AllProper(DivisorsOf(terms[0]))
  {
    terms == [] ||
    (|terms| >= 2 && forall i :: 0 <= i < |DivisorsOf(terms[0])| ==>
       exists t :: t in terms[1..] && HasRemainder(se, t, DivisorsOf(terms[0])[i], fuel))
  }

  lemma NoneIsNothingShared(se: Builders, terms: seq<SCEV>, fuel: nat)
    requires Sound(se) && KeepsTerms(se) && AllTerms(se, terms) && |terms| >= 2 && fuel > 0
    requires AllProper(DivisorsOf(terms[0]))
    ensures NothingShared(se, terms, fuel) <==> NoneDivides(DivisorsOf(terms[0]), terms[1..])
  {
    hide Sound, KeepsTerms, Divide, Times, ConstantDivides, HasRemainder, Divisor, Term, AllProper;
    var ds := DivisorsOf(terms[0]);
    assert terms[0] in terms;
    TermDivisors(terms[0], se.half);
    forall i, t | 0 <= i < |ds| && t in terms[1..]
      ensures Proper(ds[i]) && (HasRemainder(se, t, ds[i], fuel) <==> !Divisor(ds[i], t))
    {
      assert t in terms;
      DivisorIsProper(ds, i);
      DivisorDivides(se, t, ds[i], fuel);
    }
    if NothingShared(se, terms, fuel) {
      forall d | d in ds
        ensures exists t :: t in terms[1..] && !Divisor(d, t)
      {
        var i :| 0 <= i < |ds| && ds[i] == d;
        var t :| t in terms[1..] && HasRemainder(se, t, ds[i], fuel);
      }
      assert terms[1] in terms[1..];
    }
    if NoneDivides(ds, terms[1..]) {
      forall i | 0 <= i < |ds|
        ensures exists t :: t in terms[1..] && HasRemainder(se, t, ds[i], fuel)
      {
        assert ds[i] in ds;
        var t :| t in terms[1..] && !Divisor(ds[i], t);
        assert HasRemainder(se, t, ds[i], fuel);
      }
    }
  }

  lemma DivisorIsProper(ds: seq<SCEV>, i: nat)
    requires AllProper(ds) && i < |ds|
    ensures Proper(ds[i])
  {
  }

  /** What is known of an answer. */
  ghost predicate BestAnswer(se: Builders, terms: seq<SCEV>, g: SCEV)
    requires terms != []
  {
    && Term(g, se.half) && (forall u: SCEV :: u.Unknown? ==> Greatest(g, u, terms))
    && Part(g) == if (forall t :: t in terms[1..] ==> ConstantIn(terms[0], t)) then Part(terms[0]) else 1
  }

  /** The constant factor of a term divides that of another one. */
  predicate ConstantIn(t: SCEV, other: SCEV) {
    Part(t) != 0 && ConstantDivides(Part(t), other)
  }

  lemma SingleIsBest(se: Builders, t: SCEV)
    requires Term(t, se.half)
    ensures BestAnswer(se, [t], t) && t != CouldNotCompute
  {
    hide Times, ConstantDivides;
    assert t in [t] && [t][1..] == [];
  }

  lemma CollectedIsBest(se: Builders, terms: seq<SCEV>, g: SCEV)
    requires terms != [] && Term(terms[0], se.half) && DivisorsOf(terms[0]) != []
    requires Collects(g, DivisorsOf(terms[0]), terms[1..], se.half)
    ensures BestAnswer(se, terms, g) && g != CouldNotCompute
  {
    hide Times, ConstantDivides;
    var ds := DivisorsOf(terms[0]);
    TermDivisors(terms[0], se.half);
    assert terms == [terms[0]] + terms[1..];
    forall u: SCEV | u.Unknown?
      ensures Greatest(g, u, terms)
    {
      assert Shares(g, u, ds, terms[1..]);
      assert terms[0] in terms;
    }
    OneDivides();
    assert ds[0].Constant? ==> forall t :: Divisor(ds[0], t) <==> ConstantIn(terms[0], t);
  }

  lemma OneDivides()
    ensures forall t :: ConstantDivides(1, t)
  {
  }

  /**
   The answer for products of constants and unknowns: there is none exactly when every factor of the first term leaves a
   remainder, and it has every unknown as often as all terms have it, and the constant of the first term when that
   divides the constants of all.
   */
  lemma GcdOfTerms(se: Builders, terms: seq<SCEV>, fuel: nat)
    requires Sound(se) && KeepsTerms(se) && AllTerms(se, terms) && (terms != [] ==> AllProper(DivisorsOf(terms[0]))) && fuel > 0
    ensures Gcd(se, terms, fuel).Some?
    ensures var g := Gcd(se, terms, fuel).value;
            && (g == CouldNotCompute <==> NothingShared(se, terms, fuel))
            && (g != CouldNotCompute ==> BestAnswer(se, terms, g))
  {
    hide Sound, KeepsTerms, Narrow, Divisors, Collects, NoneDivides, AllProper, BestAnswer, HasRemainder;
    if |terms| == 1 {
      SingleIsBest(se, terms[0]);
      assert terms == [terms[0]];
    } else if |terms| >= 2 {
      hide NothingShared, Term;
      var ds := DivisorsOf(terms[0]);
      assert terms[0] in terms;
      TermDivisors(terms[0], se.half);
      NarrowTerms(se, terms[1..], ds);
      MoreFuelNarrow(se, terms[1..], ds, 1, fuel);
      NoneIsNothingShared(se, terms, fuel);
      if !NoneDivides(ds, terms[1..]) {
        CollectedIsBest(se, terms, Narrow(se, terms[1..], ds, 1).value);
      }
    }
  }

  /** An unknown that every term has `k` times is a factor of the answer as often. */
  lemma SharedIsFound(se: Builders, terms: seq<SCEV>, u: SCEV, k: nat, fuel: nat)
    requires Sound(se) && KeepsTerms(se) && terms != [] && AllTerms(se, terms) && AllProper(DivisorsOf(terms[0])) && fuel > 0
    requires u.Unknown? && k > 0 && forall t :: t in terms ==> Times(t, u) >= k
    ensures var g := Gcd(se, terms, fuel); g.Some? && g.value != CouldNotCompute && Times(g.value, u) >= k
  {
    hide Sound, KeepsTerms, Gcd, Times, AllProper, HasRemainder, Term;
    GcdOfTerms(se, terms, fuel);
    var ds := DivisorsOf(terms[0]);
    assert terms[0] in terms;
    TermDivisors(terms[0], se.half);
    assert multiset(ds)[u] > 0;
    var i :| 0 <= i < |ds| && ds[i] == u;
    forall t | t in terms[1..]
      ensures !HasRemainder(se, t, ds[i], fuel)
    {
      assert t in terms;
      DivisorDivides(se, t, u, fuel);
    }
    assert Greatest(Gcd(se, terms, fuel).value, u, terms);
  }
}

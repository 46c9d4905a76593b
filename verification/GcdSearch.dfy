/** The search for a common divisor of terms in `findGCD` of lib/Support/SCEVUtils.cpp. */
module GcdSearch {
  import opened DivisionTermination
  import opened ScalarEvolution
  import opened ScevDivision
  import opened Wrappers

  predicate AllProper(ds: seq<SCEV>) {
    forall i :: 0 <= i < |ds| ==> Proper(ds[i])
  }

  /** The divisors that divide `rest` one after the other, unless a division does not end. */
  function Keep(se: Builders, rest: SCEV, ds: seq<SCEV>, fuel: nat): (kept: Option<seq<SCEV>>)
    requires AllProper(ds)
    ensures kept.Some? ==> AllProper(kept.value) && |kept.value| <= |ds| && (|kept.value| == |ds| ==> kept.value == ds)
    decreases |ds|
  {
    if ds == [] then Some([])
    else
      var r :- Divide(se, rest, ds[0], fuel);
      if r.remainder != Zero then Keep(se, rest, ds[1..], fuel)
      else
        var more :- Keep(se, r.quotient, ds[1..], fuel);
        Some([ds[0]] + more)
  }

  /** The result for terms that `ds` have to divide. */
  function Narrow(se: Builders, terms: seq<SCEV>, ds: seq<SCEV>, fuel: nat): Option<SCEV>
    requires AllProper(ds)
  {
    if terms == [] then Some(if |ds| == 1 then ds[0] else se.getMul(ds))
    else
      var kept :- Keep(se, terms[0], ds, fuel);
      if kept == [] then Some(CouldNotCompute) else Narrow(se, terms[1..], kept, fuel)
  }

  /** The factors of a term, or the term itself. */
  function DivisorsOf(t: SCEV): (ds: seq<SCEV>) {
    if t.Mul? then t.ops else [t]
  }

  /** The result for sorted terms. */
  function Gcd(se: Builders, terms: seq<SCEV>, fuel: nat): Option<SCEV>
    requires terms != [] ==> AllProper(DivisorsOf(terms[0]))
  {
    if terms == [] then Some(CouldNotCompute)
    else if |terms| < 2 then Some(if terms[0] == Zero then CouldNotCompute else terms[0])
    else Narrow(se, terms[1..], DivisorsOf(terms[0]), fuel)
  }

  lemma {:induction false} MoreFuelKeep(se: Builders, rest: SCEV, ds: seq<SCEV>, f: nat, g: nat)
    requires AllProper(ds) && f <= g && Keep(se, rest, ds, f).Some?
    ensures Keep(se, rest, ds, g) == Keep(se, rest, ds, f)
    decreases |ds|
  {
    hide Divide;
    if ds != [] {
      MoreFuel(se, rest, ds[0], f, g);
      var r := Divide(se, rest, ds[0], f).value;
      MoreFuelKeep(se, if r.remainder != Zero then rest else r.quotient, ds[1..], f, g);
    }
  }

  lemma {:induction false} MoreFuelNarrow(se: Builders, terms: seq<SCEV>, ds: seq<SCEV>, f: nat, g: nat)
    requires AllProper(ds) && f <= g && Narrow(se, terms, ds, f).Some?
    ensures Narrow(se, terms, ds, g) == Narrow(se, terms, ds, f)
  {
    hide Keep;
    if terms != [] {
      MoreFuelKeep(se, terms[0], ds, f, g);
      var kept := Keep(se, terms[0], ds, f).value;
      if kept != [] {
        MoreFuelNarrow(se, terms[1..], kept, f, g);
      }
    }
  }
}

/** Counting finite sets by pairing their elements. */
module Involutions {

  ghost predicate Involution<T(!new)>(s: set<T>, f: T -> T) {
    forall x :: x in s ==> f(x) in s && f(f(x)) == x
  }

  ghost function Fixed<T>(s: set<T>, f: T -> T): set<T> {
    set x | x in s && f(x) == x
  }

  /** Elements that are not fixed come in pairs. */
  lemma {:induction false} FixedParity<T(!new)>(s: set<T>, f: T -> T)
    requires Involution(s, f)
    ensures |s| % 2 == |Fixed(s, f)| % 2
    decreases |s|
  {
    if x :| x in s && f(x) != x {
      var rest := s - {x, f(x)};
      assert Fixed(rest, f) == Fixed(s, f);
      assert |rest| == |s| - 2 by {
        assert s == rest + {x, f(x)} && rest !! {x, f(x)};
      }
      FixedParity(rest, f);
    } else {
      assert Fixed(s, f) == s;
    }
  }

  /** Two involutions have as many fixed elements, up to twos. */
  lemma SameParity<T(!new)>(s: set<T>, f: T -> T, g: T -> T, m: nat, n: nat)
    requires Involution(s, f) && Involution(s, g) && |Fixed(s, f)| == m && |Fixed(s, g)| == n
    ensures m % 2 == n % 2
  {
    hide Involution, Fixed;
    FixedParity(s, f);
    FixedParity(s, g);
  }

  /** Two maps that undo each other. */
  ghost predicate Matched<S(!new), T(!new)>(a: set<S>, b: set<T>, f: S -> T, g: T -> S) {
    && (forall x :: x in a ==> f(x) in b && g(f(x)) == x)
    && (forall y :: y in b ==> g(y) in a && f(g(y)) == y)
  }

  lemma {:induction false} MatchedSize<S(!new), T(!new)>(a: set<S>, b: set<T>, f: S -> T, g: T -> S)
    requires Matched(a, b, f, g)
    ensures |a| == |b|
    decreases |a|
  {
    if x :| x in a {
      MatchedSize(a - {x}, b - {f(x)}, f, g);
    } else {
      assert a == {};
      assert forall y :: y in b ==> g(y) in a;
      assert b == {};
    }
  }
}

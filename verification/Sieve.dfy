/** The quadratic sieve `countPrimeNumbers` of lib/Support/SCEVUtils.cpp. */
module Sieve {
  import opened Arithmetic
  import opened FactorPairs
  import opened Primes
  import opened Windmills

  /** One more than the largest `std::size_t`, and the largest `int`. */
  const SIZE: nat := 0x1_0000_0000_0000_0000
  const INT_MAX: nat := 0x7fff_ffff

  // ---------- Representations by quadratic forms ----------

  /** The pair represents `n` by the form that belongs to `n` modulo 12. */
  predicate Form(n: nat, x: nat, y: nat) {
    || ((n % 12 == 1 || n % 12 == 5) && n == 4 * (x * x) + y * y)
    || (n % 12 == 7 && n == 3 * (x * x) + y * y)
    || (n % 12 == 11 && x > y && n == 3 * (x * x) - y * y)
  }

  /** All pairs of positive numbers that represent `n`. */
  ghost function Representations(n: nat): set<(nat, nat)> {
    set x: nat, y: nat | 1 <= x <= n && 1 <= y <= n && Form(n, x, y) :: (x, y)
  }

  /** Whether an odd number of the pairs `(x, 1)` to `(x, j)` represents `n`. */
  function Row(n: nat, x: nat, j: nat): bool {
    if j == 0 then false else Row(n, x, j - 1) != Form(n, x, j)
  }

  /** Whether an odd number of the pairs in the first `i` rows of length `s` represents `n`. */
  function Rows(n: nat, i: nat, s: nat): bool {
    if i == 0 then false else Rows(n, i - 1, s) != Row(n, i, s)
  }

  ghost function RowPairs(n: nat, x: nat, j: nat): set<(nat, nat)> {
    set y: nat | 1 <= y <= j && Form(n, x, y) :: (x, y)
  }

  ghost function RowsPairs(n: nat, i: nat, s: nat): set<(nat, nat)> {
    set x: nat, y: nat | 1 <= x <= i && 1 <= y <= s && Form(n, x, y) :: (x, y)
  }

  lemma {:induction false} RowParity(n: nat, x: nat, j: nat)
    ensures Row(n, x, j) <==> |RowPairs(n, x, j)| % 2 == 1
  {
    hide Form;
    if j == 0 {
      assert RowPairs(n, x, 0) == {};
    } else {
      RowParity(n, x, j - 1);
      assert RowPairs(n, x, j) == RowPairs(n, x, j - 1) + if Form(n, x, j) then {(x, j)} else {};
    }
  }

  lemma {:induction false} RowsParity(n: nat, i: nat, s: nat)
    ensures Rows(n, i, s) <==> |RowsPairs(n, i, s)| % 2 == 1
  {
    hide Form;
    if i == 0 {
      assert RowsPairs(n, 0, s) == {};
    } else {
      RowsParity(n, i - 1, s);
      RowParity(n, i, s);
      var a, b := RowsPairs(n, i - 1, s), RowPairs(n, i, s);
      assert RowsPairs(n, i, s) == a + b && a !! b;
    }
  }

  lemma SquareMonotone(a: nat, b: nat)
    ensures a <= b <==> a * a <= b * b
    ensures a <= a * a
  {
    if a < b {
      assert b * b == a * a + (b - a) * (b + a);
    }
    if b < a {
      assert a * a == b * b + (a - b) * (a + b);
      assert (a - b) * (a + b) > 0;
    }
    if a > 0 {
      assert a * a == a + (a - 1) * a;
    }
  }

  /** The pairs that represent a number up to the bound have components up to its square root. */
  lemma FormSmall(n: nat, x: nat, y: nat, s: nat)
    requires Form(n, x, y) && x >= 1 && y >= 1 && n < (s + 1) * (s + 1)
    ensures x <= s && y <= s && x <= n && y <= n
  {
    SquareMonotone(x, s);
    SquareMonotone(y, s);
    SquareMonotone(s + 1, x);
    SquareMonotone(s + 1, y);
    SquareMonotone(x, x);
    SquareMonotone(y, y);
    SquareMonotone(y, x);
  }

  /** The rows hold all representations. */
  lemma AllRepresentations(n: nat, s: nat)
    requires n < (s + 1) * (s + 1)
    ensures Rows(n, s, s) <==> |Representations(n)| % 2 == 1
  {
    RowsParity(n, s, s);
    forall p
      ensures p in RowsPairs(n, s, s) <==> p in Representations(n)
    {
      if Form(n, p.0, p.1) && p.0 >= 1 && p.1 >= 1 {
        FormSmall(n, p.0, p.1, s);
      }
    }
    assert RowsPairs(n, s, s) == Representations(n);
  }

  // ---------- The flags ----------

  function FloorSqrt(n: nat): (s: nat)
    ensures s * s <= n < (s + 1) * (s + 1)
  {
    if n == 0 then 0
    else
      var s := FloorSqrt(n - 1);
      if (s + 1) * (s + 1) <= n then s + 1 else s
  }

  /** A flag after the first `i - 1` rows and the first `j` pairs of row `i`. */
  function Flag(n: nat, i: nat, j: nat, s: nat): bool
    requires i >= 1
  {
    (n == 2 || n == 3) || Rows(n, i - 1, s) != Row(n, i, j)
  }

  function Wrap(x: int): (r: nat)
    ensures r < SIZE && (0 <= x < SIZE ==> r == x)
  {
    x % SIZE
  }

  lemma FlagStep(n: nat, i: nat, j: nat, s: nat)
    requires i >= 1
    ensures Flag(n, i, j + 1, s) == if Form(n, i, j + 1) then !Flag(n, i, j, s) else Flag(n, i, j, s)
    ensures Flag(n, i + 1, 0, s) == Flag(n, i, s, s)
  {
  }

  /** Toggles the flags of the numbers that a pair represents. */
  method TogglePair(isPrime: array<bool>, bound: nat, i: nat, j: nat, x2: nat, y2: nat)
    requires isPrime.Length == bound + 1 && bound < INT_MAX && 1 <= i && 1 <= j
    requires x2 == i * i <= bound && y2 == j * j <= bound
    modifies isPrime
    ensures forall n: nat :: n <= bound ==> isPrime[n] == if Form(n, i, j) then !old(isPrime[n]) else old(isPrime[n])
  {
    SquareMonotone(i, j);
    SquareMonotone(j, i);
    var n := Wrap(4 * x2 + y2);
    if n <= bound && (n % 12 == 1 || n % 12 == 5) {
      isPrime[n] := !isPrime[n];
    }
    n := Wrap(n - x2);
    if n <= bound && n % 12 == 7 {
      isPrime[n] := !isPrime[n];
    }
    n := Wrap(n - 2 * y2);
    if i > j && n <= bound && n % 12 == 11 {
      isPrime[n] := !isPrime[n];
    }
  }

  // ---------- Striking multiples of squares ----------

  /** The number is not a multiple of the square of a flagged number from five up to `i`. */
  ghost predicate Spared(flags: seq<bool>, n: nat, i: nat) {
    forall k: nat :: 5 <= k < i && k < |flags| && flags[k] ==> !MultipleOf(n, k * k)
  }

  /** The flags once the squares of the numbers below `i` have been struck. */
  ghost predicate StruckBelow(before: seq<bool>, now: seq<bool>, i: nat) {
    && |now| == |before|
    && forall n :: 0 <= n < |before| ==> (now[n] <==> before[n] && Spared(now, n, i))
  }

  /** Strikes the multiples of the square of `i`. */
  method StrikeSquare(isPrime: array<bool>, bound: nat, i: nat)
    requires isPrime.Length == bound + 1 && bound < INT_MAX && i >= 5 && i * i <= bound
    modifies isPrime
    ensures forall n: nat :: n <= bound ==> (isPrime[n] <==> old(isPrime[n]) && (n == 0 || !MultipleOf(n, i * i)))
  {
    hide MultipleOf;
    SquareMonotone(i, i);
    var n := i * i;
    NextMultiple(n, 0);
    var j := n;
    ghost var m := 1;
    while j <= bound
      invariant n == i * i && j == m * n && m >= 1
      invariant forall k: nat :: k <= bound ==>
                  (isPrime[k] <==> old(isPrime[k]) && !(0 < k < j && MultipleOf(k, n)))
      decreases bound + n - j
    {
      isPrime[j] := false;
      NextMultiple(n, m);
      m := m + 1;
      j := j + n;
    }
  }

  /** The only multiple from `m * n` up to the next one. */
  lemma NextMultiple(n: nat, m: nat)
    requires n >= 1
    ensures MultipleOf(m * n, n) && (m + 1) * n == m * n + n
    ensures forall k: nat :: m * n < k < m * n + n ==> !MultipleOf(k, n)
  {
    forall k: nat | m * n <= k < m * n + n
      ensures k % n == k - m * n
    {
      ModUnique(k, n, m, k - m * n);
    }
  }

  // ---------- The sieve ----------

  /** Two, three, and the numbers with an odd number of representations. */
  ghost predicate Toggled(n: nat) {
    n == 2 || n == 3 || |Representations(n)| % 2 == 1
  }

  /** The number is toggled and is not a multiple of the square of a smaller survivor from five on. */
  ghost predicate Survives(n: nat) {
    Toggled(n) && forall k: nat :: 5 <= k < n && MultipleOf(n, k * k) ==> !Survives(k)
  }

  /** What the result consists of. */
  ghost predicate Selected(n: nat) {
    n == 2 || n == 3 || n == 5 || (n >= 6 && Survives(n) && n % 3 != 0 && n % 5 != 0)
  }

  /** The double loop. */
  method ToggleAll(isPrime: array<bool>, bound: nat)
    requires isPrime.Length == bound + 1 && 3 <= bound < INT_MAX
    requires forall n: nat :: n <= bound ==> isPrime[n] == (n == 2 || n == 3)
    modifies isPrime
    ensures forall n: nat :: n <= bound ==> isPrime[n] == Toggled(n)
  {
    hide Form, Flag, Rows, Row, Toggled;
    var boundSqrt := FloorSqrt(bound);
    NoFlags(boundSqrt);
    var x2: nat := 0;
    var i: nat := 1;
    while i <= boundSqrt
      invariant 1 <= i <= boundSqrt + 1 && x2 == (i - 1) * (i - 1)
      invariant forall n: nat :: n <= bound ==> isPrime[n] == Flag(n, i, 0, boundSqrt)
    {
      NextSquare(i);
      SquareMonotone(i, boundSqrt);
      x2 := x2 + 2 * i - 1;
      ToggleRow(isPrime, bound, boundSqrt, i, x2);
      forall n: nat | n <= bound
        ensures Flag(n, i + 1, 0, boundSqrt) == Flag(n, i, boundSqrt, boundSqrt)
      {
        FlagStep(n, i, 0, boundSqrt);
      }
      i := i + 1;
    }
    forall n: nat | n <= bound
      ensures isPrime[n] == Toggled(n)
    {
      FlagToggled(n, boundSqrt);
    }
  }

  method ToggleRow(isPrime: array<bool>, bound: nat, boundSqrt: nat, i: nat, x2: nat)
    requires isPrime.Length == bound + 1 && bound < INT_MAX && boundSqrt * boundSqrt <= bound
    requires 1 <= i && x2 == i * i <= bound
    requires forall n: nat :: n <= bound ==> isPrime[n] == Flag(n, i, 0, boundSqrt)
    modifies isPrime
    ensures forall n: nat :: n <= bound ==> isPrime[n] == Flag(n, i, boundSqrt, boundSqrt)
  {
    hide Form, Flag;
    var y2: nat := 0;
    var j: nat := 1;
    while j <= boundSqrt
      invariant 1 <= j <= boundSqrt + 1 && y2 == (j - 1) * (j - 1)
      invariant forall n: nat :: n <= bound ==> isPrime[n] == Flag(n, i, j - 1, boundSqrt)
    {
      NextSquare(j);
      SquareMonotone(j, boundSqrt);
      y2 := y2 + 2 * j - 1;
      TogglePair(isPrime, bound, i, j, x2, y2);
      forall n: nat | n <= bound
        ensures isPrime[n] == Flag(n, i, j, boundSqrt)
      {
        FlagStep(n, i, j - 1, boundSqrt);
      }
      j := j + 1;
    }
  }

  lemma NextSquare(i: nat)
    requires i >= 1
    ensures i * i == (i - 1) * (i - 1) + 2 * i - 1
  {
  }

  lemma NoFlags(s: nat)
    ensures forall n: nat :: Flag(n, 1, 0, s) == (n == 2 || n == 3)
  {
  }

  lemma FlagToggled(n: nat, s: nat)
    requires n < (s + 1) * (s + 1)
    ensures Flag(n, s + 1, 0, s) == Toggled(n)
  {
    hide Form;
    AllRepresentations(n, s);
    if n == 2 || n == 3 {
      NotRepresented(n, s, s);
    }
  }

  lemma {:induction false} NotRepresented(n: nat, i: nat, s: nat)
    requires n == 2 || n == 3
    ensures !Rows(n, i, s)
  {
    if i > 0 {
      NotRepresented(n, i - 1, s);
      RowNotRepresented(n, i, s);
    }
  }

  lemma {:induction false} RowNotRepresented(n: nat, x: nat, j: nat)
    requires n == 2 || n == 3
    ensures !Row(n, x, j)
  {
    if j > 0 {
      RowNotRepresented(n, x, j - 1);
    }
  }

  /** Strikes the multiples of the squares of all flagged numbers. */
  method StrikeAll(isPrime: array<bool>, bound: nat)
    requires isPrime.Length == bound + 1 && 3 <= bound < INT_MAX && !isPrime[0]
    modifies isPrime
    ensures StruckBelow(old(isPrime[..]), isPrime[..], FloorSqrt(bound) + 1)
  {
    hide StruckBelow;
    var boundSqrt := FloorSqrt(bound);
    NothingStruck(isPrime[..]);
    var i: nat := 5;
    while i <= boundSqrt
      invariant 5 <= i && StruckBelow(old(isPrime[..]), isPrime[..], i)
      invariant i <= boundSqrt + 1 || i == 5
    {
      SquareMonotone(i, boundSqrt);
      ghost var was := isPrime[..];
      if isPrime[i] {
        StrikeSquare(isPrime, bound, i);
      }
      StruckStep(old(isPrime[..]), was, isPrime[..], i);
      i := i + 1;
    }
    StruckFurther(old(isPrime[..]), isPrime[..], boundSqrt + 1, i);
  }

  lemma NothingStruck(flags: seq<bool>)
    ensures StruckBelow(flags, flags, 5)
  {
  }

  /** Bounds below five strike nothing. */
  lemma StruckFurther(before: seq<bool>, now: seq<bool>, i: nat, j: nat)
    requires StruckBelow(before, now, j) && (i == j || (i <= 5 && j <= 5))
    ensures StruckBelow(before, now, i)
  {
  }

  lemma StruckStep(before: seq<bool>, was: seq<bool>, now: seq<bool>, i: nat)
    requires StruckBelow(before, was, i) && |now| == |was| && 5 <= i && i * i < |was|
    requires before != [] && !before[0]
    requires forall n: nat :: n < |was| ==>
               (now[n] <==> was[n] && !(n > 0 && was[i] && MultipleOf(n, i * i)))
    ensures StruckBelow(before, now, i + 1)
  {
    hide MultipleOf;
    SquareMonotone(i, i);
    forall k: nat | k <= i
      ensures now[k] == was[k]
    {
      SmallIsNoMultiple(k, i);
    }
    forall n | 0 <= n < |before|
      ensures now[n] <==> before[n] && Spared(now, n, i + 1)
    {
      SparedStep(was, now, n, i);
    }
  }

  lemma SparedStep(was: seq<bool>, now: seq<bool>, n: nat, i: nat)
    requires |was| == |now| && 5 <= i < |was| && forall k: nat :: k <= i ==> now[k] == was[k]
    ensures Spared(now, n, i + 1) <==> Spared(was, n, i) && !(was[i] && MultipleOf(n, i * i))
  {
    hide MultipleOf;
  }

  lemma SmallIsNoMultiple(k: nat, i: nat)
    requires k <= i && i >= 5
    ensures k > 0 ==> !MultipleOf(k, i * i)
  {
    assert i * i >= 5 * i;
  }

  /** What remains after striking are the survivors. */
  lemma {:induction false} RemainingSurvives(before: seq<bool>, now: seq<bool>, s: nat, n: nat)
    requires StruckBelow(before, now, s + 1) && n < |before| <= (s + 1) * (s + 1)
    requires forall k: nat :: k < |before| ==> before[k] == Toggled(k)
    ensures now[n] <==> Survives(n)
    decreases n
  {
    hide Toggled;
    assert n == 0 ==> !Toggled(0) by { NotZero(); }
    forall k: nat | 5 <= k < n
      ensures now[k] <==> Survives(k)
    {
      RemainingSurvives(before, now, s, k);
    }
    if n > 0 {
      forall k: nat | 5 <= k && MultipleOf(n, k * k)
        ensures k < n && k <= s
      {
        RootIsSmall(n, k, s);
      }
    }
  }

  lemma NotZero()
    ensures !Toggled(0)
  {
    assert Representations(0) == {};
  }

  lemma RootIsSmall(n: nat, k: nat, s: nat)
    requires 0 < n < (s + 1) * (s + 1) && 5 <= k && MultipleOf(n, k * k)
    ensures k < n && k <= s
  {
    var m := k * k;
    var q := n / m;
    assert n == q * m + n % m;
    AtLeastOnce(q, m);
    assert m >= 5 * k;
    SquareMonotone(s + 1, k);
  }

  // ---------- The survivors are the primes ----------

  /** The representations are those by the form that belongs to the number. */
  lemma FormsOf(n: nat)
    ensures n % 12 == 1 || n % 12 == 5 ==> Representations(n) == Sums(4, n)
    ensures n % 12 == 7 ==> Representations(n) == Sums(3, n)
    ensures n % 12 == 11 ==> Representations(n) == Differences(n)
    ensures n % 2 == 0 || n % 3 == 0 ==> Representations(n) == {}
  {
  }

  /** A number without a square of a prime and without the factors two and three is toggled exactly when it is a prime. */
  lemma ToggledIsPrime(n: nat)
    requires n >= 5 && n % 2 == 1 && n % 3 != 0 && SquareFree(n)
    ensures Toggled(n) <==> Prime(n)
  {
    hide Prime, SquareFree, Square, Representations, Sums, Differences, Pairs;
    FormsOf(n);
    OddPairs(n);
    NotSquare(n);
    if n % 4 == 1 {
      assert n % 12 == 1 || n % 12 == 5;
      FourSquares(n);
    } else {
      assert n % 12 == 7 || n % 12 == 11;
      ThreeSquares(n);
    }
  }

  lemma NotPrimeMultiple(n: nat, k: nat)
    requires 2 <= k < n && MultipleOf(n, k)
    ensures !Prime(n)
  {
    hide MultipleOf;
    var j := SmallDivisor(n, k);
  }

  lemma TwoOrThree(n: nat)
    requires n >= 5 && (n % 2 == 0 || n % 3 == 0)
    ensures !Survives(n) && !Prime(n)
  {
    hide Representations;
    FormsOf(n);
    NotPrimeMultiple(n, if n % 2 == 0 then 2 else 3);
  }

  /** The square of a prime in `n`, which is at least five. */
  lemma PrimeSquare(n: nat, q: nat)
    requires n >= 5 && n % 2 == 1 && n % 3 != 0 && Prime(q) && q * q > 0 && MultipleOf(n, q * q)
    ensures 5 <= q < n && !Prime(n)
  {
    hide MultipleOf, Prime;
    PrimeSize(q);
    MultipleIs(q, q);
    MultipleTrans(n, q * q, q);
    SmallFactors(n, q);
    FourIsNoPrime();
    NoMultipleBelow(n, q * q);
    Primes.Products(2, q, q);
    NotPrimeMultiple(n, q);
  }

  lemma SmallFactors(n: nat, q: nat)
    requires n % 2 == 1 && n % 3 != 0 && q > 0 && MultipleOf(n, q)
    ensures q != 2 && q != 3
  {
  }

  lemma FourIsNoPrime()
    ensures !Prime(4)
  {
    assert MultipleOf(4, 2);
  }

  /** From five on the survivors are the primes. */
  lemma {:induction false} SurvivorsArePrimes(n: nat)
    requires n >= 5
    ensures Survives(n) <==> Prime(n)
  {
    hide MultipleOf, Prime, Toggled, Representations;
    if n % 2 == 0 || n % 3 == 0 {
      TwoOrThree(n);
    } else {
      forall k: nat | 5 <= k < n
        ensures Survives(k) <==> Prime(k)
      {
        SurvivorsArePrimes(k);
      }
      if SquareFree(n) {
        ToggledIsPrime(n);
      } else {
        var q: nat :| Prime(q) && !(q * q > 0 && !MultipleOf(n, q * q));
        PrimeSize(q);
        PrimeSquare(n, q);
      }
    }
  }

  /** The result of the sieve consists of the primes. */
  lemma SelectedArePrimes(n: nat)
    ensures Selected(n) <==> Prime(n)
  {
    hide Survives, Prime;
    if n >= 6 {
      SurvivorsArePrimes(n);
      if Prime(n) {
        NoProperDivisor(n, 3);
        NoProperDivisor(n, 5);
      }
    } else {
      SmallPrimes(n);
    }
  }

  lemma SmallPrimes(n: nat)
    requires n < 6
    ensures Prime(n) <==> n == 2 || n == 3 || n == 5
  {
    FirstRow(n);
    if n >= 2 {
      SiftedIsPrime(n);
    }
  }

  ghost predicate StrictlyIncreasing(s: seq<nat>) {
    forall i, j :: 0 <= i < j < |s| ==> s[i] < s[j]
  }

  /** The primes up to the bound, from the table or by the sieve. */
  method CountPrimeNumbers(bound: nat) returns (primes: seq<nat>)
    requires bound < INT_MAX
    ensures StrictlyIncreasing(primes)
    ensures forall n: nat :: n in primes <==> n <= bound && Prime(n)
  {
    hide Selected, Survives, StruckBelow, Prime, CACHED_PRIMES;
    TableEnd();
    primes := [];
    if bound <= CACHED_PRIMES[|CACHED_PRIMES| - 1] {
      var i := 0;
      while i < |CACHED_PRIMES|
        invariant 0 <= i <= |CACHED_PRIMES| && primes == CACHED_PRIMES[..i]
        invariant i == 0 || CACHED_PRIMES[i - 1] <= bound
      {
        if CACHED_PRIMES[i] <= bound {
          primes := primes + [CACHED_PRIMES[i]];
        } else {
          break;
        }
        i := i + 1;
      }
      TableUpTo(bound, i);
      return;
    }
    var isPrime := new bool[bound + 1];
    for i := 0 to bound + 1
      invariant forall n: nat :: n < i ==> !isPrime[n]
    {
      isPrime[i] := false;
    }
    isPrime[2] := true;
    isPrime[3] := true;
    ToggleAll(isPrime, bound);
    NotZero();
    ghost var before := isPrime[..];
    StrikeAll(isPrime, bound);
    forall n: nat | n <= bound
      ensures isPrime[n] <==> Survives(n)
    {
      RemainingSurvives(before, isPrime[..], FloorSqrt(bound), n);
    }
    primes := CollectPrimes(isPrime, bound);
    forall n: nat
      ensures Selected(n) <==> Prime(n)
    {
      SelectedArePrimes(n);
    }
  }

  /** The entries in front of the first one beyond the bound are the primes up to the bound. */
  lemma TableUpTo(bound: nat, i: nat)
    requires bound <= 281 && i <= |CACHED_PRIMES| && (i == 0 || CACHED_PRIMES[i - 1] <= bound)
    requires i < |CACHED_PRIMES| ==> CACHED_PRIMES[i] > bound
    ensures StrictlyIncreasing(CACHED_PRIMES[..i])
    ensures forall n: nat :: n in CACHED_PRIMES[..i] <==> n <= bound && Prime(n)
  {
    hide Prime, CACHED_PRIMES;
    TableIsSorted();
    forall n: nat
      ensures n in CACHED_PRIMES[..i] <==> n <= bound && Prime(n)
    {
      if n <= bound {
        TableHoldsPrimes(n);
      }
    }
  }

  lemma TableEnd()
    ensures |CACHED_PRIMES| == 60 && CACHED_PRIMES[59] == 281
  {
  }

  lemma TableIsSorted()
    ensures StrictlyIncreasing(CACHED_PRIMES)
  {
    assert forall i :: 0 <= i < |CACHED_PRIMES| - 1 ==> CACHED_PRIMES[i] < CACHED_PRIMES[i + 1];
    Ordered(CACHED_PRIMES);
  }

  lemma Ordered(s: seq<nat>)
    requires forall i :: 0 <= i < |s| - 1 ==> s[i] < s[i + 1]
    ensures StrictlyIncreasing(s)
  {
    forall i, j | 0 <= i < j < |s|
      ensures s[i] < s[j]
    {
      OrderedAt(s, i, j);
    }
  }

  lemma {:induction false} OrderedAt(s: seq<nat>, i: nat, j: nat)
    requires (forall k :: 0 <= k < |s| - 1 ==> s[k] < s[k + 1]) && i < j < |s|
    ensures s[i] < s[j]
    decreases j - i
  {
    if i + 1 < j {
      OrderedAt(s, i + 1, j);
    }
  }

  lemma LargestLast(s: seq<nat>, n: nat)
    requires StrictlyIncreasing(s) && forall k :: k in s ==> k < n
    ensures StrictlyIncreasing(s + [n])
  {
    forall i | 0 <= i < |s|
      ensures s[i] < n
    {
      assert s[i] in s;
    }
  }

  method CollectPrimes(isPrime: array<bool>, bound: nat) returns (primes: seq<nat>)
    requires isPrime.Length == bound + 1 && bound >= 5
    requires forall n: nat :: n <= bound ==> (isPrime[n] <==> Survives(n))
    ensures StrictlyIncreasing(primes) && forall n: nat :: n in primes <==> n <= bound && Selected(n)
  {
    hide Survives;
    primes := [];
    primes := primes + [2];
    primes := primes + [3];
    primes := primes + [5];
    for i: nat := 6 to bound + 1
      invariant StrictlyIncreasing(primes) && forall n: nat :: n in primes <==> n < i && Selected(n)
    {
      if isPrime[i] && i % 3 != 0 && i % 5 != 0 {
        LargestLast(primes, i);
        primes := primes + [i];
      }
    }
  }
}

/**
 The unparser of lib/Unparse/SourceUnparser.cpp: a location given by byte offsets becomes a C expression, a list of
 tokens in front of a variable and a list behind it.
 */
module Unparser {
  import opened Wrappers

  // ---------- Types ----------

  type TypeId = nat

  /** A dimension: its lower bound and its number of elements, when that is a constant. */
  datatype Dim = Dim(lower: int, count: Option<int>)

  /** An element of a structure; not all of them are members. */
  datatype Element = Member(offset: nat, ty: Option<TypeId>) | Other

  datatype Type =
    | Scalar(size: nat)
    | Union(size: nat)
    | Structure(size: nat, elements: seq<Element>)
    | Pointer(size: nat, pointee: Option<TypeId>)
    | Array(size: nat, base: Option<TypeId>, dims: seq<Dim>)

  /** Sizes of known types; a type that is not known has no size. */
  function SizeOf(types: seq<Type>, t: Option<TypeId>): nat {
    if t.Some? && t.value < |types| then types[t.value].size else 0
  }

  predicate Known(dims: seq<Dim>) {
    forall i :: 0 <= i < |dims| ==> dims[i].count.Some?
  }

  /** The number of elements that differ in the dimensions from `i` on. */
  function Volume(dims: seq<Dim>, i: nat): int
    requires i <= |dims| && Known(dims)
    decreases |dims| - i
  {
    if i == |dims| then 1 else dims[i].count.value * Volume(dims, i + 1)
  }

  const INT64: nat := 0x8000_0000_0000_0000
  const UINT32: nat := 0x1_0000_0000

  /** Bounds and numbers of elements are signed 64-bit values. */
  predicate InRange(d: Dim) {
    -(INT64 as int) < d.lower < INT64 && (d.count.Some? ==> 0 <= d.count.value < INT64)
  }

  /** Types as a compiler lays them out; `rank` decreases from an aggregate to its parts, but not through pointers. */
  ghost predicate WellFormed(types: seq<Type>, rank: seq<nat>) {
    && |rank| == |types|
    && forall t: TypeId :: t < |types| ==> Laid(types, rank, t)
  }

  ghost predicate Part(types: seq<Type>, rank: seq<nat>, t: TypeId, part: Option<TypeId>)
    requires |rank| == |types| && t < |types|
  {
    part.Some? ==> part.value < |types| && rank[part.value] < rank[t]
  }

  ghost predicate Laid(types: seq<Type>, rank: seq<nat>, t: TypeId)
    requires |rank| == |types| && t < |types|
  {
    match types[t]
    case Structure(_, elements) =>
      forall i :: 0 <= i < |elements| && elements[i].Member? ==> Part(types, rank, t, elements[i].ty)
    case Pointer(_, pointee) => pointee.Some? ==> pointee.value < |types|
    case Array(size, base, dims) =>
      && Part(types, rank, t, base)
      && (forall i :: 0 <= i < |dims| ==> InRange(dims[i]))
      && (Known(dims) ==> size == SizeOf(types, base) * Volume(dims, 0))
      && (Known(dims) && dims != [] ==> Volume(dims, 1) < UINT32)
    case _ => true
  }

  // ---------- Expressions ----------

  datatype Token =
    | ADDRESS | DEREF | IDENTIFIER | UCONST | SEPARATOR | ADD | SUB | PARENTHESES_LEFT | PARENTHESES_RIGHT
    | SUBSCRIPT_BEGIN | SUBSCRIPT_END | FIELD | CAST_TO_ADDRESS

  function GetPriority(t: Token): nat {
    match t
    case ADD | SUB => 0
    case DEREF | ADDRESS | CAST_TO_ADDRESS => 1
    case SUBSCRIPT_BEGIN | SUBSCRIPT_END | SEPARATOR | FIELD => 2
    case IDENTIFIER | UCONST => 3
    case PARENTHESES_LEFT | PARENTHESES_RIGHT => 4
  }

  datatype Subscript = Subscript(negative: bool, n: nat) {
    function Value(): int {
      if negative then -(n as int) else n
    }

    function Tokens(): seq<Token> {
      if negative then [SUB, UCONST] else [UCONST]
    }
  }

  /** A C expression over one variable. `CastAdd` is `(char *)e + n` or `(char *)e - n`. */
  datatype Expr =
    | Variable
    | AddressOf(e: Expr)
    | Deref(e: Expr)
    | CastAdd(e: Expr, positive: bool, n: nat)
    | Access(e: Expr, member: Element)
    | Index(e: Expr, subs: seq<Subscript>)

  /** The priority of the outermost operation. */
  function Level(e: Expr): nat {
    match e
    case Variable => 3
    case AddressOf(_) | Deref(_) => 1
    case CastAdd(_, _, _) => 0
    case Access(_, _) | Index(_, _) => 2
  }

  function Opening(e: Expr, level: nat): seq<Token> {
    if Level(e) < level then [PARENTHESES_LEFT] else []
  }

  function Closing(e: Expr, level: nat): seq<Token> {
    if Level(e) < level then [PARENTHESES_RIGHT] else []
  }

  function SubscriptTokens(subs: seq<Subscript>): seq<Token> {
    if subs == [] then []
    else SubscriptTokens(subs[..|subs| - 1]) + (if |subs| > 1 then [SEPARATOR] else []) + subs[|subs| - 1].Tokens()
  }

  function Constants(subs: seq<Subscript>): seq<nat> {
    seq(|subs|, i requires 0 <= i < |subs| => subs[i].n)
  }

  /** The tokens in front of the variable, from the inside to the outside. */
  function ReversePrefix(e: Expr): seq<Token> {
    match e
    case Variable => []
    case AddressOf(x) => ReversePrefix(x) + Opening(x, 1) + [ADDRESS]
    case Deref(x) => ReversePrefix(x) + Opening(x, 1) + [DEREF]
    case CastAdd(x, _, _) => ReversePrefix(x) + Opening(x, 1) + [CAST_TO_ADDRESS]
    case Access(x, _) => ReversePrefix(x) + Opening(x, 2)
    case Index(x, _) => ReversePrefix(x) + Opening(x, 2)
  }

  /** The tokens behind the variable. */
  function Suffix(e: Expr): seq<Token> {
    match e
    case Variable => []
    case AddressOf(x) => Suffix(x) + Closing(x, 1)
    case Deref(x) => Suffix(x) + Closing(x, 1)
    case CastAdd(x, positive, _) => Suffix(x) + Closing(x, 1) + [if positive then ADD else SUB, UCONST]
    case Access(x, _) => Suffix(x) + Closing(x, 2) + [FIELD, IDENTIFIER]
    case Index(x, subs) => Suffix(x) + Closing(x, 2) + [SUBSCRIPT_BEGIN] + SubscriptTokens(subs) + [SUBSCRIPT_END]
  }

  function UConsts(e: Expr): seq<nat> {
    match e
    case Variable => []
    case AddressOf(x) => UConsts(x)
    case Deref(x) => UConsts(x)
    case CastAdd(x, _, n) => UConsts(x) + [n]
    case Access(x, _) => UConsts(x)
    case Index(x, subs) => UConsts(x) + Constants(subs)
  }

  function Members(e: Expr): seq<Element> {
    match e
    case Variable => []
    case AddressOf(x) => Members(x)
    case Deref(x) => Members(x)
    case CastAdd(x, _, _) => Members(x)
    case Access(x, member) => Members(x) + [member]
    case Index(x, _) => Members(x)
  }

  /** What a sum adds to the lists. */
  lemma CastAddLists(x: Expr, positive: bool, n: nat)
    ensures var e := CastAdd(x, positive, n);
            && ReversePrefix(e) == ReversePrefix(x) + Opening(x, 1) + [CAST_TO_ADDRESS]
            && Suffix(e) == Suffix(x) + Closing(x, 1) + [if positive then ADD else SUB, UCONST]
            && UConsts(e) == UConsts(x) + [n] && Members(e) == Members(x) && Level(e) == 0
            && Subscripted(e) == Subscripted(x)
  {
  }

  /** What a list of subscripts adds to the lists. */
  lemma IndexLists(x: Expr, subs: seq<Subscript>)
    ensures var e := Index(x, subs);
            && ReversePrefix(e) == ReversePrefix(x) + Opening(x, 2)
            && Suffix(e) == Suffix(x) + Closing(x, 2) + [SUBSCRIPT_BEGIN] + SubscriptTokens(subs) + [SUBSCRIPT_END]
            && UConsts(e) == UConsts(x) + Constants(subs) && Members(e) == Members(x) && Level(e) == 2
            && Subscripted(e) == (subs != [] && Subscripted(x))
  {
  }

  /** Every list of subscripts has a subscript. */
  predicate Subscripted(e: Expr) {
    match e
    case Variable => true
    case AddressOf(x) => Subscripted(x)
    case Deref(x) => Subscripted(x)
    case CastAdd(x, _, _) => Subscripted(x)
    case Access(x, member) => Subscripted(x)
    case Index(x, subs) => subs != [] && Subscripted(x)
  }

  // ---------- What an expression denotes ----------

  /**
   An address that does not depend on the contents of memory: `[o0, o1, ...]` is the place reached from the variable
   by adding `o0`, loading a pointer, adding `o1`, and so on.
   */
  type Place = p: seq<int> | p != [] witness [0]

  function Plus(p: Place, n: int): Place {
    p[|p| - 1 := p[|p| - 1] + n]
  }

  function Signed(positive: bool, n: nat): int {
    if positive then n else -(n as int)
  }

  function Load(p: Place): Place {
    p + [0]
  }

  /** An object of a type, or a pointer value. The type is not known when it is `None`. */
  datatype Value = Object(at: Place, ty: Option<TypeId>) | Address(at: Place, to: Option<TypeId>)

  /**
   The value of an expression: an array, read as a flat array of its elements, decays to the address of its first
   element, and any other object is read.
   */
  function Decayed(types: seq<Type>, v: Value): (r: Value)
    ensures r.Address?
  {
    match v
    case Address(_, _) => v
    case Object(at, None) => Address(Load(at), None)
    case Object(at, Some(t)) =>
      if t >= |types| then Address(Load(at), None)
      else match types[t]
        case Array(_, base, _) => Address(at, base)
        case Pointer(_, pointee) => Address(Load(at), pointee)
        case _ => Address(Load(at), None)
  }

  /** The number of elements in front of an element of an array; nothing when a subscript is out of its bounds. */
  function Linear(dims: seq<Dim>, subs: seq<Subscript>): Option<int>
    requires Known(dims)
  {
    if |subs| != |dims| then None
    else LinearFrom(dims, subs, 0)
  }

  function LinearFrom(dims: seq<Dim>, subs: seq<Subscript>, i: nat): Option<int>
    requires Known(dims) && |subs| == |dims| && i <= |dims|
    decreases |dims| - i
  {
    if i == |dims| then Some(0)
    else
      var k := subs[i].Value() - dims[i].lower;
      var rest := LinearFrom(dims, subs, i + 1);
      if rest.Some? && 0 <= k < dims[i].count.value then Some(k * Volume(dims, i + 1) + rest.value) else None
  }

  /** The value of an expression over a variable of the type `ty`; nothing when C does not give it a meaning. */
  function Eval(types: seq<Type>, ty: Option<TypeId>, e: Expr): Option<Value> {
    match e
    case Variable => Some(Object([0], ty))
    case AddressOf(x) =>
      var v := Eval(types, ty, x);
      if v.Some? && v.value.Object? then Some(Address(v.value.at, v.value.ty)) else None
    case Deref(x) =>
      var v := Eval(types, ty, x);
      if v.Some? then var p := Decayed(types, v.value); Some(Object(p.at, p.to)) else None
    case CastAdd(x, positive, n) =>
      var v := Eval(types, ty, x);
      if v.Some? then Some(Address(Plus(Decayed(types, v.value).at, Signed(positive, n)), None)) else None
    case Access(x, member) =>
      var v := Eval(types, ty, x);
      if v.Some? && v.value.Object? then AccessValue(types, v.value, member) else None
    case Index(x, subs) =>
      var v := Eval(types, ty, x);
      if v.Some? then IndexValue(types, v.value, subs) else None
  }

  function AccessValue(types: seq<Type>, v: Value, member: Element): Option<Value>
    requires v.Object?
  {
    if v.ty.Some? && v.ty.value < |types| && types[v.ty.value].Structure?
       && member in types[v.ty.value].elements && member.Member?
    then Some(Object(Plus(v.at, member.offset), member.ty)) else None
  }

  /** All subscripts of an array at once, or one subscript of a pointer. */
  function IndexValue(types: seq<Type>, v: Value, subs: seq<Subscript>): Option<Value> {
    if v.Object? && v.ty.Some? && v.ty.value < |types| && types[v.ty.value].Array? then
      var a := types[v.ty.value];
      if Known(a.dims) && Linear(a.dims, subs).Some?
      then Some(Object(Plus(v.at, Linear(a.dims, subs).value * SizeOf(types, a.base)), a.base)) else None
    else
      var p := Decayed(types, v);
      if |subs| == 1 && p.to.Some?
      then Some(Object(Plus(p.at, subs[0].Value() * SizeOf(types, p.to)), p.to)) else None
  }

  // ---------- The subscripts of an array ----------

  /** The subscript of the `k`-th element of a dimension. */
  function SubscriptOf(d: Dim, k: nat): (s: Subscript)
    ensures s.Value() == k + d.lower
  {
    if d.lower < 0 && k < -d.lower then Subscript(true, -d.lower - k) else Subscript(false, k + d.lower)
  }

  predicate NotNegative(dims: seq<Dim>) {
    Known(dims) && forall k :: 0 <= k < |dims| ==> dims[k].count.value >= 0
  }

  /** The coefficient of a dimension as the loop computes it, in 32 bits. */
  function Coefficient(dims: seq<Dim>, i: nat, coeff: nat): (r: nat)
    requires i <= |dims| && NotNegative(dims)
    ensures coeff < UINT32 ==> r < UINT32
    decreases |dims| - i
  {
    if i == |dims| then coeff else Coefficient(dims, i + 1, (coeff * dims[i].count.value) % UINT32)
  }

  /** The subscripts from dimension `i` on; nothing when a coefficient is zero and there is no quotient. */
  function SubscriptsFrom(dims: seq<Dim>, i: nat, elIdx: nat): seq<Subscript>
    requires i <= |dims| && NotNegative(dims)
    decreases |dims| - i
  {
    if i == |dims| then []
    else
      var c := Coefficient(dims, i + 1, 1);
      if c == 0 then [] else [SubscriptOf(dims[i], elIdx / c)] + SubscriptsFrom(dims, i + 1, elIdx % c)
  }

  /** All numbers of elements are positive. */
  ghost predicate Counted(dims: seq<Dim>) {
    Known(dims) && forall k :: 0 <= k < |dims| ==> dims[k].count.value > 0
  }

  lemma {:induction false} VolumePositive(dims: seq<Dim>, i: nat)
    requires Counted(dims) && i <= |dims|
    ensures Volume(dims, i) >= 1
    ensures i < |dims| ==> Volume(dims, i + 1) <= Volume(dims, i)
    decreases |dims| - i
  {
    if i < |dims| {
      VolumePositive(dims, i + 1);
      TimesAtLeast(dims[i].count.value, Volume(dims, i + 1));
    }
  }

  lemma TimesAtLeast(x: int, y: int)
    requires x >= 1 && y >= 0
    ensures x * y >= y
  {
    assert (x - 1) * y >= 0;
  }

  lemma ModProduct(a: int, b: int, c: int)
    ensures ((a % UINT32) * b * c) % UINT32 == (a * b * c) % UINT32
  {
    var q := a / UINT32;
    assert a == UINT32 * q + a % UINT32;
    var r := (a % UINT32) * b * c;
    assert a * b * c == r + UINT32 * (q * b * c) by {
      assert (UINT32 * q + a % UINT32) * b * c == UINT32 * (q * b * c) + r;
    }
    ModMultiple(r, q * b * c);
  }

  lemma ModMultiple(r: int, k: int)
    ensures (r + UINT32 * k) % UINT32 == r % UINT32
  {
    var d, m := r / UINT32, r % UINT32;
    assert r + UINT32 * k == UINT32 * (d + k) + m;
  }

  /** The coefficient is the number of elements in the dimensions behind, modulo 2 to the power of 32. */
  lemma {:induction false} CoefficientIsVolume(dims: seq<Dim>, i: nat, coeff: nat)
    requires Counted(dims) && i <= |dims| && coeff < UINT32
    ensures Coefficient(dims, i, coeff) == (coeff * Volume(dims, i)) % UINT32
    decreases |dims| - i
  {
    if i < |dims| {
      var c, v := dims[i].count.value, Volume(dims, i + 1);
      CoefficientIsVolume(dims, i + 1, (coeff * c) % UINT32);
      ModProduct(coeff * c, 1, v);
      assert coeff * Volume(dims, i) == coeff * c * 1 * v by {
        Associate(coeff, c, v);
      }
    }
  }

  lemma Associate(a: int, b: int, c: int)
    ensures a * (b * c) == a * b * 1 * c
  {
  }

  lemma DivBounds(e: nat, c: nat, n: nat)
    requires c > 0 && e < n * c
    ensures 0 <= e / c < n && e == (e / c) * c + e % c && 0 <= e % c < c
  {
    var q := e / c;
    assert e == q * c + e % c;
  }

  /** With coefficients that fit, the subscripts are in their bounds and lead to the element. */
  lemma {:induction false} SubscriptsLinear(dims: seq<Dim>, i: nat, elIdx: nat, subs: seq<Subscript>)
    requires Counted(dims) && dims != [] && Volume(dims, 1) < UINT32 && i <= |dims| && elIdx < Volume(dims, i)
    requires |subs| == i + |SubscriptsFrom(dims, i, elIdx)| && subs[i..] == SubscriptsFrom(dims, i, elIdx)
    ensures |subs| == |dims| && LinearFrom(dims, subs, i) == Some(elIdx)
    decreases |dims| - i
  {
    if i < |dims| {
      var c := Coefficient(dims, i + 1, 1);
      CoefficientFits(dims, i + 1);
      DivBounds(elIdx, c, dims[i].count.value);
      assert subs[i..][0] == subs[i] && subs[i + 1..] == subs[i..][1..];
      SubscriptsLinear(dims, i + 1, elIdx % c, subs);
    }
  }

  lemma {:induction false} CoefficientFits(dims: seq<Dim>, i: nat)
    requires Counted(dims) && 1 <= i <= |dims| && Volume(dims, 1) < UINT32
    ensures Coefficient(dims, i, 1) == Volume(dims, i) && 1 <= Volume(dims, i) < UINT32
    decreases i
  {
    CoefficientIsVolume(dims, i, 1);
    VolumePositive(dims, i);
    if i > 1 {
      CoefficientFits(dims, i - 1);
      VolumePositive(dims, i - 1);
    }
  }

  /** Every element of an array gets subscripts in their bounds that lead to it. */
  ghost predicate AllElementsNamed(dims: seq<Dim>)
    requires Counted(dims)
  {
    forall elIdx: nat :: elIdx < Volume(dims, 0) ==> Linear(dims, SubscriptsFrom(dims, 0, elIdx)) == Some(elIdx)
  }

  /**
   The subscripts are right for all elements exactly when the number of elements behind the first dimension fits into
   32 bits: otherwise the first subscript of the last element is too large, or a coefficient is zero.
   */
  lemma SubscriptsFit(dims: seq<Dim>)
    requires Counted(dims) && dims != []
    ensures AllElementsNamed(dims) <==> Volume(dims, 1) < UINT32
  {
    if Volume(dims, 1) < UINT32 {
      forall elIdx: nat | elIdx < Volume(dims, 0)
        ensures Linear(dims, SubscriptsFrom(dims, 0, elIdx)) == Some(elIdx)
      {
        SubscriptsLinear(dims, 0, elIdx, SubscriptsFrom(dims, 0, elIdx));
      }
    } else {
      VolumePositive(dims, 0);
      var last: nat := Volume(dims, 0) - 1;
      LastElement(dims);
      assert Linear(dims, SubscriptsFrom(dims, 0, last)) == None;
    }
  }

  lemma LastElement(dims: seq<Dim>)
    requires Counted(dims) && dims != [] && Volume(dims, 1) >= UINT32 && Volume(dims, 0) >= 1
    ensures Linear(dims, SubscriptsFrom(dims, 0, Volume(dims, 0) - 1)) == None
  {
    var last: nat := Volume(dims, 0) - 1;
    var subs := SubscriptsFrom(dims, 0, last);
    var c, n := Coefficient(dims, 1, 1), dims[0].count.value;
    if |subs| == |dims| {
      assert c != 0 && subs[0] == SubscriptOf(dims[0], last / c);
      TooFar(n, Volume(dims, 1), c);
    }
  }

  lemma TooFar(n: int, v: int, c: int)
    requires n >= 1 && 1 <= c < v
    ensures (n * v - 1) / c >= n
  {
    TimesAtLeast(n, v - c);
    assert n * v == n * (v - c) + n * c;
    var x := n * v - 1;
    assert x == (x / c) * c + x % c;
    if x / c < n {
      TimesMonotone(x / c, n - 1, c);
    }
  }

  lemma TimesMonotone(a: int, b: int, c: nat)
    requires a <= b
    ensures a * c <= b * c
  {
    assert (b - a) * c >= 0;
  }

  // ---------- Where an expression leads ----------

  lemma PlusPlus(p: Place, m: int, n: int)
    ensures Plus(p, 0) == p
    ensures Plus(Plus(p, m), n) == Plus(p, m + n)
  {
  }

  predicate IsArray(types: seq<Type>, ty: Option<TypeId>) {
    ty.Some? && ty.value < |types| && types[ty.value].Array?
  }

  /** The value is an object of type `ty` at `p`, or its value is the address `p`. */
  ghost predicate AtPlace(types: seq<Type>, ty: Option<TypeId>, isAddress: bool, v: Value, p: Place) {
    && (ty.Some? ==> ty.value < |types|)
    && if isAddress then Decayed(types, v).at == p else v == Object(p, ty)
  }

  /** An offset may be added: `ty` is the type of a pointer object or of what an address points to. */
  ghost predicate ReadyAt(types: seq<Type>, ty: Option<TypeId>, isAddress: bool, v: Value, p: Place) {
    && AtPlace(types, ty, isAddress, v, p)
    && (isAddress ==>
          if ty.Some? && types[ty.value].Pointer? then v.Object? && v.ty == ty
          else !IsArray(types, ty) && Decayed(types, v).to == ty)
  }

  /** An offset has been added: `ty` is the type of what an address points to. */
  ghost predicate DoneAt(types: seq<Type>, ty: Option<TypeId>, isAddress: bool, v: Value, p: Place) {
    && AtPlace(types, ty, isAddress, v, p)
    && if isAddress then Decayed(types, v).to == ty else !IsArray(types, ty)
  }

  // ---------- How an offset ends ----------

  /** Whether the expression is an address, and the type that is left. */
  datatype End = End(isAddress: bool, ty: Option<TypeId>)

  function ScalarEnd(ty: Option<TypeId>, isAddress: bool, offset: nat): End {
    if offset == 0 then End(isAddress, ty) else End(true, None)
  }

  /** The member to descend to: the last one in front of the first member that is behind the offset. */
  function MemberAt(elements: seq<Element>, offset: nat, i: nat, found: Option<Element>): (r: Option<Element>)
    requires i <= |elements|
    requires found.Some? ==> found.value in elements && found.value.Member? && found.value.offset <= offset
    ensures r.Some? ==> r.value in elements && r.value.Member? && r.value.offset <= offset
    decreases |elements| - i
  {
    if i == |elements| then found
    else if !elements[i].Member? then MemberAt(elements, offset, i + 1, found)
    else if elements[i].offset > offset then found
    else if elements[i].offset == offset then Some(elements[i])
    else MemberAt(elements, offset, i + 1, Some(elements[i]))
  }

  /** How unparsing an offset ends. */
  ghost function Ends(types: seq<Type>, rank: seq<nat>, ty: Option<TypeId>, isAddress: bool, offset: nat, isPositive: bool): (r: End)
    requires WellFormed(types, rank) && (ty.Some? ==> ty.value < |types|)
    ensures r.ty.Some? ==> r.ty.value < |types|
    decreases if isAddress then 1 else 0, RankOf(rank, ty)
  {
    if ty.None? then ScalarEnd(ty, isAddress, offset)
    else match types[ty.value]
      case Structure(size, elements) =>
        var member := MemberAt(elements, offset, 0, None);
        if |elements| == 0 || !isPositive || size <= offset || member.None? then ScalarEnd(ty, isAddress, offset)
        else
          MemberIsPart(types, rank, ty.value, member.value);
          Ends(types, rank, member.value.ty, false, offset - member.value.offset, true)
      case Array(size, base, dims) =>
        PartIsKnown(types, rank, ty.value);
        var elSize := SizeOf(types, base);
        if |dims| == 0 || !isPositive || size <= offset || elSize == 0 || !Known(dims) then ScalarEnd(base, true, offset)
        else Ends(types, rank, base, false, offset % elSize, isPositive)
      case Pointer(_, pointee) =>
        PointeeIsKnown(types, rank, ty.value);
        if !isAddress then ScalarEnd(ty, isAddress, offset)
        else if SizeOf(types, pointee) == 0 then ScalarEnd(pointee, isAddress, offset)
        else Ends(types, rank, pointee, false, offset % SizeOf(types, pointee), isPositive)
      case _ => ScalarEnd(ty, isAddress, offset)
  }

  ghost function RankOf(rank: seq<nat>, ty: Option<TypeId>): nat {
    if ty.Some? && ty.value < |rank| then rank[ty.value] + 1 else 0
  }

  // ---------- The member at an offset ----------

  ghost predicate Ordered(elements: seq<Element>) {
    forall i, j :: 0 <= i < j < |elements| && elements[i].Member? && elements[j].Member? ==> elements[i].offset <= elements[j].offset
  }

  /**
   Of the members at the offset the first one, and when there is none, of those in front of the offset the last one;
   it is the closest one.
   */
  ghost predicate Chosen(elements: seq<Element>, offset: nat, i: int) {
    && 0 <= i < |elements| && elements[i].Member? && elements[i].offset <= offset
    && (forall j :: 0 <= j < |elements| && elements[j].Member? && elements[j].offset <= offset ==>
          elements[j].offset <= elements[i].offset)
    && if elements[i].offset == offset
       then forall j :: 0 <= j < i && elements[j].Member? ==> elements[j].offset < offset
       else forall j :: i < j < |elements| && elements[j].Member? ==> elements[j].offset > offset
  }

  /** The `k`-th element is the last member in front of the `i`-th one, or there is none when `k` is -1. */
  ghost predicate LastBefore(elements: seq<Element>, offset: nat, i: nat, k: int) {
    && -1 <= k < i <= |elements| && (k >= 0 ==> elements[k].Member?)
    && (forall j :: 0 <= j < i && elements[j].Member? ==> elements[j].offset < offset)
    && forall j :: k < j < i ==> !elements[j].Member?
  }

  lemma LastIsChosen(elements: seq<Element>, offset: nat, i: nat, k: nat)
    requires Ordered(elements) && LastBefore(elements, offset, i, k)
    requires forall j :: i <= j < |elements| && elements[j].Member? ==> elements[j].offset > offset
    ensures Chosen(elements, offset, k)
  {
    forall j | 0 <= j < |elements| && elements[j].Member? && elements[j].offset <= offset
      ensures elements[j].offset <= elements[k].offset
    {
      assert j <= k;
    }
  }

  lemma {:induction false} MemberFrom(elements: seq<Element>, offset: nat, i: nat, k: int)
    requires Ordered(elements) && LastBefore(elements, offset, i, k)
    ensures var r := MemberAt(elements, offset, i, if k < 0 then None else Some(elements[k]));
            if r.Some? then exists m :: 0 <= m < |elements| && Chosen(elements, offset, m) && elements[m] == r.value
            else forall j :: 0 <= j < |elements| && elements[j].Member? ==> elements[j].offset > offset
    decreases |elements| - i
  {
    hide Chosen;
    if i < |elements| && !elements[i].Member? {
      MemberFrom(elements, offset, i + 1, k);
    } else if i < |elements| && elements[i].offset < offset {
      MemberFrom(elements, offset, i + 1, i);
    } else if i < |elements| && elements[i].offset == offset {
      FirstIsChosen(elements, offset, i);
    } else if k >= 0 {
      LastIsChosen(elements, offset, i, k);
    }
  }

  lemma FirstIsChosen(elements: seq<Element>, offset: nat, i: nat)
    requires i < |elements| && elements[i].Member? && elements[i].offset == offset
    requires forall j :: 0 <= j < i && elements[j].Member? ==> elements[j].offset < offset
    ensures Chosen(elements, offset, i)
  {
  }

  /** The member that is found is the chosen one, and there is none exactly when all members start behind the offset. */
  lemma MemberIsChosen(elements: seq<Element>, offset: nat)
    requires Ordered(elements)
    ensures var r := MemberAt(elements, offset, 0, None);
            && (r.Some? ==> exists k :: 0 <= k < |elements| && Chosen(elements, offset, k) && elements[k] == r.value)
            && (r.None? <==> forall j :: 0 <= j < |elements| && elements[j].Member? ==> elements[j].offset > offset)
  {
    hide Chosen;
    MemberFrom(elements, offset, 0, -1);
  }

  // ---------- Parts of an object ----------

  /** Members follow each other without an overlap. */
  ghost predicate Apart(types: seq<Type>, elements: seq<Element>) {
    forall i, j :: 0 <= i < j < |elements| && elements[i].Member? && elements[j].Member? ==>
      elements[i].offset < elements[j].offset && elements[i].offset + SizeOf(types, elements[i].ty) <= elements[j].offset
  }

  ghost predicate AllApart(types: seq<Type>) {
    forall t: TypeId :: t < |types| && types[t].Structure? ==> Apart(types, types[t].elements)
  }

  /** An object of type `leaf`, which has no parts, starts at an offset inside of an object of type `ty`. */
  ghost predicate Starts(types: seq<Type>, rank: seq<nat>, ty: Option<TypeId>, offset: nat, leaf: Option<TypeId>)
    requires WellFormed(types, rank) && (ty.Some? ==> ty.value < |types|)
    decreases RankOf(rank, ty)
  {
    if ty.None? then offset == 0 && leaf == ty
    else match types[ty.value]
      case Structure(size, elements) =>
        offset < size && exists i :: StartsInMember(types, rank, ty.value, i, offset, leaf)
      case Array(size, base, dims) =>
        PartIsKnown(types, rank, ty.value);
        && offset < size && Known(dims) && dims != [] && SizeOf(types, base) > 0
        && Starts(types, rank, base, offset % SizeOf(types, base), leaf)
      case _ => offset == 0 && leaf == ty
  }

  ghost predicate StartsInMember(types: seq<Type>, rank: seq<nat>, t: TypeId, i: int, offset: nat, leaf: Option<TypeId>)
    requires WellFormed(types, rank) && t < |types| && types[t].Structure?
    decreases RankOf(rank, Some(t)), 0
  {
    && 0 <= i < |types[t].elements| && types[t].elements[i].Member?
    && var el := types[t].elements[i];
       MemberIsPart(types, rank, t, el);
       el.offset <= offset && Starts(types, rank, el.ty, offset - el.offset, leaf)
  }

  lemma StartsInside(types: seq<Type>, rank: seq<nat>, ty: Option<TypeId>, offset: nat, leaf: Option<TypeId>)
    requires WellFormed(types, rank) && (ty.Some? ==> ty.value < |types|) && Starts(types, rank, ty, offset, leaf)
    ensures offset == 0 || offset < SizeOf(types, ty)
  {
  }

  /** The only member that may be chosen is the one inside of which the object starts. */
  lemma OnlyChoice(types: seq<Type>, elements: seq<Element>, offset: nat, i: nat, k: int)
    requires Apart(types, elements) && i < |elements| && elements[i].Member? && Chosen(elements, offset, k)
    requires elements[i].offset <= offset
    requires offset == elements[i].offset || offset < elements[i].offset + SizeOf(types, elements[i].ty)
    ensures k == i
  {
    assert elements[i].offset <= elements[k].offset;
  }

  lemma ApartIsOrdered(types: seq<Type>, elements: seq<Element>)
    requires Apart(types, elements)
    ensures Ordered(elements)
  {
  }

  /** The member that is found is the one inside of which the object starts. */
  lemma MemberOfPart(types: seq<Type>, rank: seq<nat>, t: TypeId, i: nat, offset: nat, leaf: Option<TypeId>)
    requires WellFormed(types, rank) && t < |types| && types[t].Structure? && Apart(types, types[t].elements)
    requires StartsInMember(types, rank, t, i, offset, leaf)
    ensures MemberAt(types[t].elements, offset, 0, None) == Some(types[t].elements[i])
  {
    hide WellFormed, MemberAt, Apart, Ordered, Chosen, Starts;
    var elements := types[t].elements;
    MemberIsPart(types, rank, t, elements[i]);
    StartsInside(types, rank, elements[i].ty, offset - elements[i].offset, leaf);
    ApartIsOrdered(types, elements);
    MemberIsChosen(elements, offset);
    var k :| 0 <= k < |elements| && Chosen(elements, offset, k) && Some(elements[k]) == MemberAt(elements, offset, 0, None);
    OnlyChoice(types, elements, offset, i, k);
  }

  /** Where an object without parts starts, it is what an offset leaves. */
  lemma {:induction false} StartIsNamed(types: seq<Type>, rank: seq<nat>, ty: Option<TypeId>, offset: nat, leaf: Option<TypeId>)
    requires WellFormed(types, rank) && AllApart(types) && (ty.Some? ==> ty.value < |types|)
    requires Starts(types, rank, ty, offset, leaf)
    ensures Ends(types, rank, ty, false, offset, true) == End(false, leaf)
    decreases RankOf(rank, ty)
  {
    hide WellFormed;
    if ty.Some? && types[ty.value].Structure? {
      var elements := types[ty.value].elements;
      var i :| StartsInMember(types, rank, ty.value, i, offset, leaf);
      MemberIsPart(types, rank, ty.value, elements[i]);
      MemberOfPart(types, rank, ty.value, i, offset, leaf);
      StartIsNamed(types, rank, elements[i].ty, offset - elements[i].offset, leaf);
    } else if ty.Some? && types[ty.value].Array? {
      PartIsKnown(types, rank, ty.value);
      var base := types[ty.value].base;
      StartIsNamed(types, rank, base, offset % SizeOf(types, base), leaf);
    }
  }

  // ---------- Locations ----------

  /** A location: signed offsets with a dereference between any two of them. */
  datatype Location = Location(offsets: seq<nat>, positive: seq<bool>) {
    ghost predicate Proper() {
      offsets != [] && |positive| == |offsets|
    }

    function SignedOffset(i: nat): int
      requires i < |offsets| && |positive| == |offsets|
    {
      Signed(positive[i], offsets[i])
    }

    /** The place that the location is. */
    function Denoted(): Place
      requires Proper()
    {
      seq(|offsets|, i requires 0 <= i < |offsets| => SignedOffset(i))
    }
  }

  function Dereferenced(types: seq<Type>, e: End): End {
    if e.isAddress then End(false, e.ty)
    else End(true, if e.ty.Some? && e.ty.value < |types| && !types[e.ty.value].Pointer? then None else e.ty)
  }

  /** The state in which offset `k` is unparsed. */
  ghost function Before(types: seq<Type>, rank: seq<nat>, ty: Option<TypeId>, loc: Location, k: nat): (r: End)
    requires WellFormed(types, rank) && (ty.Some? ==> ty.value < |types|) && loc.Proper() && k < |loc.offsets|
    ensures r.ty.Some? ==> r.ty.value < |types|
    decreases k, 0
  {
    if k == 0 then End(false, ty) else Dereferenced(types, After(types, rank, ty, loc, k - 1))
  }

  /** The state in which offset `k` leaves the expression. */
  ghost function After(types: seq<Type>, rank: seq<nat>, ty: Option<TypeId>, loc: Location, k: nat): (r: End)
    requires WellFormed(types, rank) && (ty.Some? ==> ty.value < |types|) && loc.Proper() && k < |loc.offsets|
    ensures r.ty.Some? ==> r.ty.value < |types|
    decreases k, 1
  {
    var b := Before(types, rank, ty, loc, k);
    Ends(types, rank, b.ty, b.isAddress, loc.offsets[k], loc.positive[k])
  }

  /** The type of the object that the last offset leads to; a minimal expression leaves out an offset of zero. */
  ghost function LastType(types: seq<Type>, rank: seq<nat>, b: End, offset: nat, isPositive: bool, isMinimal: bool,
                          size: Option<nat>): Option<TypeId>
    requires WellFormed(types, rank) && (b.ty.Some? ==> b.ty.value < |types|)
  {
    if !isMinimal || b.ty.None? || offset != 0 || (size.Some? && size.value < SizeOf(types, b.ty))
    then Ends(types, rank, b.ty, b.isAddress, offset, isPositive).ty
    else if b.isAddress && types[b.ty.value].Pointer? then types[b.ty.value].pointee
    else b.ty
  }

  /** Which offsets but the last leave an address instead of an object. */
  ghost function Addresses(types: seq<Type>, rank: seq<nat>, ty: Option<TypeId>, loc: Location): (r: seq<bool>)
    requires WellFormed(types, rank) && (ty.Some? ==> ty.value < |types|) && loc.Proper()
    ensures |r| == |loc.offsets| - 1
  {
    seq(|loc.offsets| - 1, k requires 0 <= k < |loc.offsets| - 1 => After(types, rank, ty, loc, k).isAddress)
  }

  /** The place of the expression in front of offset `k`: a dereference of an address does not load anything. */
  function Reached(loc: Location, addresses: seq<bool>, k: nat): Place
    requires loc.Proper() && |addresses| == |loc.offsets| - 1 && k < |loc.offsets|
  {
    if k == 0 then [0]
    else
      var p := Plus(Reached(loc, addresses, k - 1), loc.SignedOffset(k - 1));
      if addresses[k - 1] then p else Load(p)
  }

  function LastPlace(loc: Location, addresses: seq<bool>): Place
    requires loc.Proper() && |addresses| == |loc.offsets| - 1
  {
    Plus(Reached(loc, addresses, |loc.offsets| - 1), loc.SignedOffset(|loc.offsets| - 1))
  }

  /** The address of a place in a memory. */
  function Follow(mem: int -> int, base: int, p: Place): int {
    if |p| == 1 then base + p[0] else mem(Follow(mem, base, p[..|p| - 1])) + p[|p| - 1]
  }

  ghost predicate SameAddress(p: Place, q: Place) {
    forall mem: int -> int, base: int :: Follow(mem, base, p) == Follow(mem, base, q)
  }

  function Sum(p: seq<int>): int {
    if p == [] then 0 else Sum(p[..|p| - 1]) + p[|p| - 1]
  }

  function Successor(): int -> int {
    (x: int) => x + 1
  }

  lemma {:induction false} FollowSuccessor(p: Place)
    ensures Follow(Successor(), 0, p) == Sum(p) + |p| - 1
    decreases |p|
  {
    if |p| == 1 {
      assert p[..0] == [];
    } else {
      FollowSuccessor(p[..|p| - 1]);
    }
  }

  lemma SumPlus(p: Place, n: int)
    ensures Sum(Plus(p, n)) == Sum(p) + n && Sum(Load(p)) == Sum(p)
  {
    assert Plus(p, n)[..|p| - 1] == p[..|p| - 1];
    assert Load(p)[..|p|] == p;
  }

  /** One dereference and one offset more; `exact` says that all offsets so far have left objects. */
  lemma NextPlace(p: Place, isAddress: bool, d: seq<int>, k: nat, exact: bool)
    requires 0 < k < |d| && Sum(p) == Sum(d[..k]) && |p| <= k && (if exact then p == d[..k] else |p| < k)
    ensures var q := Plus(if isAddress then p else Load(p), d[k]);
            Sum(q) == Sum(d[..k + 1]) && if exact && !isAddress then q == d[..k + 1] else |q| <= k
  {
    assert d[..k + 1][..k] == d[..k];
    SumPlus(p, d[k]);
    SumPlus(Load(p), d[k]);
  }

  lemma {:induction false} ReachedSum(loc: Location, addresses: seq<bool>, k: nat)
    requires loc.Proper() && |addresses| == |loc.offsets| - 1 && k < |loc.offsets|
    ensures var p := Plus(Reached(loc, addresses, k), loc.SignedOffset(k));
            && Sum(p) == Sum(loc.Denoted()[..k + 1]) && |p| <= k + 1
            && if true !in addresses[..k] then p == loc.Denoted()[..k + 1] else |p| <= k
  {
    hide Sum, Plus, Load;
    var d := loc.Denoted();
    if k == 0 {
      FirstPlace(d);
    } else {
      ReachedSum(loc, addresses, k - 1);
      assert addresses[..k] == addresses[..k - 1] + [addresses[k - 1]];
      NextPlace(Plus(Reached(loc, addresses, k - 1), loc.SignedOffset(k - 1)), addresses[k - 1], d, k,
                true !in addresses[..k - 1]);
    }
  }

  lemma FirstPlace(d: seq<int>)
    requires d != []
    ensures Plus([0], d[0]) == d[..1] && Sum(Plus([0], d[0])) == Sum(d[..1])
  {
    assert Plus([0], d[0]) == d[..1];
  }

  /**
   The expression is the location in every memory exactly when each offset but the last leaves an object: where the
   expression is an address instead, the dereference only turns it back into the object at that address, and the
   pointer stored there is not loaded.
   */
  lemma RightPlace(loc: Location, addresses: seq<bool>)
    requires loc.Proper() && |addresses| == |loc.offsets| - 1
    ensures SameAddress(LastPlace(loc, addresses), loc.Denoted()) <==> true !in addresses
  {
    var n := |loc.offsets| - 1;
    var p, d := LastPlace(loc, addresses), loc.Denoted();
    ReachedSum(loc, addresses, n);
    assert d[..n + 1] == d && addresses[..n] == addresses;
    if true in addresses {
      FollowSuccessor(p);
      FollowSuccessor(d);
      assert Follow(Successor(), 0, p) != Follow(Successor(), 0, d);
    }
  }

  /** The pointer stored eight bytes behind the start of a variable whose type says nothing about its parts is not loaded. */
  lemma PointerInScalar(types: seq<Type>, rank: seq<nat>, t: TypeId)
    requires WellFormed(types, rank) && t < |types| && types[t].Scalar?
    ensures var loc := Location([8, 0], [true, true]);
            var addresses := Addresses(types, rank, Some(t), loc);
            addresses == [true] && LastPlace(loc, addresses) == [8] && loc.Denoted() == [8, 0]
  {
    hide WellFormed;
    var loc := Location([8, 0], [true, true]);
    var addresses := Addresses(types, rank, Some(t), loc);
    assert After(types, rank, Some(t), loc, 0) == ScalarEnd(Some(t), false, 8);
    assert Reached(loc, addresses, 0) == [0] && Reached(loc, addresses, 1) == [8];
  }

  /**
   The offset of a pointer that is followed leads into one of the objects it points to, or, in front of the pointer, to
   the start of one of them.
   */
  ghost predicate StartsBehind(types: seq<Type>, rank: seq<nat>, pointer: Option<TypeId>, offset: nat, isPositive: bool,
                               leaf: Option<TypeId>)
    requires WellFormed(types, rank)
  {
    && pointer.Some? && pointer.value < |types| && types[pointer.value].Pointer?
    && var pointee := types[pointer.value].pointee;
       PointeeIsKnown(types, rank, pointer.value);
       && SizeOf(types, pointee) > 0
       && if isPositive then Starts(types, rank, pointee, offset % SizeOf(types, pointee), leaf)
          else offset % SizeOf(types, pointee) == 0 && leaf == pointee && (leaf.Some? ==> !types[leaf.value].Array?)
  }

  /** Every offset leads to an object, of the type `leaves[k]`, which is a pointer when an offset follows. */
  ghost predicate Walk(types: seq<Type>, rank: seq<nat>, ty: Option<TypeId>, loc: Location, leaves: seq<Option<TypeId>>)
    requires WellFormed(types, rank) && (ty.Some? ==> ty.value < |types|) && loc.Proper()
  {
    && |leaves| == |loc.offsets| && loc.positive[0]
    && Starts(types, rank, ty, loc.offsets[0], leaves[0])
    && forall k :: 1 <= k < |leaves| ==> StartsBehind(types, rank, leaves[k - 1], loc.offsets[k], loc.positive[k], leaves[k])
  }

  lemma StartBehindIsNamed(types: seq<Type>, rank: seq<nat>, pointer: Option<TypeId>, offset: nat, isPositive: bool,
                           leaf: Option<TypeId>)
    requires WellFormed(types, rank) && AllApart(types) && StartsBehind(types, rank, pointer, offset, isPositive, leaf)
    ensures Ends(types, rank, pointer, true, offset, isPositive) == End(false, leaf)
  {
    hide WellFormed, Starts;
    var pointee := types[pointer.value].pointee;
    if isPositive {
      StartIsNamed(types, rank, pointee, offset % SizeOf(types, pointee), leaf);
    }
  }

  lemma {:induction false} WalkLeaves(types: seq<Type>, rank: seq<nat>, ty: Option<TypeId>, loc: Location,
                                      leaves: seq<Option<TypeId>>, k: nat)
    requires WellFormed(types, rank) && AllApart(types) && (ty.Some? ==> ty.value < |types|) && loc.Proper()
    requires Walk(types, rank, ty, loc, leaves) && k < |leaves|
    ensures After(types, rank, ty, loc, k) == End(false, leaves[k])
  {
    hide WellFormed, Starts, Ends;
    if k == 0 {
      StartIsNamed(types, rank, ty, loc.offsets[0], leaves[0]);
    } else {
      WalkLeaves(types, rank, ty, loc, leaves, k - 1);
      assert StartsBehind(types, rank, leaves[k - 1], loc.offsets[k], loc.positive[k], leaves[k]);
      StartBehindIsNamed(types, rank, leaves[k - 1], loc.offsets[k], loc.positive[k], leaves[k]);
    }
  }

  /** A location that goes from object to object is unparsed to the right place in every memory. */
  lemma WalkIsRight(types: seq<Type>, rank: seq<nat>, ty: Option<TypeId>, loc: Location, leaves: seq<Option<TypeId>>)
    requires WellFormed(types, rank) && AllApart(types) && (ty.Some? ==> ty.value < |types|) && loc.Proper()
    requires Walk(types, rank, ty, loc, leaves)
    ensures var n := |loc.offsets| - 1; After(types, rank, ty, loc, n) == End(false, leaves[n])
    ensures SameAddress(LastPlace(loc, Addresses(types, rank, ty, loc)), loc.Denoted())
  {
    hide WellFormed, Walk, After, LastPlace, SameAddress;
    WalkLength(types, rank, ty, loc, leaves);
    WalkLeaves(types, rank, ty, loc, leaves, |loc.offsets| - 1);
    var addresses := Addresses(types, rank, ty, loc);
    forall k | 0 <= k < |addresses|
      ensures !addresses[k]
    {
      WalkLeaves(types, rank, ty, loc, leaves, k);
    }
    RightPlace(loc, addresses);
  }

  lemma WalkLength(types: seq<Type>, rank: seq<nat>, ty: Option<TypeId>, loc: Location, leaves: seq<Option<TypeId>>)
    requires WellFormed(types, rank) && (ty.Some? ==> ty.value < |types|) && loc.Proper() && Walk(types, rank, ty, loc, leaves)
    ensures |leaves| == |loc.offsets|
  {
  }

  // ---------- The unparser ----------

  class SourceUnparser {
    const types: seq<Type>
    const varType: Option<TypeId>
    ghost const rank: seq<nat>
    var mReversePrefix: seq<Token>
    var mSuffix: seq<Token>
    var mIdentifiers: seq<Element>
    var mUConsts: seq<nat>
    var mCurrType: Option<TypeId>
    var mIsAddress: bool
    var mLastOpPriority: nat
    /** The expression that the lists of tokens stand for. */
    ghost var expr: Expr

    ghost predicate Shown()
      reads `mReversePrefix, `mSuffix, `mIdentifiers, `mUConsts, `mLastOpPriority, `expr
    {
      && mReversePrefix == ReversePrefix(expr) && mSuffix == Suffix(expr)
      && mIdentifiers == Members(expr) && mUConsts == UConsts(expr)
      && mLastOpPriority == Level(expr) && Subscripted(expr)
    }

    ghost predicate Ready(p: Place)
      reads this
    {
      && Shown() && WellFormed(types, rank)
      && var v := Eval(types, varType, expr); v.Some? && ReadyAt(types, mCurrType, mIsAddress, v.value, p)
    }

    ghost predicate Done(p: Place)
      reads this
    {
      && Shown() && WellFormed(types, rank)
      && var v := Eval(types, varType, expr); v.Some? && DoneAt(types, mCurrType, mIsAddress, v.value, p)
    }

    method UpdatePriority(current: Token, next: Token)
      modifies `mReversePrefix, `mSuffix, `mLastOpPriority
      ensures mLastOpPriority == GetPriority(next)
      ensures mReversePrefix == old(mReversePrefix) + if old(mLastOpPriority) < GetPriority(current) then [PARENTHESES_LEFT] else []
      ensures mSuffix == old(mSuffix) + if old(mLastOpPriority) < GetPriority(current) then [PARENTHESES_RIGHT] else []
    {
      if mLastOpPriority < GetPriority(current) {
        mReversePrefix := mReversePrefix + [PARENTHESES_LEFT];
        mSuffix := mSuffix + [PARENTHESES_RIGHT];
      }
      mLastOpPriority := GetPriority(next);
    }

    method EmitAddress()
      requires Shown()
      modifies `mReversePrefix, `mSuffix, `mLastOpPriority, `expr
      ensures Shown() && expr == AddressOf(old(expr))
    {
      UpdatePriority(ADDRESS, ADDRESS);
      mReversePrefix := mReversePrefix + [ADDRESS];
      expr := AddressOf(expr);
    }

    method EmitDeref()
      requires Shown()
      modifies `mReversePrefix, `mSuffix, `mLastOpPriority, `expr
      ensures Shown() && expr == Deref(old(expr))
    {
      UpdatePriority(DEREF, DEREF);
      mReversePrefix := mReversePrefix + [DEREF];
      expr := Deref(expr);
    }

    method EmitCastAdd(offset: nat, isPositive: bool)
      requires Shown()
      modifies `mReversePrefix, `mSuffix, `mUConsts, `mLastOpPriority, `expr
      ensures Shown() && expr == CastAdd(old(expr), isPositive, offset)
    {
      hide ReversePrefix, Suffix, UConsts, Members, Subscripted;
      CastAddLists(expr, isPositive, offset);
      UpdatePriority(CAST_TO_ADDRESS, if isPositive then ADD else SUB);
      mReversePrefix := mReversePrefix + [CAST_TO_ADDRESS];
      mSuffix := mSuffix + [if isPositive then ADD else SUB];
      mSuffix := mSuffix + [UCONST];
      mUConsts := mUConsts + [offset];
      expr := CastAdd(expr, isPositive, offset);
    }

    method EmitField(member: Element)
      requires Shown()
      modifies `mReversePrefix, `mSuffix, `mIdentifiers, `mLastOpPriority, `expr
      ensures Shown() && expr == Access(old(expr), member)
    {
      UpdatePriority(FIELD, FIELD);
      mSuffix := mSuffix + [FIELD, IDENTIFIER];
      mIdentifiers := mIdentifiers + [member];
      expr := Access(expr, member);
    }

    method EmitSubscript(n: nat, negative: bool)
      requires Shown()
      modifies `mReversePrefix, `mSuffix, `mUConsts, `mLastOpPriority, `expr
      ensures Shown() && expr == Index(old(expr), [Subscript(negative, n)])
    {
      hide SubscriptTokens, Constants, ReversePrefix, Suffix, UConsts, Members, Subscripted;
      IndexLists(expr, [Subscript(negative, n)]);
      UpdatePriority(SUBSCRIPT_BEGIN, SUBSCRIPT_END);
      mSuffix := mSuffix + [SUBSCRIPT_BEGIN];
      ghost var front := mSuffix;
      if negative {
        mSuffix := mSuffix + [SUB];
      }
      mSuffix := mSuffix + [UCONST];
      mUConsts := mUConsts + [n];
      OneSubscript([], Subscript(negative, n));
      NoSubscripts();
      assert [] + [Subscript(negative, n)] == [Subscript(negative, n)];
      assert mSuffix == front + SubscriptTokens([Subscript(negative, n)]);
      mSuffix := mSuffix + [SUBSCRIPT_END];
      expr := Index(expr, [Subscript(negative, n)]);
    }

    method UnparseAsScalarTy(offset: nat, isPositive: bool, ghost p: Place) returns (ok: bool)
      requires Done(p)
      modifies this
      ensures ok && Done(Plus(p, Signed(isPositive, offset)))
      ensures End(mIsAddress, mCurrType) == old(ScalarEnd(mCurrType, mIsAddress, offset))
    {
      hide Shown, WellFormed;
      if offset == 0 {
        PlusPlus(p, 0, 0);
        return true;
      }
      if !mIsAddress {
        EmitAddress();
        mIsAddress := true;
        assert Eval(types, varType, expr).Some?;
      }
      EmitCastAdd(offset, isPositive);
      mCurrType := None;
      return true;
    }

    method UnparseAsUnionTy(offset: nat, isPositive: bool, ghost p: Place) returns (ok: bool)
      requires Done(p)
      modifies this
      ensures ok && Done(Plus(p, Signed(isPositive, offset)))
      ensures End(mIsAddress, mCurrType) == old(ScalarEnd(mCurrType, mIsAddress, offset))
    {
      ok := UnparseAsScalarTy(offset, isPositive, p);
    }

    /** The rank of the type that is unparsed next; stepping through a pointer clears `mIsAddress`. */
    ghost function Rank(): nat
      reads this
    {
      RankOf(rank, mCurrType)
    }

    method FindMember(elements: seq<Element>, offset: nat) returns (currEl: Option<Element>)
      ensures currEl == MemberAt(elements, offset, 0, None)
    {
      currEl := None;
      for i := 0 to |elements|
        invariant currEl.Some? ==> currEl.value in elements && currEl.value.Member? && currEl.value.offset <= offset
        invariant MemberAt(elements, offset, i, currEl) == MemberAt(elements, offset, 0, None)
      {
        var el := elements[i];
        if !el.Member? {
          continue;
        }
        if el.offset > offset {
          break;
        } else if el.offset == offset {
          currEl := Some(el);
          break;
        }
        currEl := Some(el);
      }
    }

    method UnparseAsStructureTy(offset: nat, isPositive: bool, ghost p: Place) returns (ok: bool)
      requires Ready(p) && mCurrType.Some? && types[mCurrType.value].Structure?
      modifies this
      ensures ok && Done(Plus(p, Signed(isPositive, offset)))
      ensures End(mIsAddress, mCurrType) == old(Ends(types, rank, mCurrType, mIsAddress, offset, isPositive))
      decreases if mIsAddress then 1 else 0, Rank(), 0
    {
      hide Shown, WellFormed;
      var elements := types[mCurrType.value].elements;
      if |elements| == 0 || !isPositive || types[mCurrType.value].size <= offset {
        ok := UnparseAsScalarTy(offset, isPositive, p);
        return;
      }
      var currEl := FindMember(elements, offset);
      if currEl.None? {
        ok := UnparseAsScalarTy(offset, isPositive, p);
        return;
      }
      MemberIsPart(types, rank, mCurrType.value, currEl.value);
      PlusPlus(p, currEl.value.offset, offset - currEl.value.offset);
      Descend(currEl.value, p);
      ok := Unparse(offset - currEl.value.offset, true, Plus(p, currEl.value.offset));
    }

    /** The step from a structure to one of its members. */
    method Descend(member: Element, ghost p: Place)
      requires Ready(p) && mCurrType.Some? && types[mCurrType.value].Structure?
      requires member in types[mCurrType.value].elements && member.Member?
      modifies this
      ensures Ready(Plus(p, member.offset)) && !mIsAddress && mCurrType == member.ty
    {
      hide Shown, WellFormed;
      ghost var t := mCurrType.value;
      MemberIsPart(types, rank, t, member);
      if mIsAddress {
        EmitDeref();
        mIsAddress := false;
      }
      assert Eval(types, varType, expr) == Some(Object(p, Some(t)));
      EmitField(member);
      mCurrType := member.ty;
    }

    method UnparseAsPointerTy(offset: nat, isPositive: bool, ghost p: Place) returns (ok: bool)
      requires Ready(p) && mCurrType.Some? && types[mCurrType.value].Pointer?
      modifies this
      ensures ok && Done(Plus(p, Signed(isPositive, offset)))
      ensures End(mIsAddress, mCurrType) == old(Ends(types, rank, mCurrType, mIsAddress, offset, isPositive))
      decreases if mIsAddress then 1 else 0, Rank(), 0
    {
      hide Shown, WellFormed;
      if !mIsAddress {
        ok := UnparseAsScalarTy(offset, isPositive, p);
        return;
      }
      PointeeIsKnown(types, rank, mCurrType.value);
      mCurrType := types[mCurrType.value].pointee;
      var tySize := SizeOf(types, mCurrType);
      if tySize == 0 {
        ok := UnparseAsScalarTy(offset, isPositive, p);
        return;
      }
      var elIdx := offset / tySize;
      EmitSubscript(elIdx, !isPositive);
      mIsAddress := false;
      SignedSplit(isPositive, offset, elIdx, tySize);
      Remainder(offset, tySize);
      PlusPlus(p, Subscript(!isPositive, elIdx).Value() * tySize, Signed(isPositive, offset - elIdx * tySize));
      ok := Unparse(offset - elIdx * tySize, isPositive, Plus(p, Subscript(!isPositive, elIdx).Value() * tySize));
    }

    /** The number of elements of the dimensions behind `dim`, in 32 bits. */
    method ComputeCoefficient(dims: seq<Dim>, dim: nat) returns (coeff: nat)
      requires NotNegative(dims) && dim < |dims|
      ensures coeff == Coefficient(dims, dim + 1, 1)
    {
      coeff := 1;
      var i := dim + 1;
      while i < |dims|
        invariant dim + 1 <= i <= |dims| && coeff < UINT32
        invariant Coefficient(dims, i, coeff) == Coefficient(dims, dim + 1, 1)
      {
        coeff := (coeff * dims[i].count.value) % UINT32;
        i := i + 1;
      }
    }

    /** One subscript of an array element. */
    method AddDim(d: Dim, coeff: nat, elIdx: nat) returns (rest: nat)
      requires coeff != 0
      modifies `mSuffix, `mUConsts
      ensures rest == elIdx % coeff
      ensures mSuffix == old(mSuffix) + SubscriptOf(d, elIdx / coeff).Tokens()
      ensures mUConsts == old(mUConsts) + [SubscriptOf(d, elIdx / coeff).n]
    {
      var dimOffset: nat := elIdx / coeff;
      if d.lower < 0 && dimOffset < -d.lower {
        mSuffix := mSuffix + [SUB];
        dimOffset := -d.lower - dimOffset;
      } else {
        dimOffset := dimOffset + d.lower;
      }
      mSuffix := mSuffix + [UCONST];
      mUConsts := mUConsts + [dimOffset];
      rest := elIdx % coeff;
    }

    /** All subscripts of an array element, with separators between them. */
    method AddDims(dims: seq<Dim>, elIdx: nat)
      requires Counted(dims) && dims != [] && Volume(dims, 1) < UINT32
      modifies `mSuffix, `mUConsts
      ensures mSuffix == old(mSuffix) + SubscriptTokens(SubscriptsFrom(dims, 0, elIdx))
      ensures mUConsts == old(mUConsts) + Constants(SubscriptsFrom(dims, 0, elIdx))
    {
      hide Coefficient, Volume, SubscriptOf, SubscriptTokens, Constants, SubscriptsFrom;
      CoefficientFits(dims, 1);
      SubscriptsStep(dims, 0, elIdx, []);
      assert [] + SubscriptsFrom(dims, 0, elIdx) == SubscriptsFrom(dims, 0, elIdx);
      ghost var subs := [SubscriptOf(dims[0], elIdx / Coefficient(dims, 1, 1))];
      assert subs == [] + [subs[0]];
      OneSubscript([], subs[0]);
      NoSubscripts();
      var coeff := ComputeCoefficient(dims, 0);
      var rest: nat := AddDim(dims[0], coeff, elIdx);
      for dim := 1 to |dims|
        invariant |subs| == dim && subs + SubscriptsFrom(dims, dim, rest) == SubscriptsFrom(dims, 0, elIdx)
        invariant mSuffix == old(mSuffix) + SubscriptTokens(subs) && mUConsts == old(mUConsts) + Constants(subs)
      {
        CoefficientFits(dims, dim + 1);
        ghost var s := SubscriptOf(dims[dim], rest / Coefficient(dims, dim + 1, 1));
        OneSubscript(subs, s);
        SubscriptsStep(dims, dim, rest, subs);
        mSuffix := mSuffix + [SEPARATOR];
        coeff := ComputeCoefficient(dims, dim);
        rest := AddDim(dims[dim], coeff, rest);
        subs := subs + [s];
      }
      NoneLeft(dims, rest);
      assert subs + [] == subs;
    }

    method EmitSubscripts(dims: seq<Dim>, elIdx: nat)
      requires Shown() && Counted(dims) && dims != [] && Volume(dims, 1) < UINT32
      modifies `mReversePrefix, `mSuffix, `mUConsts, `mLastOpPriority, `expr
      ensures Shown() && expr == Index(old(expr), SubscriptsFrom(dims, 0, elIdx))
    {
      hide Volume, SubscriptTokens, SubscriptsFrom, Constants, ReversePrefix, Suffix, UConsts, Members, Subscripted;
      IndexLists(expr, SubscriptsFrom(dims, 0, elIdx));
      UpdatePriority(SUBSCRIPT_BEGIN, SUBSCRIPT_END);
      mSuffix := mSuffix + [SUBSCRIPT_BEGIN];
      AddDims(dims, elIdx);
      SomeSubscript(dims, elIdx);
      mSuffix := mSuffix + [SUBSCRIPT_END];
      expr := Index(expr, SubscriptsFrom(dims, 0, elIdx));
    }

    /** The dimensions when all of them are known. */
    method PushDims(from: seq<Dim>) returns (known: bool, dims: seq<Dim>)
      ensures known == Known(from) && (known ==> dims == from)
    {
      dims := [];
      for i := 0 to |from|
        invariant dims == from[..i] && Known(dims)
      {
        if from[i].count.None? {
          return false, dims;
        }
        dims := dims + [from[i]];
      }
      return true, dims;
    }

    method UnparseAsArrayTy(offset: nat, isPositive: bool, ghost p: Place) returns (ok: bool)
      requires Ready(p) && mCurrType.Some? && types[mCurrType.value].Array?
      modifies this
      ensures ok && Done(Plus(p, Signed(isPositive, offset)))
      ensures End(mIsAddress, mCurrType) == old(Ends(types, rank, mCurrType, mIsAddress, offset, isPositive))
      decreases if mIsAddress then 1 else 0, Rank(), 0
    {
      hide Shown, WellFormed, Known, Volume, SubscriptsFrom, IndexValue, Counted;
      var arrayTy := types[mCurrType.value];
      var tySize := arrayTy.size;
      ghost var t := mCurrType.value;
      PartIsKnown(types, rank, t);
      mCurrType := arrayTy.base;
      var elSize := SizeOf(types, mCurrType);
      mIsAddress := true;
      if |arrayTy.dims| == 0 || !isPositive || tySize <= offset || elSize == 0 {
        ok := UnparseAsScalarTy(offset, isPositive, p);
        return;
      }
      var known, dims := PushDims(arrayTy.dims);
      if !known {
        ok := UnparseAsScalarTy(offset, isPositive, p);
        return;
      }
      mIsAddress := false;
      ElementInArray(types, rank, t, p, offset);
      Remainder(offset, elSize);
      var elIdx := offset / elSize;
      EmitSubscripts(dims, elIdx);
      PlusPlus(p, elIdx * elSize, offset - elIdx * elSize);
      ok := Unparse(offset - elIdx * elSize, isPositive, Plus(p, elIdx * elSize));
    }

    method Unparse(offset: nat, isPositive: bool, ghost p: Place) returns (ok: bool)
      requires Ready(p)
      modifies this
      ensures ok && Done(Plus(p, Signed(isPositive, offset)))
      ensures End(mIsAddress, mCurrType) == old(Ends(types, rank, mCurrType, mIsAddress, offset, isPositive))
      decreases if mIsAddress then 1 else 0, Rank(), 1
    {
      hide Shown, WellFormed;
      if mCurrType.Some? {
        match types[mCurrType.value] {
          case Structure(_, _) =>
            ok := UnparseAsStructureTy(offset, isPositive, p);
            return;
          case Array(_, _, _) =>
            ok := UnparseAsArrayTy(offset, isPositive, p);
            return;
          case Pointer(_, _) =>
            ok := UnparseAsPointerTy(offset, isPositive, p);
            return;
          case Union(_) =>
            ok := UnparseAsUnionTy(offset, isPositive, p);
            return;
          case Scalar(_) =>
        }
      }
      ok := UnparseAsScalarTy(offset, isPositive, p);
    }

    /** A dereference between two offsets. */
    method UnparseDeref(ghost p: Place) returns (ok: bool)
      requires Done(p)
      modifies this
      ensures ok && Ready(if old(mIsAddress) then p else Load(p))
      ensures End(mIsAddress, mCurrType) == Dereferenced(types, old(End(mIsAddress, mCurrType)))
    {
      hide Shown, WellFormed;
      if mIsAddress {
        EmitDeref();
        mIsAddress := false;
      } else {
        if mCurrType.Some? && !types[mCurrType.value].Pointer? {
          mCurrType := None;
        }
        mIsAddress := true;
      }
      return true;
    }

    constructor (types: seq<Type>, varType: Option<TypeId>, ghost rank: seq<nat>)
      requires WellFormed(types, rank) && (varType.Some? ==> varType.value < |types|)
      ensures this.types == types && this.varType == varType && this.rank == rank
    {
      this.types, this.varType, this.rank := types, varType, rank;
      mReversePrefix, mSuffix, mIdentifiers, mUConsts := [], [], [], [];
      mCurrType, mIsAddress, mLastOpPriority, expr := None, false, 0, Variable;
    }

    /**
     Unparses a location: the lists of tokens show an expression that C gives a meaning, with all subscripts in their
     bounds, and it is the object at the place of the location when the offsets on the way leave objects.
     */
    method UnparseLocation(loc: Location, isMinimal: bool, size: Option<nat>) returns (ok: bool)
      requires WellFormed(types, rank) && (varType.Some? ==> varType.value < |types|) && loc.Proper()
      modifies this
      ensures ok && Shown()
      ensures var v := Eval(types, varType, expr);
              v.Some? && v.value.Object? && v.value.at == LastPlace(loc, Addresses(types, rank, varType, loc))
              && var n := |loc.offsets| - 1;
                 v.value.ty == LastType(types, rank, Before(types, rank, varType, loc, n), loc.offsets[n], loc.positive[n],
                                        isMinimal, size)
    {
      hide Shown, WellFormed, Ends, After, Before, Reached, Eval, LastType;
      mReversePrefix, mSuffix, mIdentifiers, mUConsts, mIsAddress := [], [], [], [], false;
      mLastOpPriority := GetPriority(IDENTIFIER);
      expr := Variable;
      mCurrType := varType;
      StartShown(loc);
      ghost var addresses := Addresses(types, rank, varType, loc);
      var offsetIdx := 0;
      while offsetIdx < |loc.offsets| - 1
        invariant 0 <= offsetIdx < |loc.offsets| && Ready(Reached(loc, addresses, offsetIdx))
        invariant End(mIsAddress, mCurrType) == Before(types, rank, varType, loc, offsetIdx)
      {
        UnparseStep(loc, offsetIdx);
        offsetIdx := offsetIdx + 1;
      }
      UnparseLast(loc.offsets[offsetIdx], loc.positive[offsetIdx], isMinimal, size, Reached(loc, addresses, offsetIdx));
      ok := true;
    }

    /** An offset and the dereference behind it. */
    method UnparseStep(loc: Location, k: nat)
      requires WellFormed(types, rank) && (varType.Some? ==> varType.value < |types|) && loc.Proper() && k < |loc.offsets| - 1
      requires Ready(Reached(loc, Addresses(types, rank, varType, loc), k))
      requires End(mIsAddress, mCurrType) == Before(types, rank, varType, loc, k)
      modifies this
      ensures Ready(Reached(loc, Addresses(types, rank, varType, loc), k + 1))
      ensures End(mIsAddress, mCurrType) == Before(types, rank, varType, loc, k + 1)
    {
      hide Shown, WellFormed, Ends, Eval, ReadyAt, DoneAt;
      ghost var p := Reached(loc, Addresses(types, rank, varType, loc), k);
      var ok := Unparse(loc.offsets[k], loc.positive[k], p);
      assert End(mIsAddress, mCurrType) == After(types, rank, varType, loc, k);
      ok := UnparseDeref(Plus(p, loc.SignedOffset(k)));
    }

    /** The last offset, which a minimal expression may leave out, and the object at the address it leads to. */
    method UnparseLast(offset: nat, isPositive: bool, isMinimal: bool, size: Option<nat>, ghost p: Place)
      requires Ready(p)
      modifies this
      ensures Shown()
      ensures var v := Eval(types, varType, expr);
              v.Some? && v.value.Object? && v.value.at == Plus(p, Signed(isPositive, offset))
              && v.value.ty == LastType(types, rank, old(End(mIsAddress, mCurrType)), offset, isPositive, isMinimal, size)
    {
      hide Shown, WellFormed, Ends;
      if !isMinimal || mCurrType.None? || offset != 0 || (size.Some? && size.value < SizeOf(types, mCurrType)) {
        var ok := Unparse(offset, isPositive, p);
      } else {
        PlusPlus(p, 0, 0);
      }
      if mIsAddress {
        EmitDeref();
      }
    }

    lemma StartShown(loc: Location)
      requires mReversePrefix == [] && mSuffix == [] && mIdentifiers == [] && mUConsts == [] && !mIsAddress
      requires mLastOpPriority == 3 && expr == Variable && mCurrType == varType
      requires WellFormed(types, rank) && (varType.Some? ==> varType.value < |types|) && loc.Proper()
      ensures Ready(Reached(loc, Addresses(types, rank, varType, loc), 0))
      ensures End(mIsAddress, mCurrType) == Before(types, rank, varType, loc, 0)
    {
      hide WellFormed;
    }
  }

  lemma SignedSplit(positive: bool, offset: nat, elIdx: nat, size: nat)
    requires size > 0 && elIdx == offset / size
    ensures elIdx * size <= offset
    ensures Subscript(!positive, elIdx).Value() * size + Signed(positive, offset - elIdx * size) == Signed(positive, offset)
  {
    assert offset == elIdx * size + offset % size;
    assert (-(elIdx as int)) * size == -(elIdx * size);
  }

  lemma NoSubscripts()
    ensures SubscriptTokens([]) == [] && Constants([]) == []
  {
  }

  lemma SomeSubscript(dims: seq<Dim>, elIdx: nat)
    requires Counted(dims) && dims != [] && Volume(dims, 1) < UINT32
    ensures SubscriptsFrom(dims, 0, elIdx) != []
  {
    CoefficientFits(dims, 1);
  }

  lemma NoneLeft(dims: seq<Dim>, rest: nat)
    requires NotNegative(dims)
    ensures SubscriptsFrom(dims, |dims|, rest) == []
  {
  }

  lemma SubscriptsStep(dims: seq<Dim>, i: nat, elIdx: nat, subs: seq<Subscript>)
    requires NotNegative(dims) && i < |dims| && Coefficient(dims, i + 1, 1) != 0
    ensures var c := Coefficient(dims, i + 1, 1);
            subs + SubscriptsFrom(dims, i, elIdx)
              == (subs + [SubscriptOf(dims[i], elIdx / c)]) + SubscriptsFrom(dims, i + 1, elIdx % c)
  {
  }

  lemma OneSubscript(subs: seq<Subscript>, s: Subscript)
    ensures SubscriptTokens(subs + [s])
         == SubscriptTokens(subs) + (if subs != [] then [SEPARATOR] else []) + s.Tokens()
    ensures Constants(subs + [s]) == Constants(subs) + [s.n]
  {
    assert (subs + [s])[..|subs|] == subs;
  }

  lemma Remainder(offset: nat, size: nat)
    requires size > 0
    ensures (offset / size) * size <= offset && offset - (offset / size) * size == offset % size
  {
  }

  /** An offset inside an array belongs to one of its elements, which the subscripts name. */
  lemma ElementInArray(types: seq<Type>, rank: seq<nat>, t: TypeId, p: Place, offset: nat)
    requires WellFormed(types, rank) && t < |types| && types[t].Array? && Known(types[t].dims) && types[t].dims != []
    requires offset < types[t].size && SizeOf(types, types[t].base) > 0
    ensures var a := types[t]; var elSize := SizeOf(types, a.base); var elIdx := offset / elSize;
            && Counted(a.dims) && Volume(a.dims, 1) < UINT32
            && IndexValue(types, Object(p, Some(t)), SubscriptsFrom(a.dims, 0, elIdx))
               == Some(Object(Plus(p, elIdx * elSize), a.base))
  {
    hide Volume, Coefficient, SubscriptsFrom, LinearFrom;
    assert Laid(types, rank, t);
    var a := types[t];
    var elSize := SizeOf(types, a.base);
    ArrayCounted(a.dims, a.size, elSize, offset);
    var elIdx: nat := offset / elSize;
    SubscriptsLinear(a.dims, 0, elIdx, SubscriptsFrom(a.dims, 0, elIdx));
  }

  lemma ArrayCounted(dims: seq<Dim>, size: nat, elSize: nat, offset: nat)
    requires NotNegative(dims) && size == elSize * Volume(dims, 0) && offset < size && elSize > 0
    ensures Counted(dims) && offset / elSize < Volume(dims, 0)
  {
    AllPositive(dims, 0);
    assert size == Volume(dims, 0) * elSize;
    DivBounds(offset, elSize, Volume(dims, 0));
  }

  lemma {:induction false} AllPositive(dims: seq<Dim>, i: nat)
    requires NotNegative(dims) && i <= |dims| && Volume(dims, i) != 0
    ensures Volume(dims, i) > 0 && forall k :: i <= k < |dims| ==> dims[k].count.value > 0
    decreases |dims| - i
  {
    if i < |dims| {
      AllPositive(dims, i + 1);
    }
  }

  lemma MemberIsPart(types: seq<Type>, rank: seq<nat>, t: TypeId, el: Element)
    requires WellFormed(types, rank) && t < |types| && types[t].Structure? && el in types[t].elements && el.Member?
    ensures |rank| == |types| && (el.ty.Some? ==> el.ty.value < |types| && rank[el.ty.value] < rank[t])
  {
    assert Laid(types, rank, t);
  }

  lemma PointeeIsKnown(types: seq<Type>, rank: seq<nat>, t: TypeId)
    requires WellFormed(types, rank) && t < |types| && types[t].Pointer?
    ensures types[t].pointee.Some? ==> types[t].pointee.value < |types|
  {
    assert Laid(types, rank, t);
  }

  lemma PartIsKnown(types: seq<Type>, rank: seq<nat>, t: TypeId)
    requires WellFormed(types, rank) && t < |types| && types[t].Array?
    ensures |rank| == |types| && Part(types, rank, t, types[t].base)
  {
    assert Laid(types, rank, t);
  }
}

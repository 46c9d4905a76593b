/**
 The text that include/tsar/Unparse/SourceUnparser.h makes of the lists of tokens, and a parser with the precedence of
 C that gets the expression back from it.
 */
module UnparserSyntax {
  import opened Unparser
  import opened Wrappers

  // ---------- The text ----------

  /** A token of the text; constants, members and the variable have a value. */
  datatype Item = Op(token: Token) | Constant(n: nat) | Name(member: Element) | Var

  /** `toString`: the reversed prefix, the variable, and the suffix with the values in the order of the tokens. */
  function ToText(reversePrefix: seq<Token>, suffix: seq<Token>, consts: seq<nat>, members: seq<Element>): seq<Item> {
    Backwards(reversePrefix) + [Var] + Filled(suffix, consts, members)
  }

  function Backwards(tokens: seq<Token>): seq<Item> {
    if tokens == [] then [] else Backwards(tokens[1..]) + [Op(tokens[0])]
  }

  /** Tokens that want a value and find none are dropped. */
  function Filled(tokens: seq<Token>, consts: seq<nat>, members: seq<Element>): seq<Item> {
    if tokens == [] then []
    else if tokens[0] == UCONST then
      if consts == [] then Filled(tokens[1..], consts, members)
      else [Constant(consts[0])] + Filled(tokens[1..], consts[1..], members)
    else if tokens[0] == IDENTIFIER then
      if members == [] then Filled(tokens[1..], consts, members)
      else [Name(members[0])] + Filled(tokens[1..], consts, members[1..])
    else [Op(tokens[0])] + Filled(tokens[1..], consts, members)
  }

  function Count(tokens: seq<Token>, t: Token): nat {
    if tokens == [] then 0 else (if tokens[0] == t then 1 else 0) + Count(tokens[1..], t)
  }

  /** There is a value for each token that wants one. */
  predicate Matched(tokens: seq<Token>, consts: seq<nat>, members: seq<Element>) {
    Count(tokens, UCONST) == |consts| && Count(tokens, IDENTIFIER) == |members|
  }

  lemma {:induction false} FilledConcat(a: seq<Token>, b: seq<Token>, ca: seq<nat>, cb: seq<nat>, ma: seq<Element>, mb: seq<Element>)
    requires Matched(a, ca, ma)
    ensures Filled(a + b, ca + cb, ma + mb) == Filled(a, ca, ma) + Filled(b, cb, mb)
    ensures Matched(b, cb, mb) ==> Matched(a + b, ca + cb, ma + mb)
  {
    if a == [] {
      assert [] + b == b && ca + cb == cb && ma + mb == mb;
    } else {
      assert (a + b)[1..] == a[1..] + b;
      if a[0] == UCONST {
        assert (ca + cb)[1..] == ca[1..] + cb;
        FilledConcat(a[1..], b, ca[1..], cb, ma, mb);
      } else if a[0] == IDENTIFIER {
        assert (ma + mb)[1..] == ma[1..] + mb;
        FilledConcat(a[1..], b, ca, cb, ma[1..], mb);
      } else {
        FilledConcat(a[1..], b, ca, cb, ma, mb);
      }
    }
  }

  lemma {:induction false} BackwardsConcat(a: seq<Token>, b: seq<Token>)
    ensures Backwards(a + b) == Backwards(b) + Backwards(a)
  {
    if a == [] {
      assert [] + b == b;
    } else {
      assert (a + b)[1..] == a[1..] + b;
      BackwardsConcat(a[1..], b);
    }
  }

  // ---------- The text of an expression ----------

  function SignItems(s: Subscript): seq<Item> {
    if s.negative then [Op(SUB), Constant(s.n)] else [Constant(s.n)]
  }

  function SubscriptItems(subs: seq<Subscript>): seq<Item> {
    if subs == [] then []
    else if |subs| == 1 then SignItems(subs[0])
    else SignItems(subs[0]) + [Op(SEPARATOR)] + SubscriptItems(subs[1..])
  }

  /** What is in front of the variable and behind it, from the structure of the expression. */
  function Text(e: Expr): seq<Item>
    decreases e, 0
  {
    match e
    case Variable => [Var]
    case AddressOf(x) => [Op(ADDRESS)] + Operand(x, 1)
    case Deref(x) => [Op(DEREF)] + Operand(x, 1)
    case CastAdd(x, positive, n) => [Op(CAST_TO_ADDRESS)] + Operand(x, 1) + [Op(if positive then ADD else SUB), Constant(n)]
    case Access(x, member) => Operand(x, 2) + [Op(FIELD), Name(member)]
    case Index(x, subs) => Operand(x, 2) + [Op(SUBSCRIPT_BEGIN)] + SubscriptItems(subs) + [Op(SUBSCRIPT_END)]
  }

  /** An operand in parentheses when its operation has a lower priority. */
  function Operand(e: Expr, level: nat): seq<Item>
    decreases e, 1
  {
    if Level(e) < level then [Op(PARENTHESES_LEFT)] + Text(e) + [Op(PARENTHESES_RIGHT)] else Text(e)
  }

  /** The lists of tokens and values stand for a text. */
  ghost predicate Shows(reversePrefix: seq<Token>, suffix: seq<Token>, consts: seq<nat>, members: seq<Element>, text: seq<Item>) {
    ToText(reversePrefix, suffix, consts, members) == text && Matched(suffix, consts, members)
  }

  lemma AddAround(p: seq<Token>, s: seq<Token>, c: seq<nat>, m: seq<Element>, text: seq<Item>,
                  p2: seq<Token>, s2: seq<Token>, c2: seq<nat>, m2: seq<Element>)
    requires Shows(p, s, c, m, text) && Matched(s2, c2, m2)
    ensures Shows(p + p2, s + s2, c + c2, m + m2, Backwards(p2) + text + Filled(s2, c2, m2))
  {
    hide Backwards, Filled, Matched;
    FilledConcat(s, s2, c, c2, m, m2);
    BackwardsConcat(p, p2);
    assert Backwards(p2) + (Backwards(p) + [Var] + Filled(s, c, m)) + Filled(s2, c2, m2)
        == (Backwards(p2) + Backwards(p)) + [Var] + (Filled(s, c, m) + Filled(s2, c2, m2));
  }

  ghost predicate ShowsExpr(e: Expr) {
    Shows(ReversePrefix(e), Suffix(e), UConsts(e), Members(e), Text(e))
  }

  lemma OperandShown(e: Expr, level: nat)
    requires ShowsExpr(e)
    ensures Shows(ReversePrefix(e) + Opening(e, level), Suffix(e) + Closing(e, level), UConsts(e), Members(e), Operand(e, level))
  {
    hide Shows, Text;
    SmallTexts();
    AddAround(ReversePrefix(e), Suffix(e), UConsts(e), Members(e), Text(e), Opening(e, level), Closing(e, level), [], []);
    assert UConsts(e) + [] == UConsts(e) && Members(e) + [] == Members(e);
    assert [] + Text(e) + [] == Text(e);
  }

  lemma SmallTexts()
    ensures Matched([], [], []) && Filled([], [], []) == [] && Backwards([]) == []
    ensures Matched([PARENTHESES_RIGHT], [], []) && Filled([PARENTHESES_RIGHT], [], []) == [Op(PARENTHESES_RIGHT)]
    ensures Backwards([PARENTHESES_LEFT]) == [Op(PARENTHESES_LEFT)]
  {
    assert Backwards([PARENTHESES_LEFT][1..]) == [];
  }

  lemma OneBackwards(t: Token)
    ensures Backwards([t]) == [Op(t)]
  {
    assert [t][1..] == [];
  }

  /** A token without a value, a constant, a member. */
  lemma OneText(t: Token, n: nat, member: Element)
    ensures t != UCONST && t != IDENTIFIER ==> Matched([t], [], []) && Filled([t], [], []) == [Op(t)]
    ensures Matched([UCONST], [n], []) && Filled([UCONST], [n], []) == [Constant(n)]
    ensures Matched([IDENTIFIER], [], [member]) && Filled([IDENTIFIER], [], [member]) == [Name(member)]
  {
    assert [t][1..] == [] && [UCONST][1..] == [] && [IDENTIFIER][1..] == [] && [n][1..] == [] && [member][1..] == [];
  }

  lemma SumTexts(positive: bool, n: nat)
    ensures var s := [if positive then ADD else SUB, UCONST];
            Matched(s, [n], []) && Filled(s, [n], []) == [Op(if positive then ADD else SUB), Constant(n)]
  {
    var t := if positive then ADD else SUB;
    OneText(t, n, Other);
    FilledConcat([t], [UCONST], [], [n], [], []);
    assert [t] + [UCONST] == [t, UCONST] && [] + [n] == [n] && NONE + NONE == NONE;
  }

  lemma FieldTexts(member: Element)
    ensures Matched([FIELD, IDENTIFIER], [], [member])
    ensures Filled([FIELD, IDENTIFIER], [], [member]) == [Op(FIELD), Name(member)]
  {
    OneText(FIELD, 0, member);
    var none: seq<nat> := [];
    FilledConcat([FIELD], [IDENTIFIER], none, none, [], [member]);
    assert [FIELD] + [IDENTIFIER] == [FIELD, IDENTIFIER] && [] + [member] == [member] && none + none == none;
  }

  lemma SignTexts(s: Subscript)
    ensures Matched(s.Tokens(), [s.n], []) && Filled(s.Tokens(), [s.n], []) == SignItems(s)
  {
    OneText(SUB, s.n, Other);
    FilledConcat([SUB], [UCONST], [], [s.n], [], []);
    assert [SUB] + [UCONST] == [SUB, UCONST] && [] + [s.n] == [s.n] && NONE + NONE == NONE;
  }

  lemma SeparatorTexts()
    ensures Matched([SEPARATOR], [], []) && Filled([SEPARATOR], [], []) == [Op(SEPARATOR)]
  {
    OneText(SEPARATOR, 0, Other);
  }

  /** One more subscript at the end of a list. */
  lemma {:induction false} SubscriptItemsSnoc(subs: seq<Subscript>, s: Subscript)
    ensures SubscriptItems(subs + [s])
         == SubscriptItems(subs) + (if subs == [] then [] else [Op(SEPARATOR)]) + SignItems(s)
  {
    if subs == [] {
      assert [] + [s] == [s];
    } else {
      assert (subs + [s])[0] == subs[0] && (subs + [s])[1..] == subs[1..] + [s];
      SubscriptItemsSnoc(subs[1..], s);
      if |subs| == 1 {
        assert subs[1..] == [];
      }
    }
  }

  const NONE: seq<Element> := []

  lemma {:induction false} SubscriptTexts(subs: seq<Subscript>)
    ensures Matched(SubscriptTokens(subs), Constants(subs), [])
    ensures Filled(SubscriptTokens(subs), Constants(subs), []) == SubscriptItems(subs)
  {
    if subs == [] {
      NoSubscripts();
    } else {
      var front, s := subs[..|subs| - 1], subs[|subs| - 1];
      assert subs == front + [s];
      SubscriptTexts(front);
      OneSubscript(front, s);
      SubscriptItemsSnoc(front, s);
      SignTexts(s);
      SeparatorTexts();
      SmallTexts();
      var separator: seq<Token> := if front == [] then [] else [SEPARATOR];
      FilledConcat(SubscriptTokens(front), separator, Constants(front), [], [], []);
      assert Constants(front) + [] == Constants(front) && NONE + NONE == NONE;
      FilledConcat(SubscriptTokens(front) + separator, s.Tokens(), Constants(front), [s.n], [], []);
    }
  }

  lemma BracketTexts(subs: seq<Subscript>)
    ensures var s := [SUBSCRIPT_BEGIN] + SubscriptTokens(subs) + [SUBSCRIPT_END];
            Matched(s, Constants(subs), [])
            && Filled(s, Constants(subs), []) == [Op(SUBSCRIPT_BEGIN)] + SubscriptItems(subs) + [Op(SUBSCRIPT_END)]
  {
    hide SubscriptTokens, Constants, SubscriptItems;
    SubscriptTexts(subs);
    BracketText();
    FilledConcat([SUBSCRIPT_BEGIN], SubscriptTokens(subs), [], Constants(subs), [], []);
    assert [] + Constants(subs) == Constants(subs) && NONE + NONE == NONE;
    FilledConcat([SUBSCRIPT_BEGIN] + SubscriptTokens(subs), [SUBSCRIPT_END], Constants(subs), [], [], []);
    assert Constants(subs) + [] == Constants(subs);
  }

  lemma BracketText()
    ensures Matched([SUBSCRIPT_BEGIN], [], []) && Filled([SUBSCRIPT_BEGIN], [], []) == [Op(SUBSCRIPT_BEGIN)]
    ensures Matched([SUBSCRIPT_END], [], []) && Filled([SUBSCRIPT_END], [], []) == [Op(SUBSCRIPT_END)]
  {
    OneText(SUBSCRIPT_BEGIN, 0, Other);
    OneText(SUBSCRIPT_END, 0, Other);
  }

  /** The lists of an expression make its text. */
  lemma {:induction false} ListsMakeText(e: Expr)
    ensures ShowsExpr(e)
  {
    hide Shows, Operand, Opening, Closing;
    match e
    case Variable =>
      NothingAround();
    case AddressOf(x) =>
      ListsMakeText(x);
      PrefixShown(x, ADDRESS);
    case Deref(x) =>
      ListsMakeText(x);
      PrefixShown(x, DEREF);
    case CastAdd(x, positive, n) =>
      ListsMakeText(x);
      OperandShown(x, 1);
      SumTexts(positive, n);
      OneBackwards(CAST_TO_ADDRESS);
      AddAround(ReversePrefix(x) + Opening(x, 1), Suffix(x) + Closing(x, 1), UConsts(x), Members(x), Operand(x, 1),
                [CAST_TO_ADDRESS], [if positive then ADD else SUB, UCONST], [n], []);
      assert Members(x) + [] == Members(x);
    case Access(x, member) =>
      ListsMakeText(x);
      OperandShown(x, 2);
      FieldTexts(member);
      SmallTexts();
      AddAround(ReversePrefix(x) + Opening(x, 2), Suffix(x) + Closing(x, 2), UConsts(x), Members(x), Operand(x, 2),
                [], [FIELD, IDENTIFIER], [], [member]);
      assert UConsts(x) + [] == UConsts(x) && ReversePrefix(x) + Opening(x, 2) + [] == ReversePrefix(x) + Opening(x, 2);
      assert [] + Operand(x, 2) == Operand(x, 2);
    case Index(x, subs) =>
      ListsMakeText(x);
      IndexShown(x, subs);
  }

  lemma NothingAround()
    ensures ShowsExpr(Variable)
  {
  }

  lemma PrefixShown(x: Expr, t: Token)
    requires ShowsExpr(x) && t != UCONST && t != IDENTIFIER
    ensures Shows(ReversePrefix(x) + Opening(x, 1) + [t], Suffix(x) + Closing(x, 1), UConsts(x), Members(x), [Op(t)] + Operand(x, 1))
  {
    hide Shows, Operand, Opening, Closing;
    OperandShown(x, 1);
    OneBackwards(t);
    SmallTexts();
    AddAround(ReversePrefix(x) + Opening(x, 1), Suffix(x) + Closing(x, 1), UConsts(x), Members(x), Operand(x, 1), [t], [], [], []);
    assert UConsts(x) + [] == UConsts(x) && Members(x) + [] == Members(x) && Suffix(x) + Closing(x, 1) + [] == Suffix(x) + Closing(x, 1);
    assert [Op(t)] + Operand(x, 1) + [] == [Op(t)] + Operand(x, 1);
  }

  lemma IndexShown(x: Expr, subs: seq<Subscript>)
    requires ShowsExpr(x)
    ensures ShowsExpr(Index(x, subs))
  {
    hide Shows, Operand, Opening, Closing, SubscriptTokens, SubscriptItems, Constants;
    OperandShown(x, 2);
    BracketTexts(subs);
    SmallTexts();
    var s := [SUBSCRIPT_BEGIN] + SubscriptTokens(subs) + [SUBSCRIPT_END];
    AddAround(ReversePrefix(x) + Opening(x, 2), Suffix(x) + Closing(x, 2), UConsts(x), Members(x), Operand(x, 2),
              [], s, Constants(subs), []);
    assert Members(x) + [] == Members(x) && ReversePrefix(x) + Opening(x, 2) + [] == ReversePrefix(x) + Opening(x, 2);
    assert Suffix(Index(x, subs)) == Suffix(x) + Closing(x, 2) + s;
    assert [] + Operand(x, 2) + ([Op(SUBSCRIPT_BEGIN)] + SubscriptItems(subs) + [Op(SUBSCRIPT_END)]) == Text(Index(x, subs));
  }

  // ---------- A parser ----------

  /** C syntax: a cast and a sum are operations of their own. */
  datatype Syntax =
    | SVariable
    | SAddress(s: Syntax)
    | SDeref(s: Syntax)
    | SCast(s: Syntax)
    | SSum(s: Syntax, positive: bool, n: nat)
    | SField(s: Syntax, member: Element)
    | SIndex(s: Syntax, subs: seq<Subscript>)

  function SyntaxOf(e: Expr): Syntax {
    match e
    case Variable => SVariable
    case AddressOf(x) => SAddress(SyntaxOf(x))
    case Deref(x) => SDeref(SyntaxOf(x))
    case CastAdd(x, positive, n) => SSum(SCast(SyntaxOf(x)), positive, n)
    case Access(x, member) => SField(SyntaxOf(x), member)
    case Index(x, subs) => SIndex(SyntaxOf(x), subs)
  }

  datatype Parsed<T> = Parsed(value: T, rest: seq<Item>)

  /** One subscript with an optional sign. */
  function ParseSubscript(ts: seq<Item>): (r: Option<Parsed<Subscript>>)
    ensures r.Some? ==> |r.value.rest| < |ts|
  {
    if |ts| >= 1 && ts[0].Constant? then Some(Parsed(Subscript(false, ts[0].n), ts[1..]))
    else if |ts| >= 2 && ts[0] == Op(SUB) && ts[1].Constant? then Some(Parsed(Subscript(true, ts[1].n), ts[2..]))
    else None
  }

  /** Subscripts with separators between them, up to the end of the list. */
  function ParseSubscripts(ts: seq<Item>): (r: Option<Parsed<seq<Subscript>>>)
    ensures r.Some? ==> |r.value.rest| < |ts|
    decreases |ts|
  {
    var first := ParseSubscript(ts);
    if first.None? || first.value.rest == [] then None
    else
      var s, rest := first.value.value, first.value.rest;
      if rest[0] == Op(SUBSCRIPT_END) then Some(Parsed([s], rest[1..]))
      else if rest[0] == Op(SEPARATOR) then
        var more := ParseSubscripts(rest[1..]);
        if more.None? then None else Some(Parsed([s] + more.value.value, more.value.rest))
      else None
  }

  /** A sum: the operations with the lowest priority, from left to right. */
  function ParseSum(ts: seq<Item>): (r: Option<Parsed<Syntax>>)
    ensures r.Some? ==> |r.value.rest| < |ts|
    decreases |ts|, 3
  {
    var first := ParseUnary(ts);
    if first.None? then None else Some(SumTail(first.value.value, first.value.rest))
  }

  function SumTail(s: Syntax, ts: seq<Item>): (r: Parsed<Syntax>)
    ensures |r.rest| <= |ts|
    decreases |ts|
  {
    if |ts| >= 2 && (ts[0] == Op(ADD) || ts[0] == Op(SUB)) && ts[1].Constant?
    then SumTail(SSum(s, ts[0] == Op(ADD), ts[1].n), ts[2..])
    else Parsed(s, ts)
  }

  /** Prefix operations, from right to left. */
  function ParseUnary(ts: seq<Item>): (r: Option<Parsed<Syntax>>)
    ensures r.Some? ==> |r.value.rest| < |ts|
    decreases |ts|, 2
  {
    if ts != [] && (ts[0] == Op(ADDRESS) || ts[0] == Op(DEREF) || ts[0] == Op(CAST_TO_ADDRESS)) then
      var operand := ParseUnary(ts[1..]);
      if operand.None? then None
      else
        var s := operand.value.value;
        Some(Parsed(if ts[0] == Op(ADDRESS) then SAddress(s) else if ts[0] == Op(DEREF) then SDeref(s) else SCast(s),
                    operand.value.rest))
    else ParsePostfix(ts)
  }

  function ParsePostfix(ts: seq<Item>): (r: Option<Parsed<Syntax>>)
    ensures r.Some? ==> |r.value.rest| < |ts|
    decreases |ts|, 1
  {
    var first := ParsePrimary(ts);
    if first.None? then None else PostfixTail(first.value.value, first.value.rest)
  }

  function PostfixTail(s: Syntax, ts: seq<Item>): (r: Option<Parsed<Syntax>>)
    ensures r.Some? ==> |r.value.rest| <= |ts|
    decreases |ts|
  {
    if |ts| >= 2 && ts[0] == Op(FIELD) && ts[1].Name? then PostfixTail(SField(s, ts[1].member), ts[2..])
    else if |ts| >= 1 && ts[0] == Op(SUBSCRIPT_BEGIN) then
      var subs := ParseSubscripts(ts[1..]);
      if subs.None? then None else PostfixTail(SIndex(s, subs.value.value), subs.value.rest)
    else Some(Parsed(s, ts))
  }

  /** The variable, or an expression in parentheses. */
  function ParsePrimary(ts: seq<Item>): (r: Option<Parsed<Syntax>>)
    ensures r.Some? ==> |r.value.rest| < |ts|
    decreases |ts|, 0
  {
    if ts == [] then None
    else if ts[0] == Var then Some(Parsed(SVariable, ts[1..]))
    else if ts[0] == Op(PARENTHESES_LEFT) then
      var inner := ParseSum(ts[1..]);
      if inner.None? || inner.value.rest == [] || inner.value.rest[0] != Op(PARENTHESES_RIGHT) then None
      else Some(Parsed(inner.value.value, inner.value.rest[1..]))
    else None
  }

  function Parse(ts: seq<Item>): Option<Syntax> {
    var r := ParseSum(ts);
    if r.Some? && r.value.rest == [] then Some(r.value.value) else None
  }

  // ---------- The text is parsed back ----------

  /** No operation of a priority of at least `level` goes on here. */
  predicate Stops(rest: seq<Item>, level: nat) {
    rest == [] ||
      (rest[0] != Op(FIELD) && rest[0] != Op(SUBSCRIPT_BEGIN) && (level == 0 ==> rest[0] != Op(ADD) && rest[0] != Op(SUB)))
  }

  lemma {:induction false} SubscriptsParsed(subs: seq<Subscript>, rest: seq<Item>)
    requires subs != []
    ensures ParseSubscripts(SubscriptItems(subs) + [Op(SUBSCRIPT_END)] + rest) == Some(Parsed(subs, rest))
  {
    hide ParseSubscripts, ParseSubscript, SignItems;
    var s, end := subs[0], [Op(SUBSCRIPT_END)] + rest;
    if |subs| == 1 {
      SubscriptParsed(s, end);
      LastSubscript(SignItems(s) + end, s, rest);
      assert SubscriptItems(subs) + [Op(SUBSCRIPT_END)] + rest == SignItems(s) + end;
      assert subs == [s];
    } else {
      var more := SubscriptItems(subs[1..]) + [Op(SUBSCRIPT_END)] + rest;
      SubscriptsParsed(subs[1..], rest);
      SubscriptParsed(s, [Op(SEPARATOR)] + more);
      NextSubscript(SignItems(s) + ([Op(SEPARATOR)] + more), s, more, subs[1..], rest);
      Joined(SignItems(s), [Op(SEPARATOR)], SubscriptItems(subs[1..]), [Op(SUBSCRIPT_END)], rest);
      assert [s] + subs[1..] == subs;
    }
  }

  lemma Joined(a: seq<Item>, b: seq<Item>, c: seq<Item>, d: seq<Item>, e: seq<Item>)
    ensures (a + b + c) + d + e == a + (b + (c + d + e))
  {
  }

  lemma LastSubscript(ts: seq<Item>, s: Subscript, rest: seq<Item>)
    requires ParseSubscript(ts) == Some(Parsed(s, [Op(SUBSCRIPT_END)] + rest))
    ensures ParseSubscripts(ts) == Some(Parsed([s], rest))
  {
    assert ([Op(SUBSCRIPT_END)] + rest)[1..] == rest;
  }

  lemma NextSubscript(ts: seq<Item>, s: Subscript, more: seq<Item>, subs: seq<Subscript>, rest: seq<Item>)
    requires ParseSubscript(ts) == Some(Parsed(s, [Op(SEPARATOR)] + more))
    requires ParseSubscripts(more) == Some(Parsed(subs, rest))
    ensures ParseSubscripts(ts) == Some(Parsed([s] + subs, rest))
  {
    hide ParseSubscript;
    assert ([Op(SEPARATOR)] + more)[1..] == more;
  }

  lemma SubscriptParsed(s: Subscript, rest: seq<Item>)
    ensures ParseSubscript(SignItems(s) + rest) == Some(Parsed(s, rest))
  {
    var ts := SignItems(s) + rest;
    if s.negative {
      assert ts[0] == Op(SUB) && ts[1] == Constant(s.n) && ts[2..] == rest;
    } else {
      assert ts[0] == Constant(s.n) && ts[1..] == rest;
    }
  }

  lemma PrefixParsed(t: Token, ts: seq<Item>)
    requires t == ADDRESS || t == DEREF || t == CAST_TO_ADDRESS
    ensures ParseUnary(ts).Some? ==>
              ParseUnary([Op(t)] + ts) == Some(Parsed(
                var s := ParseUnary(ts).value.value; if t == ADDRESS then SAddress(s) else if t == DEREF then SDeref(s) else SCast(s),
                ParseUnary(ts).value.rest))
  {
    assert ([Op(t)] + ts)[1..] == ts;
  }

  lemma SumGoesOn(s: Syntax, positive: bool, n: nat, rest: seq<Item>)
    requires Stops(rest, 0)
    ensures SumTail(s, [Op(if positive then ADD else SUB), Constant(n)] + rest) == Parsed(SSum(s, positive, n), rest)
    ensures SumTail(s, rest) == Parsed(s, rest)
  {
    var ts := [Op(if positive then ADD else SUB), Constant(n)] + rest;
    assert ts[2..] == rest;
    assert SumTail(SSum(s, positive, n), rest) == Parsed(SSum(s, positive, n), rest);
  }

  /** A text at the level of sums. */
  lemma {:induction false} SumParsed(e: Expr, rest: seq<Item>)
    requires Subscripted(e) && Stops(rest, 0)
    ensures ParseSum(Text(e) + rest) == Some(Parsed(SyntaxOf(e), rest))
    decreases e, 3
  {
    hide ParseUnary, SumTail, Operand;
    match e {
      case CastAdd(x, positive, n) =>
        var behind := [Op(if positive then ADD else SUB), Constant(n)] + rest;
        OperandParsed(x, behind);
        PrefixParsed(CAST_TO_ADDRESS, Operand(x, 1) + behind);
        SumGoesOn(SCast(SyntaxOf(x)), positive, n, rest);
        assert Text(e) + rest == [Op(CAST_TO_ADDRESS)] + (Operand(x, 1) + behind);
      case _ =>
        UnaryParsed(e, rest);
        SumGoesOn(SyntaxOf(e), true, 0, rest);
    }
  }

  /** A text at the level of prefix operations. */
  lemma {:induction false} UnaryParsed(e: Expr, rest: seq<Item>)
    requires Subscripted(e) && Level(e) >= 1 && Stops(rest, 1)
    ensures ParseUnary(Text(e) + rest) == Some(Parsed(SyntaxOf(e), rest))
    decreases e, 2
  {
    hide Operand, ParsePostfix;
    if e.AddressOf? {
      OperandParsed(e.e, rest);
      PrefixParsed(ADDRESS, Operand(e.e, 1) + rest);
      assert Text(e) + rest == [Op(ADDRESS)] + (Operand(e.e, 1) + rest);
    } else if e.Deref? {
      OperandParsed(e.e, rest);
      PrefixParsed(DEREF, Operand(e.e, 1) + rest);
      assert Text(e) + rest == [Op(DEREF)] + (Operand(e.e, 1) + rest);
    } else {
      PostfixParsed(e, rest);
      StartsPostfix(e, rest);
      assert (Text(e) + rest)[0] == Text(e)[0];
    }
  }

  /** An operand of a prefix operation. */
  lemma {:induction false} OperandParsed(x: Expr, rest: seq<Item>)
    requires Subscripted(x) && Stops(rest, 1)
    ensures ParseUnary(Operand(x, 1) + rest) == Some(Parsed(SyntaxOf(x), rest))
    decreases x, 5
  {
    if Level(x) < 1 {
      var ts := Operand(x, 1) + rest;
      ParenthesesParsed(x, rest);
      assert ts == [Op(PARENTHESES_LEFT)] + Text(x) + [Op(PARENTHESES_RIGHT)] + rest;
      assert ts[0] == Op(PARENTHESES_LEFT);
    } else {
      UnaryParsed(x, rest);
    }
  }

  lemma {:induction false} ParenthesesParsed(x: Expr, rest: seq<Item>)
    requires Subscripted(x)
    ensures ParsePrimary([Op(PARENTHESES_LEFT)] + Text(x) + [Op(PARENTHESES_RIGHT)] + rest) == Some(Parsed(SyntaxOf(x), rest))
    ensures ParsePostfix([Op(PARENTHESES_LEFT)] + Text(x) + [Op(PARENTHESES_RIGHT)] + rest) == PostfixTail(SyntaxOf(x), rest)
    decreases x, 4
  {
    hide Text, Operand, ParseSum;
    var behind := [Op(PARENTHESES_RIGHT)] + rest;
    SumParsed(x, behind);
    var ts := [Op(PARENTHESES_LEFT)] + Text(x) + [Op(PARENTHESES_RIGHT)] + rest;
    assert ts[0] == Op(PARENTHESES_LEFT) && ts[1..] == Text(x) + behind && behind[1..] == rest;
  }

  lemma FieldGoesOn(s: Syntax, member: Element, rest: seq<Item>)
    ensures PostfixTail(s, [Op(FIELD), Name(member)] + rest) == PostfixTail(SField(s, member), rest)
  {
    assert ([Op(FIELD), Name(member)] + rest)[2..] == rest;
  }

  lemma IndexGoesOn(s: Syntax, subs: seq<Subscript>, list: seq<Item>, rest: seq<Item>)
    requires ParseSubscripts(list) == Some(Parsed(subs, rest))
    ensures PostfixTail(s, [Op(SUBSCRIPT_BEGIN)] + list) == PostfixTail(SIndex(s, subs), rest)
  {
    hide ParseSubscripts;
    assert ([Op(SUBSCRIPT_BEGIN)] + list)[1..] == list;
  }

  /** A text at the level of postfix operations: the parser goes on behind it. */
  lemma {:induction false} PostfixParsed(e: Expr, rest: seq<Item>)
    requires Subscripted(e) && Level(e) >= 2
    ensures ParsePostfix(Text(e) + rest) == PostfixTail(SyntaxOf(e), rest)
    decreases e, 1
  {
    hide PostfixTail, Operand, SubscriptItems;
    if e.Variable? {
      assert ([Var] + rest)[1..] == rest;
    } else if e.Access? {
      PostfixOperandParsed(e.e, [Op(FIELD), Name(e.member)] + rest);
      FieldGoesOn(SyntaxOf(e.e), e.member, rest);
      assert Text(e) + rest == Operand(e.e, 2) + ([Op(FIELD), Name(e.member)] + rest);
    } else {
      hide ParsePostfix;
      var list := SubscriptItems(e.subs) + [Op(SUBSCRIPT_END)] + rest;
      PostfixOperandParsed(e.e, [Op(SUBSCRIPT_BEGIN)] + list);
      SubscriptsParsed(e.subs, rest);
      IndexGoesOn(SyntaxOf(e.e), e.subs, list, rest);
      JoinedText(Operand(e.e, 2), [Op(SUBSCRIPT_BEGIN)], SubscriptItems(e.subs), [Op(SUBSCRIPT_END)], rest);
    }
  }

  lemma JoinedText(a: seq<Item>, b: seq<Item>, c: seq<Item>, d: seq<Item>, e: seq<Item>)
    ensures (a + b + c + d) + e == a + (b + (c + d + e))
  {
  }

  lemma {:induction false} PostfixOperandParsed(x: Expr, rest: seq<Item>)
    requires Subscripted(x)
    ensures ParsePostfix(Operand(x, 2) + rest) == PostfixTail(SyntaxOf(x), rest)
    decreases x, 5
  {
    if Level(x) < 2 {
      ParenthesesParsed(x, rest);
      assert Operand(x, 2) + rest == [Op(PARENTHESES_LEFT)] + Text(x) + [Op(PARENTHESES_RIGHT)] + rest;
    } else {
      PostfixParsed(x, rest);
    }
  }

  /** A text at the level of postfix operations does not start with a prefix operation, and nothing goes on behind it. */
  lemma {:induction false} StartsPostfix(e: Expr, rest: seq<Item>)
    requires Level(e) >= 2
    ensures Text(e) != [] && (Text(e)[0] == Var || Text(e)[0] == Op(PARENTHESES_LEFT))
  {
    match e {
      case Variable =>
      case Access(x, member) => if Level(x) >= 2 { StartsPostfix(x, rest); }
      case Index(x, subs) => if Level(x) >= 2 { StartsPostfix(x, rest); }
    }
  }

  /** Parsing the text that is made of the lists gives the expression back. */
  lemma TextIsParsedBack(e: Expr)
    requires Subscripted(e)
    ensures Parse(ToText(ReversePrefix(e), Suffix(e), UConsts(e), Members(e))) == Some(SyntaxOf(e))
  {
    ListsMakeText(e);
    SumParsed(e, []);
    assert Text(e) + [] == Text(e);
  }

  /** What is printed for an unparser is the text of its expression. */
  lemma PrintedIsParsedBack(u: SourceUnparser)
    requires u.Shown()
    ensures Parse(ToText(u.mReversePrefix, u.mSuffix, u.mUConsts, u.mIdentifiers)) == Some(SyntaxOf(u.expr))
  {
    TextIsParsedBack(u.expr);
  }

  /** The syntax tells the expression. */
  lemma {:induction false} SyntaxIsFaithful(e: Expr, f: Expr)
    requires SyntaxOf(e) == SyntaxOf(f)
    ensures e == f
  {
    match e
    case Variable =>
    case AddressOf(x) => SyntaxIsFaithful(x, f.e);
    case Deref(x) => SyntaxIsFaithful(x, f.e);
    case CastAdd(x, positive, n) => SyntaxIsFaithful(x, f.e);
    case Access(x, member) => SyntaxIsFaithful(x, f.e);
    case Index(x, subs) => SyntaxIsFaithful(x, f.e);
  }

  /** Different expressions have different texts. */
  lemma TextIsUnambiguous(e: Expr, f: Expr)
    requires Subscripted(e) && Subscripted(f) && Text(e) == Text(f)
    ensures e == f
  {
    ListsMakeText(e);
    ListsMakeText(f);
    TextIsParsedBack(e);
    TextIsParsedBack(f);
    SyntaxIsFaithful(e, f);
  }
}

/** Printing an expression (expr_print, expr_compare_type in scripts/kconfig/expr.c) and reading it
    back with the grammar of scripts/kconfig/zconf.y: NOT binds tighter than AND, AND tighter than
    OR, and like connectives group to the left. */
module PrintParseModule {
  import opened Common
  import opened KconfigExpr

  /** The tokens of a line after its first word: T_WORD carries a name; T_IF and T_ON are not part of an expression. */
  datatype Token = WORD(name: string) | EQUALS | DIFFERS | BANG | AMPERSANDS | BARS | OPEN | CLOSE | IF | ON

  /** enum expr_type. */
  datatype ExprType = E_NONE | E_OR | E_AND | E_NOT | E_EQUAL | E_UNEQUAL | E_CHOICE | E_SYMBOL | E_RANGE

  function OpType(op: Op): ExprType {
    if op == AND then E_AND else E_OR
  }

  function TypeOf(e: Expr): ExprType {
    match e
    case Sym(_) => E_SYMBOL
    case Equal(_, _) => E_EQUAL
    case Unequal(_, _) => E_UNEQUAL
    case Not(_) => E_NOT
    case Bin(op, _, _) => OpType(op)
  }

  /** `expr_compare_type(t1, t2)`: each case of the switch falls through to the next one. */
  function CompareType(t1: ExprType, t2: ExprType): int {
    var comparison := t1 == E_EQUAL || t1 == E_UNEQUAL;
    var negation := comparison || t1 == E_NOT;
    var conjunction := negation || t1 == E_AND;
    var disjunction := conjunction || t1 == E_OR;
    var choice := disjunction || t1 == E_CHOICE;
    if t1 == t2 then 0
    else if comparison && t2 == E_NOT then 1
    else if negation && t2 == E_AND then 1
    else if conjunction && t2 == E_OR then 1
    else if disjunction && t2 == E_CHOICE then 1
    else if choice && t2 == E_NONE then 1
    else -1
  }

  /** `sym->name`. */
  function NameOf(s: Symbol): string {
    match s
    case SymYes => "y"
    case SymMod => "m"
    case SymNo => "n"
    case Quoted(text) => text
    case Variable(name, _) => name
  }

  function OpToken(op: Op): Token {
    if op == AND then AMPERSANDS else BARS
  }

  /** `expr_print(e, fn, data, prev)`, as the tokens it writes. */
  function Print(e: Expr, prev: ExprType): seq<Token>
    decreases e, 1
  {
    if CompareType(prev, TypeOf(e)) > 0 then [OPEN] + PrintBare(e) + [CLOSE] else PrintBare(e)
  }

  /** The switch in expr_print. */
  function PrintBare(e: Expr): seq<Token>
    decreases e, 0
  {
    match e
    case Sym(s) => [WORD(NameOf(s))]
    case Equal(a, b) => [WORD(NameOf(a)), EQUALS, WORD(NameOf(b))]
    case Unequal(a, b) => [WORD(NameOf(a)), DIFFERS, WORD(NameOf(b))]
    case Not(x) => [BANG] + Print(x, E_NOT)
    case Bin(op, l, r) => Print(l, OpType(op)) + [OpToken(op)] + Print(r, OpType(op))
  }

  /** The names in a list of tokens. */
  function Words(ts: seq<Token>): seq<string> {
    if ts == [] then []
    else (if ts[0].WORD? then [ts[0].name] else []) + Words(ts[1..])
  }

  function Names(symbols: seq<Symbol>): (r: seq<string>)
    ensures |r| == |symbols| && forall i :: 0 <= i < |r| ==> r[i] == NameOf(symbols[i])
  {
    seq(|symbols|, i requires 0 <= i < |symbols| => NameOf(symbols[i]))
  }

  lemma {:induction false} WordsAppend(a: seq<Token>, b: seq<Token>)
    ensures Words(a + b) == Words(a) + Words(b)
  {
    if a == [] {
      assert a + b == b;
    } else {
      WordsAppend(a[1..], b);
      assert (a + b)[1..] == a[1..] + b;
    }
  }

  lemma WordsOfOne(t: Token)
    ensures Words([t]) == if t.WORD? then [t.name] else []
  {
    assert [t][1..] == [];
  }

  /** The names are printed in the order of the symbols they belong to. */
  lemma {:induction false} PrintsInOrder(e: Expr, prev: ExprType)
    ensures Words(Print(e, prev)) == Names(Occurrences(e))
    decreases e, 1
  {
    PrintsBareInOrder(e);
    if CompareType(prev, TypeOf(e)) > 0 {
      WordsAppend([OPEN] + PrintBare(e), [CLOSE]);
      WordsAppend([OPEN], PrintBare(e));
      WordsOfOne(OPEN);
      WordsOfOne(CLOSE);
    }
  }

  lemma {:induction false} PrintsBareInOrder(e: Expr)
    ensures Words(PrintBare(e)) == Names(Occurrences(e))
    decreases e, 0
  {
    match e
    case Sym(s) => WordsOfOne(WORD(NameOf(s)));
    case Equal(a, b) => WordsOfComparison(NameOf(a), EQUALS, NameOf(b));
    case Unequal(a, b) => WordsOfComparison(NameOf(a), DIFFERS, NameOf(b));
    case Not(x) =>
      PrintsInOrder(x, E_NOT);
      WordsAppend([BANG], Print(x, E_NOT));
      WordsOfOne(BANG);
    case Bin(op, l, r) =>
      PrintsInOrder(l, OpType(op));
      PrintsInOrder(r, OpType(op));
      WordsOfChain(Print(l, OpType(op)), OpToken(op), Print(r, OpType(op)));
      NamesAppend(Occurrences(l), Occurrences(r));
  }

  lemma WordsOfChain(x: seq<Token>, t: Token, y: seq<Token>)
    requires !t.WORD?
    ensures Words(x + [t] + y) == Words(x) + Words(y)
  {
    WordsAppend(x + [t], y);
    WordsAppend(x, [t]);
    WordsOfOne(t);
  }

  lemma NamesAppend(x: seq<Symbol>, y: seq<Symbol>)
    ensures Names(x + y) == Names(x) + Names(y)
  {
  }

  lemma WordsOfComparison(a: string, t: Token, b: string)
    requires !t.WORD?
    ensures Words([WORD(a), t, WORD(b)]) == [a, b]
  {
    assert [WORD(a), t, WORD(b)] == [WORD(a)] + [t] + [WORD(b)];
    WordsAppend([WORD(a)] + [t], [WORD(b)]);
    WordsAppend([WORD(a)], [t]);
    WordsOfOne(WORD(a));
    WordsOfOne(t);
    WordsOfOne(WORD(b));
  }

  // ----- the grammar -----

  /** The types of the declared symbols; a name that is not declared has type UNKNOWN. */
  type Decls = string -> SymbolType

  /** `sym_lookup(name, 0)`, as the grammar does for every T_WORD. */
  function Lookup(d: Decls, name: string): Symbol {
    if name == "y" then SymYes else if name == "m" then SymMod else if name == "n" then SymNo
    else Variable(name, d(name))
  }

  datatype Parsed = Fail | Ok(e: Expr, rest: seq<Token>)

  /** symbol, comparison, `( expr )`, or `! expr` with an operand of the same level. */
  function ParseUnary(d: Decls, ts: seq<Token>): (r: Parsed)
    ensures r.Ok? ==> |r.rest| < |ts|
    decreases |ts|, 0
  {
    if ts == [] then Fail
    else match ts[0]
      case BANG =>
        (match ParseUnary(d, ts[1..])
         case Ok(x, rest) => Ok(Not(x), rest)
         case Fail => Fail)
      case OPEN =>
        (match ParseChain(d, OR, ts[1..])
         case Ok(x, rest) => if rest != [] && rest[0] == CLOSE then Ok(x, rest[1..]) else Fail
         case Fail => Fail)
      case WORD(a) =>
        if |ts| > 1 && (ts[1] == EQUALS || ts[1] == DIFFERS) then
          if |ts| > 2 && ts[2].WORD? then
            var l, r := Lookup(d, a), Lookup(d, ts[2].name);
            Ok(if ts[1] == EQUALS then Equal(l, r) else Unequal(l, r), ts[3..])
          else Fail
        else Ok(Sym(Lookup(d, a)), ts[1..])
      case _ => Fail
  }

  /** What stands between two tokens of `op`: the operands of OR are AND chains. */
  function ParseOperand(d: Decls, op: Op, ts: seq<Token>): (r: Parsed)
    ensures r.Ok? ==> |r.rest| < |ts|
    decreases |ts|, if op == OR then 3 else 1
  {
    if op == OR then ParseChain(d, AND, ts) else ParseUnary(d, ts)
  }

  function ParseChain(d: Decls, op: Op, ts: seq<Token>): (r: Parsed)
    ensures r.Ok? ==> |r.rest| < |ts|
    decreases |ts|, if op == OR then 4 else 2
  {
    match ParseOperand(d, op, ts)
    case Ok(x, rest) => ParseRest(d, op, x, rest)
    case Fail => Fail
  }

  /** `expr op expr`, grouped to the left: `acc` is what was read so far. */
  function ParseRest(d: Decls, op: Op, acc: Expr, ts: seq<Token>): (r: Parsed)
    ensures r.Ok? ==> |r.rest| <= |ts|
    decreases |ts|, 0
  {
    if ts != [] && ts[0] == OpToken(op) then
      match ParseOperand(d, op, ts[1..])
      case Ok(x, rest) => ParseRest(d, op, Bin(op, acc, x), rest)
      case Fail => Fail
    else Ok(acc, ts)
  }

  /** The whole input is one expression. */
  function Parse(d: Decls, ts: seq<Token>): Option<Expr> {
    match ParseChain(d, OR, ts)
    case Ok(e, rest) => if rest == [] then Some(e) else None
    case Fail => None
  }

  // ----- grouping to the left -----

  /** The same expression with every chain of one connective grouped to the left. */
  function LeftGrouped(e: Expr): Expr
    decreases e, 0
  {
    match e
    case Not(x) => Not(LeftGrouped(x))
    case Bin(op, l, r) => Graft(op, LeftGrouped(l), r)
    case _ => e
  }

  /** `acc op e`, with the operands of a chain `e` appended one by one. */
  function Graft(op: Op, acc: Expr, e: Expr): Expr
    decreases e, 1
  {
    if IsOp(op, e) then Graft(op, Graft(op, acc, e.l), e.r) else Bin(op, acc, LeftGrouped(e))
  }

  lemma {:induction false} LeftGroupedKeepsValue(e: Expr, env: Env)
    ensures Value(LeftGrouped(e), env) == Value(e, env)
    decreases e, 0
  {
    match e
    case Not(x) => LeftGroupedKeepsValue(x, env);
    case Bin(op, l, r) =>
      LeftGroupedKeepsValue(l, env);
      GraftValue(op, LeftGrouped(l), r, env);
    case _ =>
  }

  lemma {:induction false} GraftValue(op: Op, acc: Expr, e: Expr, env: Env)
    ensures Value(Graft(op, acc, e), env) == Apply(op, Value(acc, env), Value(e, env))
    decreases e, 1
  {
    if IsOp(op, e) {
      GraftValue(op, acc, e.l, env);
      GraftValue(op, Graft(op, acc, e.l), e.r, env);
    } else {
      LeftGroupedKeepsValue(e, env);
    }
  }

  // ----- what the names stand for -----

  /** The symbol is the one its name is read as: a static one, or a variable with its declared type. */
  predicate ReadsBack(d: Decls, s: Symbol) {
    Lookup(d, NameOf(s)) == s
  }

  predicate Readable(d: Decls, e: Expr) {
    match e
    case Sym(s) => ReadsBack(d, s)
    case Equal(a, b) => ReadsBack(d, a) && ReadsBack(d, b)
    case Unequal(a, b) => ReadsBack(d, a) && ReadsBack(d, b)
    case Not(x) => Readable(d, x)
    case Bin(_, l, r) => Readable(d, l) && Readable(d, r)
  }

  /** The expression with every symbol replaced by the one its name is read as. */
  function Named(d: Decls, e: Expr): Expr {
    match e
    case Sym(s) => Sym(Lookup(d, NameOf(s)))
    case Equal(a, b) => Equal(Lookup(d, NameOf(a)), Lookup(d, NameOf(b)))
    case Unequal(a, b) => Unequal(Lookup(d, NameOf(a)), Lookup(d, NameOf(b)))
    case Not(x) => Not(Named(d, x))
    case Bin(op, l, r) => Bin(op, Named(d, l), Named(d, r))
  }

  lemma {:induction false} NamedIsReadable(d: Decls, e: Expr)
    ensures Readable(d, Named(d, e)) && (Readable(d, e) <==> Named(d, e) == e)
  {
    match e
    case Not(x) => NamedIsReadable(d, x);
    case Bin(_, l, r) =>
      NamedIsReadable(d, l);
      NamedIsReadable(d, r);
    case _ =>
  }

  /** Every variable of `e` is declared with its type. */
  predicate Declared(d: Decls, e: Expr) {
    match e
    case Sym(s) => IsDeclared(d, s)
    case Equal(a, b) => IsDeclared(d, a) && IsDeclared(d, b)
    case Unequal(a, b) => IsDeclared(d, a) && IsDeclared(d, b)
    case Not(x) => Declared(d, x)
    case Bin(_, l, r) => Declared(d, l) && Declared(d, r)
  }

  predicate IsDeclared(d: Decls, s: Symbol) {
    s.Variable? ==> s.name !in ["y", "m", "n"] && s.stype == d(s.name)
  }

  predicate HasQuoted(e: Expr) {
    match e
    case Sym(s) => s.Quoted?
    case Equal(a, b) => a.Quoted? || b.Quoted?
    case Unequal(a, b) => a.Quoted? || b.Quoted?
    case Not(x) => HasQuoted(x)
    case Bin(_, l, r) => HasQuoted(l) || HasQuoted(r)
  }

  /** Of declared expressions exactly those without quoted constants are readable. */
  lemma {:induction false} ReadableExactlyWhen(d: Decls, e: Expr)
    requires Declared(d, e)
    ensures Readable(d, e) <==> !HasQuoted(e)
  {
    match e
    case Not(x) => ReadableExactlyWhen(d, x);
    case Bin(_, l, r) =>
      ReadableExactlyWhen(d, l);
      ReadableExactlyWhen(d, r);
    case _ =>
  }

  lemma {:induction false} PrintsItsNames(d: Decls, e: Expr, prev: ExprType)
    ensures Print(Named(d, e), prev) == Print(e, prev) && PrintBare(Named(d, e)) == PrintBare(e)
  {
    match e
    case Not(x) => PrintsItsNames(d, x, E_NOT);
    case Bin(op, l, r) =>
      PrintsItsNames(d, l, OpType(op));
      PrintsItsNames(d, r, OpType(op));
    case _ =>
  }

  lemma {:induction false} GroupingKeepsNames(d: Decls, e: Expr)
    ensures Readable(d, LeftGrouped(e)) <==> Readable(d, e)
    decreases e, 0
  {
    match e
    case Not(x) => GroupingKeepsNames(d, x);
    case Bin(op, l, r) =>
      GroupingKeepsNames(d, l);
      GraftKeepsNames(d, op, LeftGrouped(l), r);
    case _ =>
  }

  lemma {:induction false} GraftKeepsNames(d: Decls, op: Op, acc: Expr, e: Expr)
    ensures Readable(d, Graft(op, acc, e)) <==> Readable(d, acc) && Readable(d, e)
    decreases e, 1
  {
    if IsOp(op, e) {
      GraftKeepsNames(d, op, acc, e.l);
      GraftKeepsNames(d, op, Graft(op, acc, e.l), e.r);
    } else {
      GroupingKeepsNames(d, e);
    }
  }

  // ----- print, then parse -----

  /** A token that cannot continue an operand. */
  predicate EndsOperand(rest: seq<Token>) {
    rest == [] || (rest[0] != EQUALS && rest[0] != DIFFERS)
  }

  /** A token that cannot continue a chain of `op` or of a tighter connective. */
  predicate EndsChain(op: Op, rest: seq<Token>) {
    EndsOperand(rest) && (rest == [] || (rest[0] != AMPERSANDS && (op == OR ==> rest[0] != BARS)))
  }

  /** `e` is printed after `prev` as something ParseUnary reads. */
  predicate PrintsUnary(e: Expr, prev: ExprType) {
    !e.Bin? || CompareType(prev, TypeOf(e)) > 0
  }

  lemma OnlyChainsNeedParentheses(e: Expr, prev: ExprType)
    requires !e.Bin? && prev in {E_NONE, E_OR, E_AND, E_NOT}
    ensures Print(e, prev) == PrintBare(e)
  {
    assert CompareType(prev, TypeOf(e)) <= 0;
  }

  /** Parentheses are printed around a chain after `!`, and around a disjunction in a conjunction, and nowhere
      else. */
  lemma ParenthesesExactlyWhen(e: Expr, prev: ExprType)
    requires prev in {E_NONE, E_OR, E_AND, E_NOT}
    ensures Print(e, prev) == if e.Bin? && (prev == E_NOT || (prev == E_AND && e.op == OR))
                              then [OPEN] + PrintBare(e) + [CLOSE] else PrintBare(e)
  {
  }

  /** There they are needed: without them `(a || b) && c` would be printed as `a || (b && c)` is ... */
  lemma DisjunctionNeedsParentheses(a: Expr, b: Expr, c: Expr)
    requires !IsOp(OR, b)
    ensures PrintBare(Bin(OR, a, b)) + [AMPERSANDS] + Print(c, E_AND) == Print(Bin(OR, a, Bin(AND, b, c)), E_NONE)
  {
    var x, y, z := Print(a, E_OR), Print(b, E_OR), Print(c, E_AND);
    ParenthesesExactlyWhen(b, E_OR);
    ParenthesesExactlyWhen(b, E_AND);
    ParenthesesExactlyWhen(Bin(AND, b, c), E_OR);
    ParenthesesExactlyWhen(Bin(OR, a, Bin(AND, b, c)), E_NONE);
    assert PrintBare(Bin(AND, b, c)) == y + [AMPERSANDS] + z;
    SameTokens(x, [BARS], y, [AMPERSANDS], z);
  }

  lemma SameTokens(x: seq<Token>, a: seq<Token>, y: seq<Token>, b: seq<Token>, z: seq<Token>)
    ensures (x + a + y) + b + z == x + a + (y + b + z)
  {
  }

  /** ... and `!(a && b)` as `!a && b` is. */
  lemma NegationNeedsParentheses(op: Op, a: Expr, b: Expr)
    requires !a.Bin?
    ensures [BANG] + PrintBare(Bin(op, a, b)) == Print(Bin(op, Not(a), b), E_NONE)
  {
    ParenthesesExactlyWhen(a, E_NOT);
    ParenthesesExactlyWhen(a, OpType(op));
    ParenthesesExactlyWhen(Not(a), OpType(op));
    ParenthesesExactlyWhen(Bin(op, Not(a), b), E_NONE);
    var x, y := PrintBare(a), Print(b, OpType(op));
    assert PrintBare(Not(a)) == [BANG] + x;
    assert [BANG] + (x + [OpToken(op)] + y) == ([BANG] + x) + [OpToken(op)] + y;
  }

  lemma {:induction false} ReadUnary(d: Decls, e: Expr, prev: ExprType, rest: seq<Token>)
    requires Readable(d, e) && PrintsUnary(e, prev) && EndsOperand(rest) && prev in {E_NONE, E_OR, E_AND, E_NOT}
    ensures ParseUnary(d, Print(e, prev) + rest) == Ok(LeftGrouped(e), rest)
    decreases e, if e.Bin? then 10 else 0
  {
    var ts := Print(e, prev) + rest;
    if !e.Bin? {
      OnlyChainsNeedParentheses(e, prev);
    }
    match e
    case Sym(s) => ReadWord(d, s, rest);
    case Equal(a, b) => ReadComparison(d, a, EQUALS, b, rest);
    case Unequal(a, b) => ReadComparison(d, a, DIFFERS, b, rest);
    case Not(x) =>
      ReadUnary(d, x, E_NOT, rest);
      ReadNegation(d, Print(x, E_NOT), LeftGrouped(x), rest);
    case Bin(op, l, r) =>
      ReadChain(d, e, [CLOSE] + rest);
      ReadParenthesised(d, e, LeftGrouped(e), rest);
      assert ts == [OPEN] + PrintBare(e) + [CLOSE] + rest;
  }

  lemma ReadWord(d: Decls, s: Symbol, rest: seq<Token>)
    requires ReadsBack(d, s) && EndsOperand(rest)
    ensures ParseUnary(d, [WORD(NameOf(s))] + rest) == Ok(Sym(s), rest)
  {
    var ts := [WORD(NameOf(s))] + rest;
    assert ts[1..] == rest;
  }

  lemma ReadComparison(d: Decls, a: Symbol, t: Token, b: Symbol, rest: seq<Token>)
    requires ReadsBack(d, a) && ReadsBack(d, b) && (t == EQUALS || t == DIFFERS)
    ensures ParseUnary(d, [WORD(NameOf(a)), t, WORD(NameOf(b))] + rest)
            == Ok(if t == EQUALS then Equal(a, b) else Unequal(a, b), rest)
  {
    var ts := [WORD(NameOf(a)), t, WORD(NameOf(b))] + rest;
    assert ts[0] == WORD(NameOf(a)) && ts[1] == t && ts[2] == WORD(NameOf(b)) && ts[3..] == rest;
  }

  lemma ReadNegation(d: Decls, operand: seq<Token>, x: Expr, rest: seq<Token>)
    requires ParseUnary(d, operand + rest) == Ok(x, rest)
    ensures ParseUnary(d, [BANG] + operand + rest) == Ok(Not(x), rest)
  {
    var ts := [BANG] + operand + rest;
    assert ts[1..] == operand + rest;
  }

  lemma ReadParenthesised(d: Decls, e: Expr, x: Expr, rest: seq<Token>)
    requires ParseChain(d, OR, PrintBare(e) + ([CLOSE] + rest)) == Ok(x, [CLOSE] + rest)
    ensures ParseUnary(d, [OPEN] + PrintBare(e) + [CLOSE] + rest) == Ok(x, rest)
  {
    var ts := [OPEN] + PrintBare(e) + [CLOSE] + rest;
    assert ts[1..] == PrintBare(e) + ([CLOSE] + rest);
    assert ([CLOSE] + rest)[1..] == rest;
  }

  /** An operand of `op`: a chain of a tighter connective, or something unary. */
  lemma {:induction false} ReadOperand(d: Decls, op: Op, e: Expr, rest: seq<Token>)
    requires Readable(d, e) && !IsOp(op, e)
    requires if op == OR then EndsChain(AND, rest) else EndsOperand(rest)
    ensures ParseOperand(d, op, Print(e, OpType(op)) + rest) == Ok(LeftGrouped(e), rest)
    decreases e, if op == OR then 6 else 11
  {
    if op == OR && IsOp(AND, e) {
      ParenthesesExactlyWhen(e, E_OR);
      ParenthesesExactlyWhen(e, E_AND);
      ReadStart(d, AND, e, rest);
    } else {
      ReadUnary(d, e, OpType(op), rest);
      if op == OR {
        UnaryIsOperand(d, Print(e, OpType(op)) + rest, LeftGrouped(e), rest);
      }
    }
  }

  /** Something unary is a conjunction of one. */
  lemma UnaryIsOperand(d: Decls, ts: seq<Token>, x: Expr, rest: seq<Token>)
    requires ParseUnary(d, ts) == Ok(x, rest) && EndsChain(AND, rest)
    ensures ParseOperand(d, OR, ts) == Ok(x, rest)
  {
    assert ParseOperand(d, AND, ts) == Ok(x, rest);
    assert ParseRest(d, AND, x, rest) == Ok(x, rest);
    assert ParseOperand(d, OR, ts) == ParseChain(d, AND, ts);
  }

  /** How a chain of `op` is spelled: its left operand, and the tail that begins with the token of `op`. */
  lemma ChainTokens(op: Op, e: Expr, rest: seq<Token>)
    requires IsOp(op, e)
    ensures Print(e, OpType(op)) + rest
            == Print(e.l, OpType(op)) + ([OpToken(op)] + (Print(e.r, OpType(op)) + rest))
  {
    assert Print(e, OpType(op)) == Print(e.l, OpType(op)) + [OpToken(op)] + Print(e.r, OpType(op));
    Regroup(Print(e.l, OpType(op)), [OpToken(op)], Print(e.r, OpType(op)), rest);
  }

  lemma Regroup(a: seq<Token>, b: seq<Token>, c: seq<Token>, rest: seq<Token>)
    ensures (a + b + c) + rest == a + (b + (c + rest))
  {
  }

  /** The tail of a chain: reading `op e` appends the operands of `e`. */
  lemma {:induction false} ReadTail(d: Decls, op: Op, acc: Expr, e: Expr, rest: seq<Token>)
    requires Readable(d, e)
    requires if op == OR then EndsChain(AND, rest) else EndsOperand(rest)
    ensures ParseRest(d, op, acc, [OpToken(op)] + (Print(e, OpType(op)) + rest))
            == ParseRest(d, op, Graft(op, acc, e), rest)
    decreases e, if IsOp(op, e) then 2 else if op == OR then 7 else 12
  {
    if IsOp(op, e) {
      var more := [OpToken(op)] + (Print(e.r, OpType(op)) + rest);
      ChainTokens(op, e, rest);
      ReadTail(d, op, acc, e.l, more);
      ReadTail(d, op, Graft(op, acc, e.l), e.r, rest);
    } else {
      ReadOperand(d, op, e, rest);
      ReadStep(d, op, acc, Print(e, OpType(op)) + rest, LeftGrouped(e), rest);
    }
  }

  lemma ReadStep(d: Decls, op: Op, acc: Expr, ts: seq<Token>, x: Expr, rest: seq<Token>)
    requires ParseOperand(d, op, ts) == Ok(x, rest)
    ensures ParseRest(d, op, acc, [OpToken(op)] + ts) == ParseRest(d, op, Bin(op, acc, x), rest)
  {
    assert ([OpToken(op)] + ts)[1..] == ts;
  }

  /** A chain from its first operand on. */
  lemma {:induction false} ReadStart(d: Decls, op: Op, e: Expr, rest: seq<Token>)
    requires Readable(d, e)
    requires if op == OR then EndsChain(AND, rest) else EndsOperand(rest)
    ensures ParseChain(d, op, Print(e, OpType(op)) + rest) == ParseRest(d, op, LeftGrouped(e), rest)
    decreases e, if IsOp(op, e) then 2 else if op == OR then 7 else 12
  {
    if IsOp(op, e) {
      var more := [OpToken(op)] + (Print(e.r, OpType(op)) + rest);
      ChainTokens(op, e, rest);
      ReadStart(d, op, e.l, more);
      ReadTail(d, op, LeftGrouped(e.l), e.r, rest);
    } else {
      ReadOperand(d, op, e, rest);
    }
  }

  lemma RestStops(d: Decls, op: Op, acc: Expr, rest: seq<Token>)
    requires rest == [] || rest[0] != OpToken(op)
    ensures ParseRest(d, op, acc, rest) == Ok(acc, rest)
  {
  }

  /** Under OR and at the top no parentheses are printed. */
  lemma PrintsBare(e: Expr)
    ensures Print(e, E_OR) == PrintBare(e) == Print(e, E_NONE)
  {
  }

  /** Anything printed without parentheses is a chain of OR, of AND inside it, and so on. */
  lemma {:induction false} ReadChain(d: Decls, e: Expr, rest: seq<Token>)
    requires Readable(d, e) && EndsChain(OR, rest)
    ensures ParseChain(d, OR, PrintBare(e) + rest) == Ok(LeftGrouped(e), rest)
    decreases e, 9
  {
    PrintsBare(e);
    ReadStart(d, OR, e, rest);
    RestStops(d, OR, LeftGrouped(e), rest);
  }

  /** Reading what was printed gives the expression back, grouped to the left, with every quoted constant
      read as the variable of that name. */
  lemma PrintThenParse(d: Decls, e: Expr)
    ensures Parse(d, Print(e, E_NONE)) == Some(LeftGrouped(Named(d, e)))
  {
    var n := Named(d, e);
    PrintsItsNames(d, e, E_NONE);
    NamedIsReadable(d, e);
    PrintsBare(n);
    assert PrintBare(n) + [] == PrintBare(n);
    ReadChain(d, n, []);
  }

  /** The expression itself is read back, up to grouping, if and only if each of its symbols is the one its
      name is read as: for a declared expression, if and only if it has no quoted constant. */
  lemma ReadBackExactlyWhen(d: Decls, e: Expr)
    ensures Parse(d, Print(e, E_NONE)) == Some(LeftGrouped(e)) <==> Readable(d, e)
    ensures Declared(d, e) ==> (Readable(d, e) <==> !HasQuoted(e))
  {
    PrintThenParse(d, e);
    NamedIsReadable(d, e);
    GroupingKeepsNames(d, e);
    GroupingKeepsNames(d, Named(d, e));
    if Declared(d, e) {
      ReadableExactlyWhen(d, e);
    }
  }

  // ----- grouping is all that is lost -----

  lemma {:induction false} PrintsTheSame(e: Expr)
    ensures TypeOf(LeftGrouped(e)) == TypeOf(e) && PrintBare(LeftGrouped(e)) == PrintBare(e)
    decreases e, 0
  {
    match e
    case Not(x) => PrintsTheSame(x);
    case Bin(op, l, r) =>
      PrintsTheSame(l);
      GraftPrints(op, LeftGrouped(l), r);
    case _ =>
  }

  lemma {:induction false} GraftPrints(op: Op, acc: Expr, e: Expr)
    ensures IsOp(op, Graft(op, acc, e))
    ensures PrintBare(Graft(op, acc, e)) == Print(acc, OpType(op)) + [OpToken(op)] + Print(e, OpType(op))
    decreases e, 1
  {
    if IsOp(op, e) {
      GraftPrints(op, acc, e.l);
      GraftPrints(op, Graft(op, acc, e.l), e.r);
    } else {
      PrintsTheSame(e);
    }
  }

  /** Two expressions print alike if and only if they have the same names and are the same up to grouping. */
  lemma PrintedAlikeExactlyWhen(d: Decls, a: Expr, b: Expr)
    ensures Print(a, E_NONE) == Print(b, E_NONE) <==> LeftGrouped(Named(d, a)) == LeftGrouped(Named(d, b))
  {
    PrintThenParse(d, a);
    PrintThenParse(d, b);
    PrintsItsNames(d, a, E_NONE);
    PrintsItsNames(d, b, E_NONE);
    PrintsTheSame(Named(d, a));
    PrintsTheSame(Named(d, b));
  }

  /** What is read back has the value of the expression its names stand for, in every environment; that is
      the expression itself if it is readable. */
  lemma PrintThenParseKeepsValue(d: Decls, e: Expr, env: Env)
    ensures Parse(d, Print(e, E_NONE)).Some?
    ensures Value(Parse(d, Print(e, E_NONE)).value, env) == Value(Named(d, e), env)
    ensures Readable(d, e) ==> Named(d, e) == e
  {
    PrintThenParse(d, e);
    LeftGroupedKeepsValue(Named(d, e), env);
    NamedIsReadable(d, e);
  }

  /** With a quoted constant it need not be: `FOO = "BAR"` prints like `FOO = BAR`, and reading it back turns
      `y` into `n` where the string FOO is "BAR" and the tristate BAR is not. */
  lemma QuotedConstantIsLost(d: Decls, env: Env)
    requires d("FOO") == STRING && d("BAR") == TRISTATE && env.str(Variable("FOO", STRING)) == "BAR"
    ensures var e := Equal(Variable("FOO", STRING), Quoted("BAR"));
            && Declared(d, e) && Value(e, env) == YES
            && Parse(d, Print(e, E_NONE)).Some? && Value(Parse(d, Print(e, E_NONE)).value, env) == NO
  {
    var e := Equal(Variable("FOO", STRING), Quoted("BAR"));
    assert |"FOO"| == |"BAR"| == 3 && |"y"| == |"m"| == |"n"| == 1;
    PrintThenParse(d, e);
    assert Named(d, e) == Equal(Variable("FOO", STRING), Variable("BAR", TRISTATE));
    assert |TristateName(env.tri(Variable("BAR", TRISTATE)))| == 1;
  }
}

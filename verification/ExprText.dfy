/** The characters expr_print writes (scripts/kconfig/expr.c), and the lexer that reads them
    (scripts/kconfig/zconf.l, state PARAM). */
module ExprTextModule {
  import opened Common
  import opened KconfigExpr
  import opened PrintParseModule

  /** `{n}|[-/.]`. */
  predicate IsWordChar(c: char) {
    'A' <= c <= 'Z' || 'a' <= c <= 'z' || '0' <= c <= '9' || c in "_-/."
  }

  /** A name the lexer returns as a T_WORD: not a keyword, and not three dashes, which it skips. */
  predicate IsWord(name: string) {
    name != "" && (forall c :: c in name ==> IsWordChar(c)) && name !in ["if", "on", "---"]
  }

  // ----- printing -----

  function TokenText(t: Token): string {
    match t
    case WORD(name) => name
    case EQUALS => "="
    case DIFFERS => "!="
    case BANG => "!"
    case AMPERSANDS => " && "
    case BARS => " || "
    case OPEN => "("
    case CLOSE => ")"
    case IF => "if"
    case ON => "on"
  }

  function Spell(ts: seq<Token>): string {
    if ts == [] then "" else TokenText(ts[0]) + Spell(ts[1..])
  }

  /** All that `expr_print(e, fn, data, E_NONE)` writes. */
  function Text(e: Expr): string {
    Spell(Print(e, E_NONE))
  }

  lemma {:induction false} SpellAppends(a: seq<Token>, b: seq<Token>)
    ensures Spell(a + b) == Spell(a) + Spell(b)
  {
    if a == [] {
      assert a + b == b;
    } else {
      SpellAppends(a[1..], b);
      assert (a + b)[1..] == a[1..] + b && (a + b)[0] == a[0];
      var t := TokenText(a[0]);
      assert Spell(a) == t + Spell(a[1..]) && Spell(a + b) == t + Spell((a + b)[1..]);
      SameString(t, Spell(a[1..]), Spell(b));
    }
  }

  lemma SameString(x: string, y: string, z: string)
    ensures x + (y + z) == (x + y) + z
  {
  }

  lemma SpellOne(t: Token)
    ensures Spell([t]) == TokenText(t)
  {
    assert [t][1..] == [];
  }

  lemma SpellThree(a: Token, b: Token, c: Token)
    ensures Spell([a, b, c]) == TokenText(a) + TokenText(b) + TokenText(c)
  {
    assert [a, b, c] == [a] + [b] + [c];
    SpellAppends([a] + [b], [c]);
    SpellAppends([a], [b]);
    SpellOne(a);
    SpellOne(b);
    SpellOne(c);
  }

  lemma SymbolText(s: Symbol)
    ensures Text(Sym(s)) == NameOf(s)
  {
    ParenthesesExactlyWhen(Sym(s), E_NONE);
    SpellOne(WORD(NameOf(s)));
  }

  lemma ComparisonText(a: Symbol, b: Symbol)
    ensures Text(Equal(a, b)) == NameOf(a) + "=" + NameOf(b)
    ensures Text(Unequal(a, b)) == NameOf(a) + "!=" + NameOf(b)
  {
    ParenthesesExactlyWhen(Equal(a, b), E_NONE);
    ParenthesesExactlyWhen(Unequal(a, b), E_NONE);
    SpellThree(WORD(NameOf(a)), EQUALS, WORD(NameOf(b)));
    SpellThree(WORD(NameOf(a)), DIFFERS, WORD(NameOf(b)));
  }

  lemma NegationText(x: Expr)
    ensures Text(Not(x)) == "!" + (if x.Bin? then "(" + Text(x) + ")" else Text(x))
  {
    ParenthesesExactlyWhen(Not(x), E_NONE);
    SpellAppends([BANG], Print(x, E_NOT));
    SpellOne(BANG);
    OperandText(x, E_NOT);
  }

  lemma ChainText(op: Op, l: Expr, r: Expr)
    ensures Text(Bin(op, l, r)) == Spell(Print(l, OpType(op))) + TokenText(OpToken(op)) + Spell(Print(r, OpType(op)))
  {
    ParenthesesExactlyWhen(Bin(op, l, r), E_NONE);
    SpellAppends(Print(l, OpType(op)) + [OpToken(op)], Print(r, OpType(op)));
    SpellAppends(Print(l, OpType(op)), [OpToken(op)]);
    SpellOne(OpToken(op));
  }

  /** The text as a whole: the connectives with a space on either side, the other operators with none, parentheses
      around a negated connective and around a disjunction in a conjunction. */
  lemma TextOf(e: Expr)
    ensures match e
            case Sym(s) => Text(e) == NameOf(s)
            case Equal(a, b) => Text(e) == NameOf(a) + "=" + NameOf(b)
            case Unequal(a, b) => Text(e) == NameOf(a) + "!=" + NameOf(b)
            case Not(x) => Text(e) == "!" + (if x.Bin? then "(" + Text(x) + ")" else Text(x))
            case Bin(OR, l, r) => Text(e) == Text(l) + " || " + Text(r)
            case Bin(AND, l, r) =>
              Text(e) == (if IsOp(OR, l) then "(" + Text(l) + ")" else Text(l)) + " && "
                         + (if IsOp(OR, r) then "(" + Text(r) + ")" else Text(r))
  {
    match e
    case Sym(s) => SymbolText(s);
    case Equal(a, b) => ComparisonText(a, b);
    case Unequal(a, b) => ComparisonText(a, b);
    case Not(x) => NegationText(x);
    case Bin(op, l, r) =>
      ChainText(op, l, r);
      OperandText(l, OpType(op));
      OperandText(r, OpType(op));
  }

  lemma OperandText(x: Expr, prev: ExprType)
    requires prev in {E_OR, E_AND, E_NOT}
    ensures Spell(Print(x, prev))
            == if x.Bin? && (prev == E_NOT || (prev == E_AND && x.op == OR)) then "(" + Text(x) + ")" else Text(x)
  {
    ParenthesesExactlyWhen(x, prev);
    ParenthesesExactlyWhen(x, E_NONE);
    SpellAppends([OPEN] + PrintBare(x), [CLOSE]);
    SpellAppends([OPEN], PrintBare(x));
    SpellOne(OPEN);
    SpellOne(CLOSE);
  }

  // ----- reading -----

  /** The longest run of word characters. */
  function WordLength(s: string): (n: nat)
    ensures n <= |s| && (n > 0 <==> s != "" && IsWordChar(s[0]))
    ensures forall i :: 0 <= i < n ==> IsWordChar(s[i])
  {
    if s == "" || !IsWordChar(s[0]) then 0 else 1 + WordLength(s[1..])
  }

  /** What a run of word characters is read as. */
  function WordTokens(w: string): seq<Token> {
    if w == "if" then [IF] else if w == "on" then [ON] else if w == "---" then [] else [WORD(w)]
  }

  function Prepend(ts: seq<Token>, r: Option<seq<Token>>): Option<seq<Token>> {
    if r.None? then None else Some(ts + r.value)
  }

  /** The tokens of a text; none at a quote, a comment, a backslash or the end of a line, where the lexer
      does something else. Other characters are skipped. */
  function Lex(s: string): Option<seq<Token>>
    decreases |s|
  {
    if s == "" then Some([])
    else if IsWordChar(s[0]) then Prepend(WordTokens(s[..WordLength(s)]), Lex(s[WordLength(s)..]))
    else if "&&" <= s then Prepend([AMPERSANDS], Lex(s[2..]))
    else if "||" <= s then Prepend([BARS], Lex(s[2..]))
    else if "!=" <= s then Prepend([DIFFERS], Lex(s[2..]))
    else if s[0] == '!' then Prepend([BANG], Lex(s[1..]))
    else if s[0] == '=' then Prepend([EQUALS], Lex(s[1..]))
    else if s[0] == '(' then Prepend([OPEN], Lex(s[1..]))
    else if s[0] == ')' then Prepend([CLOSE], Lex(s[1..]))
    else if s[0] in "\"\'#\\\n" then None
    else Lex(s[1..])
  }

  /** A character at which the lexer leaves the expression: a quote, a comment, a backslash or the end of a line. */
  predicate IsOutside(c: char) {
    c == '\"' || c == '\'' || c == '#' || c == '\\' || c == '\n'
  }

  predicate HasOutside(s: string) {
    exists i :: 0 <= i < |s| && IsOutside(s[i])
  }

  lemma OutsideOfBoth(a: string, b: string)
    ensures HasOutside(a + b) <==> HasOutside(a) || HasOutside(b)
  {
    if HasOutside(a) {
      var i :| 0 <= i < |a| && IsOutside(a[i]);
      assert IsOutside((a + b)[i]);
    }
    if HasOutside(b) {
      var i :| 0 <= i < |b| && IsOutside(b[i]);
      assert IsOutside((a + b)[|a| + i]);
    }
  }

  /** How many characters the first token takes, skipped ones included. */
  function Taken(s: string): (n: nat)
    requires s != ""
    ensures 0 < n <= |s|
  {
    if IsWordChar(s[0]) then WordLength(s)
    else if StartsWithPair(s) then 2 else 1
  }

  /** The lexer stays inside the expression exactly as long as it meets no such character. */
  lemma {:induction false} LexFailsExactlyWhen(s: string)
    ensures Lex(s) == None <==> HasOutside(s)
    decreases |s|
  {
    if s != "" {
      var n := Taken(s);
      assert s == s[..n] + s[n..];
      OutsideOfBoth(s[..n], s[n..]);
      LexFailsExactlyWhen(s[n..]);
      FirstTokenIsInside(s);
    }
  }

  /** The operators of two characters. */
  predicate StartsWithPair(s: string) {
    "&&" <= s || "||" <= s || "!=" <= s
  }

  lemma WordIsInside(s: string, n: nat)
    requires n <= |s| && forall i :: 0 <= i < n ==> IsWordChar(s[i])
    ensures !HasOutside(s[..n])
  {
  }

  lemma PairIsInside(s: string)
    requires StartsWithPair(s)
    ensures !IsWordChar(s[0]) && !IsOutside(s[0]) && !HasOutside(s[..2])
    ensures Lex(s) == None <==> Lex(s[2..]) == None
  {
    assert s[..2] == "&&" || s[..2] == "||" || s[..2] == "!=";
    assert s[0] == s[..2][0] && s[1] == s[..2][1];
  }

  lemma SingleCharacter(s: string)
    requires s != "" && !IsWordChar(s[0]) && !StartsWithPair(s)
    ensures HasOutside(s[..1]) <==> IsOutside(s[0])
    ensures Lex(s) == None <==> IsOutside(s[0]) || Lex(s[1..]) == None
  {
    assert s[..1] == [s[0]];
    assert s[0] in "\"\'#\\\n" <==> IsOutside(s[0]);
  }

  lemma FirstTokenIsInside(s: string)
    requires s != ""
    ensures HasOutside(s[..Taken(s)]) <==> IsOutside(s[0])
    ensures Lex(s) == None <==> IsOutside(s[0]) || Lex(s[Taken(s)..]) == None
  {
    if IsWordChar(s[0]) {
      WordIsInside(s, WordLength(s));
    } else if StartsWithPair(s) {
      PairIsInside(s);
    } else {
      SingleCharacter(s);
    }
  }

  // ----- every token is found again -----

  /** Tokens of an expression whose texts do not run together: words stand apart, and no `=` follows a `!`. */
  predicate StandApart(t: Token, rest: seq<Token>) {
    && t != IF && t != ON
    && (rest != [] ==> (t.WORD? ==> !rest[0].WORD?) && (t == BANG ==> rest[0] != EQUALS))
  }

  predicate AreSpaced(ts: seq<Token>) {
    ts != [] ==> StandApart(ts[0], ts[1..]) && AreSpaced(ts[1..])
  }

  predicate AreWords(ts: seq<Token>) {
    forall t :: t in ts && t.WORD? ==> IsWord(t.name)
  }

  lemma WordsOfBoth(a: seq<Token>, b: seq<Token>)
    ensures AreWords(a + b) <==> AreWords(a) && AreWords(b)
  {
    assert forall t :: t in a + b <==> t in a || t in b;
  }

  lemma {:induction false} WordEnds(w: string, s: string)
    requires (forall c :: c in w ==> IsWordChar(c)) && (s == "" || !IsWordChar(s[0]))
    ensures WordLength(w + s) == |w|
  {
    if w == "" {
      assert w + s == s;
    } else {
      assert w[0] in w && (w + s)[1..] == w[1..] + s;
      WordEnds(w[1..], s);
    }
  }

  lemma LexWord(w: string, s: string)
    requires IsWord(w) && (s == "" || !IsWordChar(s[0]))
    ensures Lex(w + s) == Prepend([WORD(w)], Lex(s))
  {
    WordEnds(w, s);
    assert w[0] in w;
    assert (w + s)[..|w|] == w && (w + s)[|w|..] == s;
  }

  lemma LexSpace(s: string)
    ensures Lex(" " + s) == Lex(s)
  {
    assert (" " + s)[1..] == s && (" " + s)[0] == ' ';
  }

  lemma LexConnective(op: Op, s: string)
    ensures Lex(TokenText(OpToken(op)) + s) == Prepend([OpToken(op)], Lex(s))
  {
    var symbol := if op == AND then "&&" else "||";
    var text := symbol + (" " + s);
    assert TokenText(OpToken(op)) + s == " " + text;
    LexSpace(text);
    LexSpace(s);
    assert text[0] == symbol[0] && text[2..] == " " + s && symbol <= text;
    assert text[..2] == symbol;
  }

  lemma LexDiffers(s: string)
    ensures Lex("!=" + s) == Prepend([DIFFERS], Lex(s))
  {
    var text := "!=" + s;
    assert text[0] == '!' && text[..2] == "!=" && text[2..] == s && "!=" <= text;
  }

  lemma LexBang(s: string)
    requires s == "" || s[0] != '='
    ensures Lex("!" + s) == Prepend([BANG], Lex(s))
  {
    var text := "!" + s;
    assert text[0] == '!' && text[1..] == s;
    assert s != "" ==> text[1] == s[0];
  }

  /** The operators of one character. */
  lemma LexOperator(t: Token, s: string)
    requires t in [EQUALS, OPEN, CLOSE]
    ensures Lex(TokenText(t) + s) == Prepend([t], Lex(s))
  {
    var text := TokenText(t) + s;
    assert text[0] == TokenText(t)[0] && text[1..] == s;
  }

  /** What a text begins with, by its first token. */
  lemma FirstChar(ts: seq<Token>)
    requires AreWords(ts) && AreSpaced(ts) && ts != []
    ensures Spell(ts) != ""
    ensures IsWordChar(Spell(ts)[0]) <==> ts[0].WORD?
    ensures Spell(ts)[0] == '=' <==> ts[0] == EQUALS
  {
    assert ts[0] in ts;
    if ts[0].WORD? {
      assert ts[0].name[0] in ts[0].name;
    }
  }

  lemma {:induction false} LexSpelled(ts: seq<Token>)
    requires AreSpaced(ts) && AreWords(ts)
    ensures Lex(Spell(ts)) == Some(ts)
  {
    if ts != [] {
      var t, s := ts[0], Spell(ts[1..]);
      LexSpelled(ts[1..]);
      assert ts == [t] + ts[1..] && t in ts;
      if ts[1..] != [] {
        FirstChar(ts[1..]);
      }
      match t
      case WORD(w) => LexWord(w, s);
      case AMPERSANDS => LexConnective(AND, s);
      case BARS => LexConnective(OR, s);
      case DIFFERS => LexDiffers(s);
      case BANG => LexBang(s);
      case _ => LexOperator(t, s);
    }
  }

  // ----- no other token is found -----

  /** Every name the lexer returns is a word. */
  lemma {:induction false} LexFindsWords(s: string)
    requires Lex(s).Some?
    ensures forall t :: t in Lex(s).value && t.WORD? ==> IsWord(t.name)
    decreases |s|
  {
    if s != "" {
      if IsWordChar(s[0]) {
        var w := s[..WordLength(s)];
        assert forall i :: 0 <= i < |w| ==> w[i] == s[i];
        LexFindsWords(s[WordLength(s)..]);
      } else if "&&" <= s || "||" <= s || "!=" <= s {
        LexFindsWords(s[2..]);
      } else {
        LexFindsWords(s[1..]);
      }
    }
  }

  // ----- printed expressions -----

  /** Every name in `e` is a word. */
  predicate HasWordsOnly(e: Expr) {
    match e
    case Sym(s) => IsWord(NameOf(s))
    case Equal(a, b) => IsWord(NameOf(a)) && IsWord(NameOf(b))
    case Unequal(a, b) => IsWord(NameOf(a)) && IsWord(NameOf(b))
    case Not(x) => HasWordsOnly(x)
    case Bin(_, l, r) => HasWordsOnly(l) && HasWordsOnly(r)
  }

  lemma {:induction false} BareWords(e: Expr)
    ensures AreWords(PrintBare(e)) <==> HasWordsOnly(e)
    decreases e, 0
  {
    match e
    case Sym(s) => assert PrintBare(e)[0] in PrintBare(e);
    case Equal(a, b) => assert PrintBare(e)[0] in PrintBare(e) && PrintBare(e)[2] in PrintBare(e);
    case Unequal(a, b) => assert PrintBare(e)[0] in PrintBare(e) && PrintBare(e)[2] in PrintBare(e);
    case Not(x) =>
      PrintedWords(x, E_NOT);
      WordsOfBoth([BANG], Print(x, E_NOT));
    case Bin(op, l, r) =>
      PrintedWords(l, OpType(op));
      PrintedWords(r, OpType(op));
      WordsOfBoth(Print(l, OpType(op)), [OpToken(op)]);
      WordsOfBoth(Print(l, OpType(op)) + [OpToken(op)], Print(r, OpType(op)));
  }

  lemma {:induction false} PrintedWords(e: Expr, prev: ExprType)
    ensures AreWords(Print(e, prev)) <==> HasWordsOnly(e)
    decreases e, 1
  {
    BareWords(e);
    WordsOfBoth([OPEN], PrintBare(e));
    WordsOfBoth([OPEN] + PrintBare(e), [CLOSE]);
  }

  /** A token that may follow an operand. */
  predicate Follows(t: Token) {
    t in [AMPERSANDS, BARS, CLOSE]
  }

  lemma SpacedCons(t: Token, rest: seq<Token>)
    requires StandApart(t, rest) && AreSpaced(rest)
    ensures AreSpaced([t] + rest)
  {
    assert ([t] + rest)[1..] == rest;
  }

  lemma SpacedComparison(a: Token, t: Token, b: Token, rest: seq<Token>)
    requires a.WORD? && (t == EQUALS || t == DIFFERS) && b.WORD?
    requires AreSpaced(rest) && (rest != [] ==> Follows(rest[0]))
    ensures AreSpaced([a, t, b] + rest)
  {
    SpacedCons(b, rest);
    SpacedCons(t, [b] + rest);
    SpacedCons(a, [t] + ([b] + rest));
    assert [a, t, b] + rest == [a] + ([t] + ([b] + rest));
  }

  lemma SpacedNegation(ts: seq<Token>, rest: seq<Token>)
    requires AreSpaced(ts + rest) && ts != [] && ts[0] != EQUALS
    ensures AreSpaced([BANG] + ts + rest)
  {
    SpacedCons(BANG, ts + rest);
    assert [BANG] + ts + rest == [BANG] + (ts + rest);
  }

  lemma SpacedParentheses(ts: seq<Token>, rest: seq<Token>)
    requires AreSpaced(ts + ([CLOSE] + rest))
    ensures AreSpaced([OPEN] + ts + [CLOSE] + rest)
  {
    SpacedCons(OPEN, ts + ([CLOSE] + rest));
    assert [OPEN] + ts + [CLOSE] + rest == [OPEN] + (ts + ([CLOSE] + rest));
  }

  lemma {:induction false} BareIsSpaced(e: Expr, rest: seq<Token>)
    requires AreSpaced(rest) && (rest != [] ==> Follows(rest[0]))
    ensures AreSpaced(PrintBare(e) + rest) && PrintBare(e) != [] && PrintBare(e)[0] != EQUALS
    decreases e, 0
  {
    match e
    case Sym(s) => SpacedCons(WORD(NameOf(s)), rest);
    case Equal(a, b) => SpacedComparison(WORD(NameOf(a)), EQUALS, WORD(NameOf(b)), rest);
    case Unequal(a, b) => SpacedComparison(WORD(NameOf(a)), DIFFERS, WORD(NameOf(b)), rest);
    case Not(x) =>
      PrintIsSpaced(x, E_NOT, rest);
      SpacedNegation(Print(x, E_NOT), rest);
    case Bin(op, l, r) =>
      PrintIsSpaced(r, OpType(op), rest);
      SpacedCons(OpToken(op), Print(r, OpType(op)) + rest);
      PrintIsSpaced(l, OpType(op), [OpToken(op)] + (Print(r, OpType(op)) + rest));
      Regroup(Print(l, OpType(op)), [OpToken(op)], Print(r, OpType(op)), rest);
  }

  lemma {:induction false} PrintIsSpaced(e: Expr, prev: ExprType, rest: seq<Token>)
    requires AreSpaced(rest) && (rest != [] ==> Follows(rest[0]))
    ensures AreSpaced(Print(e, prev) + rest) && Print(e, prev) != [] && Print(e, prev)[0] != EQUALS
    decreases e, 1
  {
    if CompareType(prev, TypeOf(e)) > 0 {
      SpacedCons(CLOSE, rest);
      BareIsSpaced(e, [CLOSE] + rest);
      SpacedParentheses(PrintBare(e), rest);
    } else {
      BareIsSpaced(e, rest);
    }
  }

  /** The lexer finds the printed tokens again if and only if every name is a word. */
  lemma TextIsReadExactlyWhen(e: Expr)
    ensures Lex(Text(e)) == Some(Print(e, E_NONE)) <==> HasWordsOnly(e)
  {
    var ts := Print(e, E_NONE);
    PrintedWords(e, E_NONE);
    PrintIsSpaced(e, E_NONE, []);
    assert ts + [] == ts;
    if HasWordsOnly(e) {
      LexSpelled(ts);
    } else if Lex(Text(e)) == Some(ts) {
      LexFindsWords(Text(e));
    }
  }

  /** `expr` as the lexer and the grammar read it. */
  function Read(d: Decls, text: string): Option<Expr> {
    var ts := Lex(text);
    if ts.None? then None else Parse(d, ts.value)
  }

  // ----- what can be read at all -----

  /** What is read has word names only, and each symbol is the one its name is read as. */
  ghost predicate IsSound(d: Decls, r: Parsed) {
    r.Ok? ==> HasWordsOnly(r.e) && Readable(d, r.e) && AreWords(r.rest)
  }

  lemma WordsOfTail(ts: seq<Token>, k: nat)
    requires AreWords(ts) && k <= |ts|
    ensures AreWords(ts[k..]) && forall i :: 0 <= i < |ts| && ts[i].WORD? ==> IsWord(ts[i].name)
  {
    assert forall t :: t in ts[k..] ==> t in ts;
    assert forall i :: 0 <= i < |ts| ==> ts[i] in ts;
  }

  lemma WordIsRead(d: Decls, w: string)
    requires IsWord(w)
    ensures ReadsBack(d, Lookup(d, w)) && NameOf(Lookup(d, w)) == w
  {
  }

  lemma UnaryIsSound(d: Decls, ts: seq<Token>)
    requires AreWords(ts)
    ensures IsSound(d, ParseUnary(d, ts))
    decreases |ts|, 0
  {
    if ts != [] {
      WordsOfTail(ts, 1);
      match ts[0]
      case BANG => UnaryIsSound(d, ts[1..]);
      case OPEN =>
        ChainIsSound(d, OR, ts[1..]);
        var r := ParseChain(d, OR, ts[1..]);
        if r.Ok? && r.rest != [] {
          WordsOfTail(r.rest, 1);
        }
      case WORD(w) => WordsAreSound(d, ts);
      case _ =>
    }
  }

  lemma WordsAreSound(d: Decls, ts: seq<Token>)
    requires AreWords(ts) && ts != [] && ts[0].WORD?
    ensures IsSound(d, ParseUnary(d, ts))
  {
    WordsOfTail(ts, 1);
    WordIsRead(d, ts[0].name);
    if |ts| > 2 && ts[2].WORD? {
      WordsOfTail(ts, 3);
      WordIsRead(d, ts[2].name);
    }
  }

  lemma OperandIsSound(d: Decls, op: Op, ts: seq<Token>)
    requires AreWords(ts)
    ensures IsSound(d, ParseOperand(d, op, ts))
    decreases |ts|, if op == OR then 3 else 1
  {
    if op == OR {
      ChainIsSound(d, AND, ts);
    } else {
      UnaryIsSound(d, ts);
    }
  }

  lemma ChainIsSound(d: Decls, op: Op, ts: seq<Token>)
    requires AreWords(ts)
    ensures IsSound(d, ParseChain(d, op, ts))
    decreases |ts|, if op == OR then 4 else 2
  {
    OperandIsSound(d, op, ts);
    var r := ParseOperand(d, op, ts);
    if r.Ok? {
      RestIsSound(d, op, r.e, r.rest);
    }
  }

  lemma RestIsSound(d: Decls, op: Op, acc: Expr, ts: seq<Token>)
    requires AreWords(ts) && HasWordsOnly(acc) && Readable(d, acc)
    ensures IsSound(d, ParseRest(d, op, acc, ts))
    decreases |ts|, 0
  {
    if ts != [] && ts[0] == OpToken(op) {
      WordsOfTail(ts, 1);
      OperandIsSound(d, op, ts[1..]);
      var r := ParseOperand(d, op, ts[1..]);
      if r.Ok? {
        RestIsSound(d, op, Bin(op, acc, r.e), r.rest);
      }
    }
  }

  lemma {:induction false} GroupingKeepsWords(e: Expr)
    ensures HasWordsOnly(LeftGrouped(e)) <==> HasWordsOnly(e)
    decreases e, 0
  {
    match e
    case Not(x) => GroupingKeepsWords(x);
    case Bin(op, l, r) =>
      GroupingKeepsWords(l);
      GraftKeepsWords(op, LeftGrouped(l), r);
    case _ =>
  }

  lemma {:induction false} GraftKeepsWords(op: Op, acc: Expr, e: Expr)
    ensures HasWordsOnly(Graft(op, acc, e)) <==> HasWordsOnly(acc) && HasWordsOnly(e)
    decreases e, 1
  {
    if IsOp(op, e) {
      GraftKeepsWords(op, acc, e.l);
      GraftKeepsWords(op, Graft(op, acc, e.l), e.r);
    } else {
      GroupingKeepsWords(e);
    }
  }

  lemma ReadIsSound(d: Decls, text: string)
    ensures Read(d, text).Some? ==> HasWordsOnly(Read(d, text).value) && Readable(d, Read(d, text).value)
  {
    if Lex(text).Some? {
      LexFindsWords(text);
      ChainIsSound(d, OR, Lex(text).value);
    }
  }

  /** Character for character: an expression is read back from what is printed, grouped to the left, if and
      only if its names are words and each symbol is the one its name is read as. */
  lemma TextReadsBackExactlyWhen(d: Decls, e: Expr)
    ensures Read(d, Text(e)) == Some(LeftGrouped(e)) <==> HasWordsOnly(e) && Readable(d, e)
  {
    if HasWordsOnly(e) && Readable(d, e) {
      TextIsReadExactlyWhen(e);
      ReadBackExactlyWhen(d, e);
    } else if Read(d, Text(e)) == Some(LeftGrouped(e)) {
      ReadIsSound(d, Text(e));
      GroupingKeepsWords(e);
      GroupingKeepsNames(d, e);
    }
  }

  /** Then it also has its value, in every environment. */
  lemma TextKeepsValue(d: Decls, e: Expr, env: Env)
    requires Declared(d, e) && !HasQuoted(e) && HasWordsOnly(e)
    ensures Read(d, Text(e)).Some? && Value(Read(d, Text(e)).value, env) == Value(e, env)
  {
    ReadableExactlyWhen(d, e);
    TextReadsBackExactlyWhen(d, e);
    LeftGroupedKeepsValue(e, env);
  }
}

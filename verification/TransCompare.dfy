/** Pushing a comparison down to the symbols: expr_trans_compare (scripts/kconfig/expr.c). */
module TransCompareModule {
  import opened Common
  import opened KconfigExpr
  import opened TransformModule

  /** The comparison asked for: E_EQUAL or E_UNEQUAL. */
  datatype Comparison = IS | ISNOT

  function Flip(cmp: Comparison): Comparison {
    if cmp == IS then ISNOT else IS
  }

  function Negated(cmp: Comparison, e: Expr): Expr {
    if cmp == ISNOT then Not(e) else e
  }

  /** `expr_trans_compare(e, cmp, sym)` for one of the three static symbols.  With `m` the rewritten
      operands of a connective are dropped and the connective itself is returned, as in the source. */
  function TransCompare(e: Expr, cmp: Comparison, sym: Symbol): Expr
    requires IsStatic(sym)
  {
    match e
    case Bin(op, l, r) =>
      var a, b := TransCompare(l, IS, sym), TransCompare(r, IS, sym);
      Negated(cmp, match sym case SymYes => Bin(op, a, b) case SymNo => Bin(DualOp(op), a, b) case _ => e)
    case Not(x) => TransCompare(x, Flip(cmp), sym)
    case Sym(s) => if cmp == IS then Equal(s, sym) else Unequal(s, sym)
    case _ => CompareComparison(e, cmp, sym)
  }

  /** A comparison is never `m`, so testing it for `y` or `n` is the comparison itself or its negation. */
  function CompareComparison(e: Expr, cmp: Comparison, sym: Symbol): Expr
    requires IsStatic(sym)
  {
    match sym
    case SymYes => Negated(cmp, e)
    case SymNo => Negated(Flip(cmp), e)
    case SymMod => if cmp == IS then EXPR_NO else EXPR_YES
  }

  /** A missing expression stands for `y`. */
  function TransCompareOptional(e: Option<Expr>, cmp: Comparison, sym: Symbol): Expr
    requires IsStatic(sym)
  {
    if e.Some? then TransCompare(e.value, cmp, sym) else Negated(cmp, Sym(sym))
  }

  /** `v cmp sym` as a truth value. */
  function Truth(v: Tristate, cmp: Comparison, sym: Symbol, env: Env): Tristate {
    if (v == TristateOf(sym, env)) == (cmp == IS) then YES else NO
  }

  /** The value of `e` when a bare symbol counts as the constant if its string is the constant's, and as the
      opposite constant otherwise. */
  function RoundedValue(e: Expr, sym: Symbol, env: Env): Tristate {
    match e
    case Sym(s) => Rounded(s, sym, env)
    case Not(x) => Negate(RoundedValue(x, sym, env))
    case Bin(op, l, r) => Apply(op, RoundedValue(l, sym, env), RoundedValue(r, sym, env))
    case _ => Value(e, env)
  }

  function Rounded(s: Symbol, sym: Symbol, env: Env): Tristate {
    if StringOf(s, env) == StringOf(sym, env) then TristateOf(sym, env) else Negate(TristateOf(sym, env))
  }

  lemma {:induction false} RoundedIsTwoValued(e: Expr, sym: Symbol, env: Env)
    requires sym == SymYes || sym == SymNo
    ensures RoundedValue(e, sym, env) != MOD
  {
    match e
    case Not(x) => RoundedIsTwoValued(x, sym, env);
    case Bin(_, l, r) =>
      RoundedIsTwoValued(l, sym, env);
      RoundedIsTwoValued(r, sym, env);
    case _ =>
  }

  /** What the result means, for every expression in every environment: the comparison of the rounded value. */
  lemma {:induction false} TransCompareMeaning(e: Expr, cmp: Comparison, sym: Symbol, env: Env)
    requires sym == SymYes || sym == SymNo
    ensures Value(TransCompare(e, cmp, sym), env) == Truth(RoundedValue(e, sym, env), cmp, sym, env)
  {
    match e
    case Not(x) =>
      TransCompareMeaning(x, Flip(cmp), sym, env);
      RoundedIsTwoValued(x, sym, env);
    case Bin(_, l, r) =>
      TransCompareMeaning(l, IS, sym, env);
      TransCompareMeaning(r, IS, sym, env);
      RoundedIsTwoValued(l, sym, env);
      RoundedIsTwoValued(r, sym, env);
    case _ =>
  }

  /** The rewritten comparison says the same as the comparison in `env`. */
  ghost predicate ComparesExactly(e: Expr, cmp: Comparison, sym: Symbol, env: Env)
    requires IsStatic(sym)
  {
    Value(TransCompare(e, cmp, sym), env) == Truth(Value(e, env), cmp, sym, env)
  }

  /** expr_trans_compare is exact if and only if rounding does not change whether `e` is the constant. */
  lemma TransCompareIsExactWhen(e: Expr, cmp: Comparison, sym: Symbol, env: Env)
    requires sym == SymYes || sym == SymNo
    ensures ComparesExactly(e, cmp, sym, env)
            <==> (RoundedValue(e, sym, env) == TristateOf(sym, env) <==> Value(e, env) == TristateOf(sym, env))
  {
    TransCompareMeaning(e, cmp, sym, env);
  }

  /** What is compared: the bare symbols and the left sides of comparisons, from left to right. */
  function Subjects(e: Expr): seq<Symbol> {
    match e
    case Sym(s) => [s]
    case Equal(a, _) => [a]
    case Unequal(a, _) => [a]
    case Not(x) => Subjects(x)
    case Bin(_, l, r) => Subjects(l) + Subjects(r)
  }

  /** Pushing the comparison down asks about the same symbols in the same order. */
  lemma {:induction false} SubjectsStay(e: Expr, cmp: Comparison, sym: Symbol)
    requires sym == SymYes || sym == SymNo
    ensures Subjects(TransCompare(e, cmp, sym)) == Subjects(e)
  {
    match e
    case Not(x) => SubjectsStay(x, Flip(cmp), sym);
    case Bin(_, l, r) =>
      SubjectsStay(l, IS, sym);
      SubjectsStay(r, IS, sym);
    case _ =>
  }

  // ----- which symbols fail -----

  /** The string of `s` is the constant's exactly if its value is. */
  predicate ComparesAsValue(s: Symbol, sym: Symbol, env: Env) {
    StringOf(s, env) == StringOf(sym, env) <==> TristateOf(s, env) == TristateOf(sym, env)
  }

  /** What sym_calc_value gives: a symbol that is neither boolean nor tristate is `n`, and an undeclared one
      has its name as its string. */
  ghost predicate IsCalculated(env: Env) {
    && (forall name, t :: t != BOOLEAN && t != TRISTATE ==> env.tri(Variable(name, t)) == NO)
    && (forall name :: env.str(Variable(name, UNKNOWN)) == name)
  }

  /** A bare symbol is compared exactly if and only if comparing strings agrees with comparing values:
      always for y, m, n and for boolean and tristate variables; for any other symbol, asked for `n`, only if
      its string is "n", and asked for `y`, unless its string is "y". */
  lemma SymbolIsExactWhen(s: Symbol, cmp: Comparison, sym: Symbol, env: Env)
    requires (sym == SymYes || sym == SymNo) && IsCalculated(env)
    ensures ComparesExactly(Sym(s), cmp, sym, env) <==> ComparesAsValue(s, sym, env)
    ensures ComparesAsValue(s, sym, env)
            <==> (IsStatic(s) || s.Type() == BOOLEAN || s.Type() == TRISTATE
                  || ((StringOf(s, env) == StringOf(sym, env)) == (sym == SymNo)))
  {
    if IsStatic(s) || s.Type() == BOOLEAN || s.Type() == TRISTATE {
      StaticsCompare(s, sym, env);
    }
  }

  /** Asked whether it differs from `n`, an undeclared symbol is said to do so although it is `n`, whatever
      its name (the name "n" is that of the constant). */
  lemma UndeclaredIsTakenForSet(name: string, env: Env)
    requires IsCalculated(env) && name != "n"
    ensures Value(Sym(Variable(name, UNKNOWN)), env) == NO
    ensures Value(TransCompare(Sym(Variable(name, UNKNOWN)), ISNOT, SymNo), env) == YES
    ensures !ComparesExactly(Sym(Variable(name, UNKNOWN)), ISNOT, SymNo, env)
  {
    assert Variable(name, UNKNOWN).Type() == UNKNOWN;
  }

  /** Every bare symbol of `e` is compared as its value would be. */
  ghost predicate SymbolsCompareAsValues(e: Expr, sym: Symbol, env: Env) {
    match e
    case Sym(s) => ComparesAsValue(s, sym, env)
    case Not(x) => SymbolsCompareAsValues(x, sym, env)
    case Bin(_, l, r) => SymbolsCompareAsValues(l, sym, env) && SymbolsCompareAsValues(r, sym, env)
    case _ => true
  }

  /** Bare symbols are boolean or tristate variables, or y, m, n. */
  predicate TristatesOnly(e: Expr) {
    match e
    case Sym(s) => IsStatic(s) || s.Type() == BOOLEAN || s.Type() == TRISTATE
    case Not(x) => TristatesOnly(x)
    case Bin(_, l, r) => TristatesOnly(l) && TristatesOnly(r)
    case _ => true
  }

  lemma StaticsCompare(a: Symbol, b: Symbol, env: Env)
    requires (IsStatic(a) || a.Type() == BOOLEAN || a.Type() == TRISTATE) && IsStatic(b)
    ensures ComparesAsValue(a, b, env)
  {
    TristateNamesDiffer(TristateOf(a, env), TristateOf(b, env));
    TristateNamesDiffer(YES, YES);
  }

  lemma {:induction false} TristatesCompareAsValues(e: Expr, sym: Symbol, env: Env)
    requires IsStatic(sym) && TristatesOnly(e)
    ensures SymbolsCompareAsValues(e, sym, env)
  {
    match e
    case Sym(s) => StaticsCompare(s, sym, env);
    case Not(x) => TristatesCompareAsValues(x, sym, env);
    case Bin(_, l, r) =>
      TristatesCompareAsValues(l, sym, env);
      TristatesCompareAsValues(r, sym, env);
    case _ =>
  }

  // ----- expressions whose symbols compare as their values -----

  /** Then rounding changes nothing but an `m`. */
  lemma {:induction false} RoundingKeepsDefinite(e: Expr, sym: Symbol, env: Env)
    requires (sym == SymYes || sym == SymNo) && SymbolsCompareAsValues(e, sym, env) && Value(e, env) != MOD
    ensures RoundedValue(e, sym, env) == Value(e, env)
  {
    match e
    case Not(x) => RoundingKeepsDefinite(x, sym, env);
    case Bin(_, l, r) =>
      if Value(l, env) != MOD {
        RoundingKeepsDefinite(l, sym, env);
      }
      if Value(r, env) != MOD {
        RoundingKeepsDefinite(r, sym, env);
      }
    case _ =>
  }

  /** `e` is `m`, but its rounded value is the constant it is compared with. */
  ghost predicate IsMisjudged(e: Expr, sym: Symbol, env: Env) {
    Value(e, env) == MOD && RoundedValue(e, sym, env) == TristateOf(sym, env)
  }

  /** Then expr_trans_compare is exact if and only if `e` is not an `m` that rounds to the constant. */
  lemma ExactUnlessMisjudged(e: Expr, cmp: Comparison, sym: Symbol, env: Env)
    requires (sym == SymYes || sym == SymNo) && SymbolsCompareAsValues(e, sym, env)
    ensures ComparesExactly(e, cmp, sym, env) <==> !IsMisjudged(e, sym, env)
  {
    TransCompareIsExactWhen(e, cmp, sym, env);
    if Value(e, env) != MOD {
      RoundingKeepsDefinite(e, sym, env);
    }
  }

  /** So it is exact for every expression over boolean and tristate variables that is `y` or `n`. */
  lemma ExactOnDefiniteTristates(e: Expr, cmp: Comparison, sym: Symbol, env: Env)
    requires (sym == SymYes || sym == SymNo) && TristatesOnly(e) && Value(e, env) != MOD
    ensures ComparesExactly(e, cmp, sym, env)
  {
    TristatesCompareAsValues(e, sym, env);
    ExactUnlessMisjudged(e, cmp, sym, env);
  }

  /** No negated part of `e` is `m`. */
  ghost predicate NoNegatedMod(e: Expr, env: Env) {
    match e
    case Not(x) => Value(x, env) != MOD && NoNegatedMod(x, env)
    case Bin(_, l, r) => NoNegatedMod(l, env) && NoNegatedMod(r, env)
    case _ => true
  }

  /** Only a negation can turn the rounding against the constant. */
  lemma {:induction false} OnlyNegationMisjudges(e: Expr, sym: Symbol, env: Env)
    requires (sym == SymYes || sym == SymNo) && SymbolsCompareAsValues(e, sym, env) && NoNegatedMod(e, env)
    ensures !IsMisjudged(e, sym, env)
  {
    match e
    case Not(x) => RoundingKeepsDefinite(x, sym, env);
    case Bin(_, l, r) =>
      OnlyNegationMisjudges(l, sym, env);
      OnlyNegationMisjudges(r, sym, env);
      RoundedIsTwoValued(l, sym, env);
      RoundedIsTwoValued(r, sym, env);
      if Value(l, env) != MOD {
        RoundingKeepsDefinite(l, sym, env);
      }
      if Value(r, env) != MOD {
        RoundingKeepsDefinite(r, sym, env);
      }
    case _ =>
  }

  /** Then it is exact wherever no negated part is `m`, in particular for every expression without
      negations. */
  lemma ExactWithoutNegatedMod(e: Expr, cmp: Comparison, sym: Symbol, env: Env)
    requires (sym == SymYes || sym == SymNo) && SymbolsCompareAsValues(e, sym, env) && NoNegatedMod(e, env)
    ensures ComparesExactly(e, cmp, sym, env)
  {
    OnlyNegationMisjudges(e, sym, env);
    ExactUnlessMisjudged(e, cmp, sym, env);
  }

  /** A negation fails exactly when its operand is an `m` that rounds away from the constant; without
      further negations that is whenever the operand is `m`. */
  lemma NegationIsExactWhen(x: Expr, cmp: Comparison, sym: Symbol, env: Env)
    requires (sym == SymYes || sym == SymNo) && SymbolsCompareAsValues(x, sym, env)
    ensures ComparesExactly(Not(x), cmp, sym, env)
            <==> !(Value(x, env) == MOD && RoundedValue(x, sym, env) != TristateOf(sym, env))
    ensures NoNegatedMod(x, env) ==> (ComparesExactly(Not(x), cmp, sym, env) <==> Value(x, env) != MOD)
  {
    ExactUnlessMisjudged(Not(x), cmp, sym, env);
    RoundedIsTwoValued(x, sym, env);
    if NoNegatedMod(x, env) {
      OnlyNegationMisjudges(x, sym, env);
    }
  }

  /** The same with a missing expression, which is always compared exactly. */
  lemma TransCompareOptionalIsExactWhen(e: Option<Expr>, cmp: Comparison, sym: Symbol, env: Env)
    requires sym == SymYes || sym == SymNo
    ensures Value(TransCompareOptional(e, cmp, sym), env)
            == Truth(if e.Some? then Value(e.value, env) else YES, cmp, sym, env)
            <==> (e.Some? ==> (RoundedValue(e.value, sym, env) == TristateOf(sym, env)
                               <==> Value(e.value, env) == TristateOf(sym, env)))
  {
    if e.Some? {
      TransCompareIsExactWhen(e.value, cmp, sym, env);
    }
  }

  // ----- asked for m -----

  /** What is left when the negations around `e` are taken off, and whether their number is odd. */
  function Stripped(e: Expr): (Expr, bool) {
    if e.Not? then var (x, odd) := Stripped(e.e); (x, !odd) else (e, false)
  }

  lemma {:induction false} StrippedMeaning(e: Expr, cmp: Comparison, sym: Symbol, env: Env)
    requires IsStatic(sym)
    ensures var (x, odd) := Stripped(e);
            && !x.Not? && TransCompare(e, cmp, sym) == TransCompare(x, if odd then Flip(cmp) else cmp, sym)
            && Value(e, env) == if odd then Negate(Value(x, env)) else Value(x, env)
  {
    if e.Not? {
      StrippedMeaning(e.e, Flip(cmp), sym, env);
    }
  }

  /** Asked for `m`, a negation should not flip the question, but does, and a connective should be rewritten,
      but is not: a connective is compared exactly only where the whole is `n`, anything else if and only if
      the negations around it are even in number (odd for a symbol that is not compared as its value). */
  lemma TransCompareModIsExactWhen(e: Expr, cmp: Comparison, env: Env)
    ensures ComparesExactly(e, cmp, SymMod, env)
            <==> if Stripped(e).0.Bin? then Value(e, env) == NO
                 else Stripped(e).1 != SymbolsCompareAsValues(Stripped(e).0, SymMod, env)
  {
    StrippedMeaning(e, cmp, SymMod, env);
  }
}

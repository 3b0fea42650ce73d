/** The question menu_finalize puts to the expression engine before it nests an entry below its
    predecessor (scripts/kconfig/menu.c): does the entry's condition imply the parent's? */
module MenuNestingModule {
  import opened Common
  import opened KconfigExpr
  import opened ExprEqModule
  import opened ExprEqCompleteModule
  import opened ImplicationModule
  import opened TransformModule
  import opened EliminateDupsModule
  import opened SlotsModule
  import opened DupsSettledModule
  import opened DupsFormsModule
  import opened TransCompareModule
  import opened DupsLimitModule

  /** `expr_eliminate_dups(expr_transform(expr_trans_compare(e, E_UNEQUAL, &symbol_no)))`. */
  function Condition(e: Option<Expr>): Expr {
    EliminateDups(Transform(TransCompareOptional(e, ISNOT, SymNo)))
  }

  /** `expr_is_yes(dep2)` after `expr_eliminate_eq(&dep, &dep2)`. */
  predicate Implies(dep: Option<Expr>, base: Option<Expr>) {
    EliminateEq(Condition(dep), Condition(base)).1 == EXPR_YES
  }

  function ValueOptional(e: Option<Expr>, env: Env): Tristate {
    if e.Some? then Value(e.value, env) else YES
  }

  /** What the condition asks: whether the rounded value is not `n`. */
  ghost predicate SeemsVisible(e: Option<Expr>, env: Env) {
    e.Some? ==> RoundedValue(e.value, SymNo, env) != NO
  }

  ghost predicate IsVisible(e: Option<Expr>, env: Env) {
    ValueOptional(e, env) != NO
  }

  /** Visible, but rounded to `n`. */
  ghost predicate IsOverlooked(e: Option<Expr>, env: Env) {
    e.Some? && Value(e.value, env) != NO && RoundedValue(e.value, SymNo, env) == NO
  }

  /** Not visible, but not rounded to `n`. */
  ghost predicate IsImagined(e: Option<Expr>, env: Env) {
    e.Some? && Value(e.value, env) == NO && RoundedValue(e.value, SymNo, env) != NO
  }

  /** What the condition means, for every expression in every environment: duplicate elimination is exact
      here, because a pushed-down comparison is never `m`. */
  lemma ConditionMeaning(e: Option<Expr>, env: Env)
    requires BooleansNeverMod(env)
    ensures Value(Condition(e), env) == if SeemsVisible(e, env) then YES else NO
  {
    var c := TransCompareOptional(e, ISNOT, SymNo);
    if e.Some? {
      TransCompareMeaning(e.value, ISNOT, SymNo, env);
    }
    TransformKeepsValue(c, env);
    EliminateDupsKeeps(Transform(c), env);
  }

  /** The condition is `y` exactly where the expression is not `n`, if and only if the expression is neither
      overlooked nor imagined. */
  lemma ConditionIsVisibilityExactlyWhen(e: Option<Expr>, env: Env)
    requires BooleansNeverMod(env)
    ensures Value(Condition(e), env) == (if IsVisible(e, env) then YES else NO)
            <==> !IsOverlooked(e, env) && !IsImagined(e, env)
  {
    ConditionMeaning(e, env);
  }

  /** The conditions that are compared are free of duplicates: every chain in them is settled, and what
      expr_eliminate_dups leaves is normal. */
  lemma ConditionIsSettled(e: Option<Expr>)
    ensures EliminateDups(Condition(e)) == Condition(e) && IsNormal(Condition(e))
    ensures forall c :: HasChain(Condition(e), c) ==> IsSettled(c)
  {
    var t := Transform(TransCompareOptional(e, ISNOT, SymNo));
    EliminateDupsIsSettled(t);
    TransformIsNormal(TransCompareOptional(e, ISNOT, SymNo));
    EliminateDupsIsNormal(t);
  }

  /** Where bare symbols compare as their values, nothing is imagined, and only an `m` is overlooked, in
      which a negated part is `m`. */
  lemma OnlyNegatedModIsOverlooked(e: Expr, env: Env)
    requires SymbolsCompareAsValues(e, SymNo, env)
    ensures !IsImagined(Some(e), env)
    ensures IsOverlooked(Some(e), env) <==> IsMisjudged(e, SymNo, env)
    ensures IsOverlooked(Some(e), env) ==> !NoNegatedMod(e, env)
  {
    if Value(e, env) != MOD {
      RoundingKeepsDefinite(e, SymNo, env);
    }
    if NoNegatedMod(e, env) {
      OnlyNegationMisjudges(e, SymNo, env);
    }
  }

  /** If the test succeeds, the parent seems visible wherever the entry does.  So it is visible wherever the
      entry is, unless the entry is overlooked or the parent imagined there. */
  lemma NestingIsSound(dep: Option<Expr>, base: Option<Expr>, env: Env)
    requires Implies(dep, base) && BooleansNeverMod(env)
    ensures SeemsVisible(dep, env) ==> SeemsVisible(base, env)
    ensures IsVisible(dep, env) && !IsOverlooked(dep, env) && !IsImagined(base, env) ==> IsVisible(base, env)
  {
    ConditionMeaning(dep, env);
    ConditionMeaning(base, env);
    EliminateEqProvesImplication(Condition(dep), Condition(base));
    assert Value(Condition(dep), env) <= Value(Condition(base), env);
  }

  /** For conditions over boolean and tristate variables that leaves one exception: an entry that is `m` and
      rounds to `n`. */
  lemma NestingIsSoundOnTristates(dep: Expr, base: Expr, env: Env)
    requires Implies(Some(dep), Some(base)) && BooleansNeverMod(env)
    requires TristatesOnly(dep) && TristatesOnly(base)
    ensures Value(dep, env) != NO && !IsMisjudged(dep, SymNo, env) ==> Value(base, env) != NO
  {
    NestingIsSound(Some(dep), Some(base), env);
    TristatesCompareAsValues(dep, SymNo, env);
    TristatesCompareAsValues(base, SymNo, env);
    OnlyNegatedModIsOverlooked(dep, env);
    OnlyNegatedModIsOverlooked(base, env);
  }

  /** Which implications are found, if both conditions are folded: the parent's condition is `y`, or the entry's is
      a conjunction in which each conjunct of the parent's is found. */
  lemma ImpliesExactlyWhen(dep: Option<Expr>, base: Option<Expr>)
    requires Folded(Condition(dep)) && Folded(Condition(base))
    ensures var d, b := Condition(dep), Condition(base);
            Implies(dep, base)
            <==> b == EXPR_YES || (!IsYesOrNo(b) && IsOp(AND, d) && AreCancelledBy(Parts(AND, b), Parts(AND, d)))
  {
    EliminateEqFindsExactly(Condition(dep), Condition(base));
  }

  /** So a condition that is a single comparison is not found to imply itself. */
  lemma SameConditionIsMissed(v: Symbol)
    requires v.Type() == TRISTATE
    ensures !Implies(Some(Sym(v)), Some(Sym(v)))
  {
    assert v.Variable? && Condition(Some(Sym(v))) == Unequal(v, SymNo);
    ImpliesExactlyWhen(Some(Sym(v)), Some(Sym(v)));
  }

  // ----- both exceptions are needed -----

  /** `!a && b` and `a = n` for two tristate variables. */
  function NotAAndB(): Expr {
    Bin(AND, Not(Sym(Variable("a", TRISTATE))), Sym(Variable("b", TRISTATE)))
  }

  function AIsNo(): Expr {
    Equal(Variable("a", TRISTATE), SymNo)
  }

  /** Two comparisons of different symbols with `n` are not joined. */
  lemma TwoComparisonsStay(l: Expr, r: Expr)
    requires (l.Equal? || l.Unequal?) && r.Unequal? && l.right == r.right == SymNo
    requires l.left != r.left && r.left != SymNo
    ensures EliminateDups(Bin(AND, l, r)) == Bin(AND, l, r)
  {
    QuietTwo(AND, l, r);
    Dups2OnFlat(AND, Bin(AND, l, r), [], []);
  }

  lemma ConditionOfTwo(e: Expr, x: Expr, l: Expr, b: Symbol)
    requires TransCompare(e, ISNOT, SymNo) == Not(Bin(OR, x, Equal(b, SymNo)))
    requires Transform(Not(Transform(x))) == l
    requires (l.Equal? || l.Unequal?) && l.right == SymNo && l.left != b && b != SymNo && b.Type() != BOOLEAN
    ensures Condition(Some(e)) == Bin(AND, l, Unequal(b, SymNo))
  {
    var t, y, r := Transform(x), Equal(b, SymNo), Unequal(b, SymNo);
    assert Transform(y) == y && Transform(Not(y)) == r;
    assert Transform(Bin(OR, x, y)) == Bin(OR, t, y);
    assert Transform(Not(Bin(OR, x, y))) == Transform(Bin(AND, Not(t), Not(y))) == Bin(AND, l, r);
    TwoComparisonsStay(l, r);
  }

  lemma ConditionOfNotAAndB()
    ensures Condition(Some(NotAAndB())) == Bin(AND, AIsNo(), Unequal(Variable("b", TRISTATE), SymNo))
  {
    var a, b := Variable("a", TRISTATE), Variable("b", TRISTATE);
    assert "a"[0] != "b"[0];
    assert Transform(Not(Unequal(a, SymNo))) == AIsNo();
    ConditionOfTwo(NotAAndB(), Unequal(a, SymNo), AIsNo(), b);
  }

  lemma ConditionOfComparison(a: Symbol)
    requires a.Type() == TRISTATE
    ensures Condition(Some(Equal(a, SymNo))) == Equal(a, SymNo)
  {
    assert TransCompare(Equal(a, SymNo), ISNOT, SymNo) == Equal(a, SymNo);
  }

  /** A conjunct is cancelled from a conjunction. */
  lemma ConjunctIsImplied(l: Expr, b: Symbol)
    requires l.Equal? || l.Unequal?
    ensures EliminateEq(Bin(AND, l, Unequal(b, SymNo)), l).1 == EXPR_YES
  {
    var r := Unequal(b, SymNo);
    assert CancelPairs(AND, l, l) == (EXPR_YES, EXPR_YES);
    assert CancelPairs(AND, r, EXPR_YES) == (r, EXPR_YES);
    assert CancelPairs(AND, Bin(AND, l, r), l) == (Bin(AND, EXPR_YES, r), EXPR_YES);
  }

  /** An entry may be overlooked: the test accepts `!a && b` as implying `a = n` ... */
  lemma AcceptsNotAAndB()
    ensures Implies(Some(NotAAndB()), Some(AIsNo()))
  {
    var a, b := Variable("a", TRISTATE), Variable("b", TRISTATE);
    ConditionOfNotAAndB();
    ConditionOfComparison(a);
    var dep, base := Condition(Some(NotAAndB())), Condition(Some(AIsNo()));
    ConjunctIsImplied(AIsNo(), b);
    assert EliminateEq(dep, base).1 == EXPR_YES;
  }

  /** ... but with `a` at `m` and `b` not at `n` the first is visible and the second is not. */
  lemma NotAAndBIsNoImplication(env: Env)
    requires env.tri(Variable("a", TRISTATE)) == MOD && env.tri(Variable("b", TRISTATE)) != NO
    ensures Value(NotAAndB(), env) != NO && Value(AIsNo(), env) == NO
    ensures IsOverlooked(Some(NotAAndB()), env)
  {
    NegatedMod(Variable("a", TRISTATE), Variable("b", TRISTATE), env);
    StaticsCompare(Variable("a", TRISTATE), SymNo, env);
  }

  lemma NegatedMod(a: Symbol, b: Symbol, env: Env)
    requires TristateOf(a, env) == MOD && TristateOf(b, env) != NO && ComparesAsValue(a, SymNo, env)
    ensures Value(Bin(AND, Not(Sym(a)), Sym(b)), env) == MOD
    ensures RoundedValue(Bin(AND, Not(Sym(a)), Sym(b)), SymNo, env) == NO
  {
    var x, y := Sym(a), Sym(b);
    assert Value(x, env) == MOD && Value(y, env) != NO;
    assert Value(Not(x), env) == Negate(Value(x, env));
    assert RoundedValue(x, SymNo, env) == YES;
    assert RoundedValue(Not(x), SymNo, env) == Negate(RoundedValue(x, SymNo, env));
  }

  /** `FOO != n && b` for an undeclared FOO and a tristate variable. */
  function FooIsSetAndB(): Expr {
    Bin(AND, Unequal(Foo(), SymNo), Sym(Variable("b", TRISTATE)))
  }

  function Foo(): Symbol {
    Variable("FOO", UNKNOWN)
  }

  /** A parent may be imagined: the test accepts `FOO != n && b` as implying `FOO` ... */
  lemma AcceptsUndeclared()
    ensures Implies(Some(FooIsSetAndB()), Some(Sym(Foo())))
  {
    var l, b := Unequal(Foo(), SymNo), Variable("b", TRISTATE);
    assert Transform(Not(Not(l))) == l;
    ConditionOfTwo(FooIsSetAndB(), Not(l), l, b);
    assert Condition(Some(Sym(Foo()))) == l;
    ConjunctIsImplied(l, b);
  }

  /** ... but FOO, being undeclared, is `n`, and its string is not "n": with `b` at `y` the first is visible
      and the second is not, although no symbol is `m`. */
  lemma UndeclaredIsNoImplication(env: Env)
    requires IsCalculated(env) && env.tri(Variable("b", TRISTATE)) == YES
    ensures Value(FooIsSetAndB(), env) == YES && Value(Sym(Foo()), env) == NO
    ensures !IsOverlooked(Some(FooIsSetAndB()), env) && IsImagined(Some(Sym(Foo())), env)
  {
    var l, b := Unequal(Foo(), SymNo), Sym(Variable("b", TRISTATE));
    assert Foo().Type() == UNKNOWN && |StringOf(Foo(), env)| == 3;
    StaticsCompare(b.s, SymNo, env);
    assert Value(l, env) == YES && Value(b, env) == YES;
    assert RoundedValue(l, SymNo, env) == YES && RoundedValue(b, SymNo, env) == YES;
  }

  // ----- the two quick tests before it -----

  /** `expr_depends_symbol`. */
  predicate DependsOnSymbol(e: Expr, v: Symbol) {
    match e
    case Bin(op, l, r) => op == AND && (DependsOnSymbol(l, v) || DependsOnSymbol(r, v))
    case Sym(s) => s == v
    case Equal(a, b) => a == v && (b == SymYes || b == SymMod)
    case Unequal(a, b) => a == v && b == SymNo
    case Not(_) => false
  }

  /** One of the four ways to ask for a symbol that is not `n`. */
  predicate Requires(e: Expr, v: Symbol) {
    e in [Sym(v), Equal(v, SymYes), Equal(v, SymMod), Unequal(v, SymNo)]
  }

  /** `expr_depends_symbol` finds exactly that, among the operands of the conjunction. */
  lemma {:induction false} DependsExactlyWhen(e: Expr, v: Symbol)
    ensures DependsOnSymbol(e, v) <==> exists p :: IsOperand(AND, e, p) && Requires(At(AND, e, p), v)
  {
    if IsOp(AND, e) {
      DependsExactlyWhen(e.l, v);
      DependsExactlyWhen(e.r, v);
      if p :| IsOperand(AND, e, p) && Requires(At(AND, e, p), v) {
        assert IsOperand(AND, Child(e, p[0]), p[1..]) && Requires(At(AND, Child(e, p[0]), p[1..]), v);
      }
      if DependsOnSymbol(e.l, v) {
        var p :| IsOperand(AND, e.l, p) && Requires(At(AND, e.l, p), v);
        OperandBelow(e, false, p);
      } else if DependsOnSymbol(e.r, v) {
        var p :| IsOperand(AND, e.r, p) && Requires(At(AND, e.r, p), v);
        OperandBelow(e, true, p);
      }
    } else {
      assert IsOperand(AND, e, []) && At(AND, e, []) == e;
    }
  }

  lemma OperandBelow(e: Expr, right: bool, p: Path)
    requires IsOp(AND, e) && IsOperand(AND, Child(e, right), p)
    ensures IsOperand(AND, e, [right] + p) && At(AND, e, [right] + p) == At(AND, Child(e, right), p)
  {
    assert ([right] + p)[1..] == p;
  }

  ghost predicate AgreeExceptOn(e1: Env, e2: Env, v: Symbol) {
    forall s :: s != v ==> TristateOf(s, e1) == TristateOf(s, e2) && StringOf(s, e1) == StringOf(s, e2)
  }

  /** An expression that does not contain a symbol has a value that does not depend on it. */
  lemma {:induction false} NotContainedIsIrrelevant(e: Expr, v: Symbol, env1: Env, env2: Env)
    requires !ContainsSymbol(e, v) && AgreeExceptOn(env1, env2, v)
    ensures Value(e, env1) == Value(e, env2)
  {
    match e
    case Bin(_, l, r) =>
      NotContainedIsIrrelevant(l, v, env1, env2);
      NotContainedIsIrrelevant(r, v, env1, env2);
    case Not(x) => NotContainedIsIrrelevant(x, v, env1, env2);
    case _ =>
  }

  /** The shortcut past the test is sound: such an entry is visible only where the symbol is not `n`, in value
      or, if it is neither boolean nor tristate, in its string. */
  lemma {:induction false} DependenceIsSound(e: Expr, v: Symbol, env: Env)
    requires DependsOnSymbol(e, v)
    ensures ContainsSymbol(e, v)
    ensures Value(e, env) != NO ==> TristateOf(v, env) != NO || StringOf(v, env) != "n"
    ensures Value(e, env) != NO && (v.Type() == BOOLEAN || v.Type() == TRISTATE) ==> TristateOf(v, env) != NO
  {
    match e
    case Bin(_, l, r) =>
      if DependsOnSymbol(l, v) {
        DependenceIsSound(l, v, env);
      } else {
        DependenceIsSound(r, v, env);
      }
    case Equal(a, b) => SetAsString(v, b, env);
    case Unequal(a, b) => SetAsString(v, b, env);
    case _ =>
  }

  /** How the string of a symbol compares with y, m and n. */
  lemma SetAsString(v: Symbol, c: Symbol, env: Env)
    requires IsStatic(c)
    ensures v.Type() == BOOLEAN || v.Type() == TRISTATE ==> ComparesAsValue(v, c, env)
    ensures StringOf(c, env) == "n" <==> c == SymNo
  {
    if v.Type() == BOOLEAN || v.Type() == TRISTATE {
      StaticsCompare(v, c, env);
    }
    ConstantStringsDiffer(c, SymNo, env);
  }
}

/** Which operands expr_join_and and expr_join_or find (scripts/kconfig/expr.c), rule by rule and exactly. */
module JoinRulesModule {
  import opened Common
  import opened KconfigExpr
  import opened ExprEqModule
  import opened TransformModule
  import opened JoinsModule

  /** The two operands are joined into `x`, in whatever order. */
  predicate JoinsTo(op: Op, a: Expr, b: Expr, x: Expr) {
    Join(op, a, b) == Some(x) && Join(op, b, a) == Some(x)
  }

  /** The third of `y`, `m` and `n`. */
  function Third(c: Symbol, d: Symbol): Symbol
    requires IsStatic(c) && IsStatic(d) && c != d
  {
    if c != SymYes && d != SymYes then SymYes else if c != SymMod && d != SymMod then SymMod else SymNo
  }

  /** A boolean or tristate symbol beside a comparison of it, and a boolean beside its negation. */
  lemma SymbolJoins(v: Symbol)
    requires v.Type() == BOOLEAN || v.Type() == TRISTATE
    ensures JoinsTo(AND, Sym(v), Equal(v, SymYes), Equal(v, SymYes))
    ensures JoinsTo(AND, Sym(v), Unequal(v, SymNo), Sym(v))
    ensures JoinsTo(AND, Sym(v), Unequal(v, SymMod), Equal(v, SymYes))
    ensures v.Type() == BOOLEAN ==> JoinsTo(OR, Not(Sym(v)), Sym(v), EXPR_YES)
  {
    assert v.Variable?;
  }

  /** Two comparisons of a tristate symbol with different ones of `y`, `m`, `n` become the one that says the same. */
  lemma ComparisonsJoin(v: Symbol, c: Symbol, d: Symbol)
    requires v.Type() == TRISTATE && IsStatic(c) && IsStatic(d) && c != d
    ensures JoinsTo(OR, Equal(v, c), Equal(v, d), Unequal(v, Third(c, d)))
    ensures JoinsTo(AND, Unequal(v, c), Unequal(v, d), Equal(v, Third(c, d)))
  {
    assert v.Variable?;
  }

  /** `v = c && v != d` for any two constants, quoted ones included. */
  lemma ConstantsJoin(v: Symbol, c: Symbol, d: Symbol)
    requires v.Type() == TRISTATE && c.IsConst() && d.IsConst()
    ensures JoinsTo(AND, Equal(v, c), Unequal(v, d), if c == d then EXPR_NO else Equal(v, c))
  {
    assert v.Variable?;
  }

  // ----- exactly -----

  /** The symbol itself, or a comparison of it with `y`, `m` or `n`. */
  predicate IsTest(e: Expr, v: Symbol) {
    e == Sym(v) || ((e.Equal? || e.Unequal?) && e.left == v && IsStatic(e.right))
  }

  /** `x` has the value of both operands together, in every environment. */
  ghost predicate IsBoth(op: Op, a: Expr, b: Expr, x: Expr) {
    forall env :: BooleansNeverMod(env) ==> Value(x, env) == Apply(op, Value(a, env), Value(b, env))
  }

  /** Some single test of `v` says the same as the two together. */
  ghost predicate OneTestSuffices(op: Op, a: Expr, b: Expr, v: Symbol) {
    exists x :: IsTest(x, v) && IsBoth(op, a, b, x)
  }

  /** `v = c` and `v != c`, in some order. */
  predicate AreOpposites(a: Expr, b: Expr) {
    (a.Equal? && b == Unequal(a.left, a.right)) || (b.Equal? && a == Unequal(b.left, b.right))
  }

  /** An environment in which every tristate symbol has the value `t`. */
  function EnvAt(t: Tristate): Env {
    Env((s: Symbol) => if s.Type() == BOOLEAN then NO else t, (s: Symbol) => "")
  }

  /** The value of a test where its symbol has the value `t`. */
  function TestAt(x: Expr, t: Tristate): Tristate {
    match x
    case Sym(_) => t
    case Equal(_, c) => if t == TristateOf(c, EnvAt(t)) then YES else NO
    case Unequal(_, c) => if t == TristateOf(c, EnvAt(t)) then NO else YES
    case _ => NO
  }

  lemma TestValue(x: Expr, v: Symbol, t: Tristate)
    requires v.Type() == TRISTATE && IsTest(x, v)
    ensures BooleansNeverMod(EnvAt(t)) && Value(x, EnvAt(t)) == TestAt(x, t)
  {
    assert v.Variable?;
    if !x.Sym? {
      ComparesByValue(v, x.right, EnvAt(t));
    }
  }

  /** Two tests that no rule for conjunctions covers. */
  predicate AreApart(a: Expr, b: Expr) {
    || (a.Sym? && b.Equal? && b.right != SymYes)
    || (a.Sym? && b.Unequal? && b.right == SymYes)
    || (a.Equal? && b.Equal? && a.right != b.right)
  }

  /** The value of `x` is that of both at `t`. */
  predicate AgreesAt(a: Expr, b: Expr, x: Expr, t: Tristate) {
    Value(x, EnvAt(t)) == Apply(AND, Value(a, EnvAt(t)), Value(b, EnvAt(t)))
  }

  lemma AgreementAt(v: Symbol, a: Expr, b: Expr, x: Expr, t: Tristate)
    requires v.Type() == TRISTATE && IsTest(a, v) && IsTest(b, v) && IsTest(x, v)
    ensures AgreesAt(a, b, x, t) <==> TestAt(x, t) == Apply(AND, TestAt(a, t), TestAt(b, t))
    ensures BooleansNeverMod(EnvAt(t))
  {
    TestValue(a, v, t);
    TestValue(b, v, t);
    TestValue(x, v, t);
  }

  /** No single test has their value. */
  lemma NoTestIsBoth(v: Symbol, a: Expr, b: Expr, x: Expr)
    requires v.Type() == TRISTATE && IsTest(a, v) && IsTest(b, v) && IsTest(x, v) && AreApart(a, b)
    ensures !IsBoth(AND, a, b, x) && !IsBoth(AND, b, a, x)
  {
    AgreementAt(v, a, b, x, YES);
    AgreementAt(v, a, b, x, MOD);
    AgreementAt(v, a, b, x, NO);
    var t: Tristate := if !AgreesAt(a, b, x, YES) then YES else if !AgreesAt(a, b, x, MOD) then MOD else NO;
    assert !AgreesAt(a, b, x, t);
    assert BooleansNeverMod(EnvAt(t));
  }

  lemma ApartStayApart(v: Symbol, a: Expr, b: Expr)
    requires v.Type() == TRISTATE && IsTest(a, v) && IsTest(b, v) && AreApart(a, b)
    ensures Join(AND, a, b) == None && Join(AND, b, a) == None
  {
    assert v.Variable?;
  }

  /** Two tests that are not apart are joined, into another test or, if they are opposites, into `n`. */
  lemma OthersJoin(v: Symbol, a: Expr, b: Expr)
    requires v.Type() == TRISTATE && IsTest(a, v) && IsTest(b, v) && !AreApart(a, b) && !AreApart(b, a)
    ensures Join(AND, a, b).Some?
    ensures AreOpposites(a, b) || IsTest(Join(AND, a, b).value, v)
  {
    if a == b {
      assert ExprEq(a, b);
    } else if a.Sym? || b.Sym? {
      SymbolJoins(v);
    } else if a.Unequal? && b.Unequal? {
      ComparisonsJoin(v, a.right, b.right);
    } else if a.Equal? {
      ConstantsJoin(v, a.right, b.right);
    } else {
      ConstantsJoin(v, b.right, a.right);
    }
  }

  /** Under a conjunction two tests of a tristate symbol are joined if and only if a single test says the same,
      or they are opposites, which give `n`. */
  lemma AndJoinsExactlyWhen(v: Symbol, a: Expr, b: Expr)
    requires v.Type() == TRISTATE && IsTest(a, v) && IsTest(b, v)
    ensures Join(AND, a, b).Some? <==> OneTestSuffices(AND, a, b, v) || AreOpposites(a, b)
  {
    if AreApart(a, b) || AreApart(b, a) {
      ApartStayApart(v, if AreApart(a, b) then a else b, if AreApart(a, b) then b else a);
      forall x | IsTest(x, v) ensures !IsBoth(AND, a, b, x) {
        NoTestIsBoth(v, if AreApart(a, b) then a else b, if AreApart(a, b) then b else a, x);
      }
    } else {
      OthersJoin(v, a, b);
      var x := Join(AND, a, b).value;
      forall env | BooleansNeverMod(env) ensures Value(x, env) == Apply(AND, Value(a, env), Value(b, env)) {
        JoinAndKeepsValue(a, b, env);
      }
      assert IsBoth(AND, a, b, x);
    }
  }

  /** So `v && v = n` stays, although it is `n` everywhere. */
  lemma AndMissesContradiction(v: Symbol, env: Env)
    requires v.Type() == TRISTATE
    ensures Join(AND, Sym(v), Equal(v, SymNo)) == None && Join(AND, Equal(v, SymNo), Sym(v)) == None
    ensures Value(Bin(AND, Sym(v), Equal(v, SymNo)), env) == NO
  {
    ApartStayApart(v, Sym(v), Equal(v, SymNo));
    ComparesByValue(v, SymNo, env);
    assert Value(Equal(v, SymNo), env) == NO || Value(Sym(v), env) == NO;
  }

  /** Under a disjunction only two equal tests or two equations are joined. */
  lemma OrJoinsExactlyWhen(v: Symbol, a: Expr, b: Expr)
    requires v.Type() == TRISTATE && IsTest(a, v) && IsTest(b, v)
    ensures Join(OR, a, b).Some? <==> a == b || (a.Equal? && b.Equal?)
  {
    assert v.Variable?;
    if a.Equal? && b.Equal? && a != b {
      ComparisonsJoin(v, a.right, b.right);
    }
  }

  /** So `v || v = y` stays, although `v` alone has its value. */
  lemma OrMissesSymbol(v: Symbol)
    requires v.Type() == TRISTATE
    ensures Join(OR, Sym(v), Equal(v, SymYes)) == None && IsBoth(OR, Sym(v), Equal(v, SymYes), Sym(v))
  {
    OrJoinsExactlyWhen(v, Sym(v), Equal(v, SymYes));
    forall env ensures Value(Sym(v), env) == Apply(OR, Value(Sym(v), env), Value(Equal(v, SymYes), env)) {
      ComparesByValue(v, SymYes, env);
    }
  }

  // ----- pairs that are always joined -----

  /** Whether one operand replaces both, in whatever order they stand. */
  predicate Overlap(op: Op, a: Expr, b: Expr) {
    Covers(op, a, b) || Covers(op, b, a)
  }

  predicate Covers(op: Op, a: Expr, b: Expr) {
    if op == OR then
      || (a.Equal? && b.Equal? && SameTristate(a.left, b.left) && IsStatic(a.right) && IsStatic(b.right))
      || (b.Sym? && b.s.Type() == BOOLEAN && a == Not(b))
    else
      || (a.Unequal? && b.Unequal? && SameTristate(a.left, b.left) && IsStatic(a.right) && IsStatic(b.right))
      || (a.Equal? && b.Unequal? && SameTristate(a.left, b.left) && a.right.IsConst() && b.right.IsConst())
      || (a.Sym? && (a.s.Type() == BOOLEAN || a.s.Type() == TRISTATE)
          && b in [Equal(a.s, SymYes), Unequal(a.s, SymNo), Unequal(a.s, SymMod)])
  }

  predicate SameTristate(s: Symbol, t: Symbol) {
    s == t && s.Type() == TRISTATE
  }

  lemma OverlapJoins(op: Op, a: Expr, b: Expr)
    requires Covers(op, a, b)
    ensures Join(op, a, b).Some? && Join(op, b, a).Some?
  {
    if a == b {
      assert ExprEq(a, b);
    } else if a.Sym? {
      SymbolJoins(a.s);
    } else if b.Sym? {
      SymbolJoins(b.s);
    } else if a.Equal? == b.Equal? {
      ComparisonsJoin(a.left, a.right, b.right);
    } else {
      ConstantsJoin(a.left, a.right, b.right);
    }
  }

  /** Exactly these pairs are joined, besides operands that are found equal. */
  lemma JoinExactlyWhen(op: Op, a: Expr, b: Expr)
    ensures Join(op, a, b).Some? <==> ExprEq(a, b) || Overlap(op, a, b)
    ensures ExprEq(a, b) ==> Join(op, a, b) == Some(a)
  {
    if Covers(op, a, b) {
      OverlapJoins(op, a, b);
    } else if Covers(op, b, a) {
      OverlapJoins(op, b, a);
    } else if !ExprEq(a, b) {
      OnlyCovered(op, a, b);
    }
  }

  lemma OnlyCovered(op: Op, a: Expr, b: Expr)
    requires !Overlap(op, a, b) && !ExprEq(a, b)
    ensures Join(op, a, b) == None
  {
    if op == AND {
      assert JoinAnd(a, b) == None;
    } else {
      assert JoinOr(a, b) == None;
    }
  }
}

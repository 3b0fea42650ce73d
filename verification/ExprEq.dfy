/** Structural equality by common-factor cancellation: expr_eq, __expr_eliminate_eq and
    expr_eliminate_eq (scripts/kconfig/expr.c).  The three are mutually recursive; the two
    operands are always separate trees, so each step returns both rewritten trees. */
module ExprEqModule {
  import opened KconfigExpr
  import opened EliminateYnModule

  /** `__expr_eliminate_eq(op, &a, &b)`: cancel every pair of equal operands of `op`. */
  function CancelPairs(op: Op, a: Expr, b: Expr): (r: (Expr, Expr))
    ensures Size(r.0) <= Size(a) && Size(r.1) <= Size(b)
    decreases Size(a) + Size(b), if IsOp(op, a) || IsOp(op, b) then 0 else 2
  {
    if IsOp(op, a) then
      var (l, b1) := CancelPairs(op, a.l, b);
      var (r, b2) := CancelPairs(op, a.r, b1);
      (Bin(op, l, r), b2)
    else if IsOp(op, b) then
      var (a1, l) := CancelPairs(op, a, b.l);
      var (a2, r) := CancelPairs(op, a1, b.r);
      (a2, Bin(op, l, r))
    else if a.Sym? && b.Sym? && a.s == b.s && a.s.HasYesOrNoFlag() then (a, b)
    else if !ExprEq(a, b) then (a, b)
    else (Identity(op), Identity(op))
  }

  /** `a->type == b->type`. */
  predicate SameType(a: Expr, b: Expr) {
    match a
    case Sym(_) => b.Sym?
    case Equal(_, _) => b.Equal?
    case Unequal(_, _) => b.Unequal?
    case Not(_) => b.Not?
    case Bin(op, _, _) => IsOp(op, b)
  }

  /** `expr_eliminate_eq(&a, &b)`: one pass per connective at the two roots, then folding. */
  function EliminateEq(a: Expr, b: Expr): (Expr, Expr)
    decreases Size(a) + Size(b), if a.Bin? && SameType(a, b) then 1 else 3, 0
  {
    var (a1, b1) := if a.Bin? then CancelPairs(a.op, a, b) else (a, b);
    var (a2, b2) := if !SameType(a1, b1) && b1.Bin? then CancelPairs(b1.op, a1, b1) else (a1, b1);
    (EliminateYn(a2), EliminateYn(b2))
  }

  /** `expr_eq(a, b)`: the connectives work on copies, so nothing else changes. */
  predicate ExprEq(a: Expr, b: Expr)
    decreases Size(a) + Size(b), 1, 1
  {
    SameType(a, b) &&
    match a
    case Equal(_, _) => a == b
    case Unequal(_, _) => a == b
    case Sym(_) => a == b
    case Not(x) => ExprEq(x, b.e)
    case Bin(_, _, _) =>
      var (x, y) := EliminateEq(a, b);
      x.Sym? && y.Sym? && x.s == y.s
  }

  /** What was cancelled: one common value `c` accounts for both operands. */
  lemma {:induction false} CancelPairsFactors(op: Op, a: Expr, b: Expr, env: Env) returns (c: Tristate)
    ensures var (x, y) := CancelPairs(op, a, b);
            Value(a, env) == Apply(op, Value(x, env), c) && Value(b, env) == Apply(op, Value(y, env), c)
    decreases Size(a) + Size(b), if IsOp(op, a) || IsOp(op, b) then 0 else 2
  {
    if IsOp(op, a) {
      var (l, b1) := CancelPairs(op, a.l, b);
      var (r, b2) := CancelPairs(op, a.r, b1);
      assert CancelPairs(op, a, b) == (Bin(op, l, r), b2);
      var c1 := CancelPairsFactors(op, a.l, b, env);
      var c2 := CancelPairsFactors(op, a.r, b1, env);
      c := Apply(op, c1, c2);
      ApplyRegroups(op, Value(l, env), c1, Value(r, env), c2, Value(b2, env));
    } else if IsOp(op, b) {
      var (a1, l) := CancelPairs(op, a, b.l);
      var (a2, r) := CancelPairs(op, a1, b.r);
      assert CancelPairs(op, a, b) == (a2, Bin(op, l, r));
      var c1 := CancelPairsFactors(op, a, b.l, env);
      var c2 := CancelPairsFactors(op, a1, b.r, env);
      c := Apply(op, c1, c2);
      ApplyRegroups(op, Value(l, env), c1, Value(r, env), c2, Value(a2, env));
    } else if CancelPairs(op, a, b) == (a, b) {
      c := Value(Identity(op), env);
    } else {
      ExprEqIsSound(a, b, env);
      c := Value(a, env);
    }
  }

  lemma ApplyIsMonotone(op: Op, x: Tristate, y: Tristate, c: Tristate)
    ensures x <= y ==> Apply(op, x, c) <= Apply(op, y, c)
    ensures y <= x ==> Apply(op, y, c) <= Apply(op, x, c)
  {
  }

  /** Both operands are the same monotone function of what is left of them. */
  lemma {:induction false} EliminateEqIsMonotone(a: Expr, b: Expr, env: Env)
    ensures var (x, y) := EliminateEq(a, b);
            && (Value(x, env) <= Value(y, env) ==> Value(a, env) <= Value(b, env))
            && (Value(y, env) <= Value(x, env) ==> Value(b, env) <= Value(a, env))
    decreases Size(a) + Size(b), if a.Bin? && SameType(a, b) then 1 else 3, 0
  {
    var (a1, b1) := if a.Bin? then CancelPairs(a.op, a, b) else (a, b);
    var (a2, b2) := if !SameType(a1, b1) && b1.Bin? then CancelPairs(b1.op, a1, b1) else (a1, b1);
    if a.Bin? {
      var c := CancelPairsFactors(a.op, a, b, env);
      ApplyIsMonotone(a.op, Value(a1, env), Value(b1, env), c);
    }
    if !SameType(a1, b1) && b1.Bin? {
      var d := CancelPairsFactors(b1.op, a1, b1, env);
      ApplyIsMonotone(b1.op, Value(a2, env), Value(b2, env), d);
    }
    EliminateYnKeepsValue(a2, env);
    EliminateYnKeepsValue(b2, env);
  }

  /** If expr_eq returns 1 the two expressions have the same value in every environment. */
  lemma {:induction false} ExprEqIsSound(a: Expr, b: Expr, env: Env)
    requires ExprEq(a, b)
    ensures Value(a, env) == Value(b, env)
    decreases Size(a) + Size(b), 1, 1
  {
    match a
    case Not(x) => ExprEqIsSound(x, b.e, env);
    case Bin(_, _, _) => EliminateEqIsMonotone(a, b, env);
    case _ =>
  }

  /** The test menu_finalize makes: if the second operand is cancelled down to `y`,
      the first one is nowhere greater than the second. */
  lemma EliminateEqProvesImplication(a: Expr, b: Expr)
    requires EliminateEq(a, b).1 == EXPR_YES
    ensures forall env :: Value(a, env) <= Value(b, env)
  {
    forall env ensures Value(a, env) <= Value(b, env) {
      EliminateEqIsMonotone(a, b, env);
    }
  }
}

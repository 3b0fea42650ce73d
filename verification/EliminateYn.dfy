/** Constant folding: expr_eliminate_yn (scripts/kconfig/expr.c). */
module EliminateYnModule {
  import opened KconfigExpr

  /** What becomes of `l op r` once both operands are folded; the left operand is looked at first. */
  function FoldConstants(op: Op, l: Expr, r: Expr): Expr {
    if l == Annihilator(op) then Annihilator(op)
    else if l == Identity(op) then r
    else if r == Annihilator(op) then Annihilator(op)
    else if r == Identity(op) then l
    else Bin(op, l, r)
  }

  function EliminateYn(e: Expr): Expr {
    match e
    case Bin(op, l, r) => FoldConstants(op, EliminateYn(l), EliminateYn(r))
    case _ => e
  }

  /** Some connective outside every negation has `y` or `n` as an operand. */
  predicate HasFoldable(e: Expr) {
    e.Bin? && (IsYesOrNo(e.l) || IsYesOrNo(e.r) || HasFoldable(e.l) || HasFoldable(e.r))
  }

  lemma {:induction false} EliminateYnKeepsValue(e: Expr, env: Env)
    ensures Value(EliminateYn(e), env) == Value(e, env)
  {
    if e.Bin? {
      EliminateYnKeepsValue(e.l, env);
      EliminateYnKeepsValue(e.r, env);
    }
  }

  /** The result has nothing left to fold, and only trees with something to fold change;
      those get strictly smaller. */
  lemma {:induction false} EliminateYnFolds(e: Expr)
    ensures !HasFoldable(EliminateYn(e))
    ensures EliminateYn(e) == e <==> !HasFoldable(e)
    ensures Size(EliminateYn(e)) <= Size(e)
    ensures HasFoldable(e) ==> Size(EliminateYn(e)) < Size(e)
  {
    if e.Bin? {
      EliminateYnFolds(e.l);
      EliminateYnFolds(e.r);
    }
  }
}

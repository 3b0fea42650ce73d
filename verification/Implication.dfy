/** Which implications the test of menu_finalize finds: what expr_eliminate_eq leaves of its second argument
    (scripts/kconfig/expr.c). */
module ImplicationModule {
  import opened KconfigExpr
  import opened EliminateYnModule
  import opened ExprEqModule
  import opened ExprEqCompleteModule

  /** Every operand in `p`, as often as it occurs, is cancelled by one in `q`. */
  predicate AreCancelledBy(p: multiset<Shape>, q: multiset<Shape>) {
    p <= q && forall s :: s in p ==> Cancels(s, false)
  }

  /** Constants are never cancelled, on either side. */
  lemma {:induction false} ConstantsStay(op: Op, a: Expr, b: Expr)
    requires IsYesOrNo(a) || IsYesOrNo(b)
    ensures CancelPairs(op, a, b) == (a, b)
    decreases Size(a) + Size(b)
  {
    if IsOp(op, a) {
      ConstantsStay(op, a.l, b);
      ConstantsStay(op, a.r, b);
    } else if IsOp(op, b) {
      ConstantsStay(op, a, b.l);
      ConstantsStay(op, a, b.r);
    }
  }

  /** A single operand is cancelled, or nothing is. */
  lemma {:induction false} SingleAgainstChain(op: Op, a: Expr, b: Expr)
    requires !IsOp(op, b)
    ensures CancelPairs(op, a, b).1 == Identity(op) || CancelPairs(op, a, b) == (a, b)
  {
    if IsOp(op, a) {
      var (l, b1) := CancelPairs(op, a.l, b);
      SingleAgainstChain(op, a.l, b);
      SingleAgainstChain(op, a.r, b1);
    }
  }

  lemma OneCancelsOne(x: multiset<Shape>, p: multiset<Shape>, q: multiset<Shape>)
    requires IsLeft(x, p, q, false) && |p| >= 2 && |q| <= 1
    ensures x != multiset{}
  {
    if p <= q {
      SubsetIsSmaller(p, q);
    }
    var s :| p[s] > q[s];
    assert x[s] == Remaining(Cancels(s, false), p[s], q[s]);
    assert s in x;
  }

  lemma SubsetIsSmaller(p: multiset<Shape>, q: multiset<Shape>)
    requires p <= q
    ensures |p| <= |q|
  {
    assert q == p + (q - p);
  }

  lemma NothingLeftOf(x: multiset<Shape>, p: multiset<Shape>, q: multiset<Shape>)
    requires IsLeft(x, p, q, false)
    ensures x == multiset{} <==> AreCancelledBy(p, q)
  {
    if x == multiset{} {
      forall s ensures p[s] <= q[s] && (s in p ==> Cancels(s, false)) {
        assert x[s] == Remaining(Cancels(s, false), p[s], q[s]);
      }
    }
    if AreCancelledBy(p, q) {
      forall s ensures x[s] == 0 {
        assert x[s] == Remaining(Cancels(s, false), p[s], q[s]);
      }
    }
  }

  /** A chain is never cancelled down to `y` by a single operand. */
  lemma ChainOutlivesOne(op: Op, a: Expr, b: Expr)
    requires Folded(a) && Folded(b) && IsOp(op, b) && !IsOp(op, a)
    ensures EliminateYn(CancelPairs(op, a, b).1) != EXPR_YES
  {
    FoldedHasNothingToFold(b);
    FoldedIsCancelled(op, b);
    FoldingKeepsParts(op, b);
    if IsYesOrNo(a) {
      ConstantsStay(op, a, b);
    } else {
      FoldedIsCancelled(op, a);
      CancelPairsIsDifference(op, a, b);
      LeafParts(op, a);
      var y := CancelPairs(op, a, b).1;
      FoldingKeepsParts(op, y);
      if op == AND {
        OneCancelsOne(Parts(op, y), Parts(op, b), Parts(op, a));
      }
    }
  }

  /** What the pass over conjunctions leaves of the right side. */
  lemma LeftOfConjuncts(a: Expr, b: Expr)
    requires Folded(a) && Folded(b) && IsOp(AND, a) && !IsYesOrNo(b)
    ensures EliminateYn(CancelPairs(AND, a, b).1) == EXPR_YES <==> AreCancelledBy(Parts(AND, b), Parts(AND, a))
  {
    var b1 := CancelPairs(AND, a, b).1;
    FoldedIsCancelled(AND, a);
    FoldedIsCancelled(AND, b);
    CancelPairsIsDifference(AND, a, b);
    FoldingKeepsParts(AND, b1);
    NothingLeftOf(Parts(AND, b1), Parts(AND, b), Parts(AND, a));
  }

  /** The second pass makes no difference to that. */
  lemma SecondPassIsIdle(a: Expr, b: Expr)
    requires Folded(a) && Folded(b) && IsOp(AND, a) && !IsYesOrNo(b)
    ensures EliminateEq(a, b).1 == EXPR_YES <==> EliminateYn(CancelPairs(AND, a, b).1) == EXPR_YES
  {
    ChainStaysChain(AND, a, b);
    if IsOp(OR, b) {
      SingleAgainstChain(AND, a, b);
      ChainOutlivesOne(OR, a, b);
      FoldedHasNothingToFold(b);
    } else if !IsOp(AND, b) {
      SingleAgainstChain(AND, a, b);
    }
  }

  /** With a conjunction on the left: `y` is left if and only if every conjunct on the right is cancelled. */
  lemma ConjunctionFinds(a: Expr, b: Expr)
    requires Folded(a) && Folded(b) && IsOp(AND, a) && !IsYesOrNo(b)
    ensures EliminateEq(a, b).1 == EXPR_YES <==> AreCancelledBy(Parts(AND, b), Parts(AND, a))
  {
    LeftOfConjuncts(a, b);
    SecondPassIsIdle(a, b);
  }

  /** A disjunction on the left leaves `n` or more of the right side, but never `y`. */
  lemma DisjunctionLeaves(a: Expr, b: Expr)
    requires Folded(a) && Folded(b) && IsOp(OR, a) && !IsYesOrNo(b)
    ensures EliminateYn(CancelPairs(OR, a, b).1) != EXPR_YES
  {
    FoldedIsCancelled(OR, a);
    FoldedIsCancelled(OR, b);
    CancelPairsIsDifference(OR, a, b);
    FoldingKeepsParts(OR, CancelPairs(OR, a, b).1);
  }

  /** Otherwise nothing but `y` itself becomes `y`. */
  lemma OthersFindNothing(a: Expr, b: Expr)
    requires Folded(a) && Folded(b) && !IsOp(AND, a) && !IsYesOrNo(b)
    ensures EliminateEq(a, b).1 != EXPR_YES
  {
    if a.Bin? {
      DisjunctionLeaves(a, b);
      ChainStaysChain(OR, a, b);
      if !IsOp(OR, b) {
        SingleAgainstChain(OR, a, b);
      }
      if IsOp(AND, b) {
        ChainOutlivesOne(AND, a, b);
      }
    } else if b.Bin? {
      ChainOutlivesOne(b.op, a, b);
    } else {
      FoldedHasNothingToFold(b);
    }
  }

  /** Of two folded expressions the second is cancelled to `y` if and only if it is `y`, or the first is a
      conjunction whose operands cancel all conjuncts of the second. */
  lemma EliminateEqFindsExactly(a: Expr, b: Expr)
    requires Folded(a) && Folded(b)
    ensures EliminateEq(a, b).1 == EXPR_YES
            <==> b == EXPR_YES || (!IsYesOrNo(b) && IsOp(AND, a) && AreCancelledBy(Parts(AND, b), Parts(AND, a)))
  {
    if IsYesOrNo(b) {
      if a.Bin? {
        ConstantsStay(a.op, a, b);
      }
    } else if IsOp(AND, a) {
      ConjunctionFinds(a, b);
    } else {
      OthersFindNothing(a, b);
    }
  }

  /** Against a chain on the right a single expression on the left is cancelled too, by the second pass: both sides
      keep what the other one lacks. */
  lemma SecondPassCancels(op: Op, a: Expr, b: Expr)
    requires Folded(a) && Folded(b) && !a.Bin? && !IsYesOrNo(a) && IsOp(op, b)
    ensures var (x, y) := EliminateEq(a, b);
            && IsLeft(Parts(op, x), Parts(op, a), Parts(op, b), false)
            && IsLeft(Parts(op, y), Parts(op, b), Parts(op, a), false)
  {
    var (a1, b1) := CancelPairs(op, a, b);
    FoldedIsCancelled(op, a);
    FoldedIsCancelled(op, b);
    CancelPairsIsDifference(op, a, b);
    FoldingKeepsParts(op, a1);
    FoldingKeepsParts(op, b1);
  }
}

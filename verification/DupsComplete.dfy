/** What duplicate elimination leaves: no two equal operands, and no two comparisons of a tristate symbol that
    one comparison could replace (scripts/kconfig/expr.c). */
module DupsCompleteModule {
  import opened Common
  import opened KconfigExpr
  import opened ExprEqModule
  import opened ExprEqCompleteModule
  import opened TransformModule
  import opened JoinsModule
  import opened JoinRulesModule
  import opened ExtractEqModule
  import opened SlotsModule
  import opened DupsModule
  import opened EliminateDupsModule
  import opened DupsSettledModule
  import opened DupsFormsModule

  /** Equal operands are joined, whatever the order and grouping inside them. */
  lemma EqualOperandsJoin(op: Op, a: Expr, b: Expr)
    requires Folded(a) && Folded(b) && ShapeOf(a) == ShapeOf(b) && IsThin(ShapeOf(a))
    ensures Join(op, a, b) == Some(a)
  {
    ExprEqDecidesShape(a, b);
  }

  /** In the result no two operands of a chain are equal up to order and grouping, unless two bare quoted
      constants in some chain inside them hide it. */
  lemma NoDuplicateLeft(e: Expr, c: Expr, i: Path, j: Path)
    requires Folded(e) && HasChain(EliminateDups(e), c)
    requires IsOperand(c.op, c, i) && IsOperand(c.op, c, j) && i != j
    ensures ShapeOf(At(c.op, c, i)) == ShapeOf(At(c.op, c, j)) ==> !IsThin(ShapeOf(At(c.op, c, i)))
  {
    var a, b := At(c.op, c, i), At(c.op, c, j);
    EliminateDupsIsSettled(e);
    ResultChainIsFolded(e, c);
    SlotIsFolded(c.op, c, i);
    SlotIsFolded(c.op, c, j);
    if ShapeOf(a) == ShapeOf(b) && IsThin(ShapeOf(a)) {
      EqualOperandsJoin(c.op, a, b);
    }
  }

  /** Nor are two operands left that one could replace: comparisons of a tristate symbol, a bare symbol and a
      comparison of it, a boolean and its negation. */
  lemma NoOverlapLeft(e: Expr, c: Expr, i: Path, j: Path)
    requires HasChain(EliminateDups(e), c)
    requires IsOperand(c.op, c, i) && IsOperand(c.op, c, j) && i != j
    ensures !Overlap(c.op, At(c.op, c, i), At(c.op, c, j))
  {
    var a, b := At(c.op, c, i), At(c.op, c, j);
    EliminateDupsIsSettled(e);
    if Covers(c.op, a, b) {
      OverlapJoins(c.op, a, b);
    } else if Covers(c.op, b, a) {
      OverlapJoins(c.op, b, a);
    }
  }

  /** In particular two tests of one tristate symbol are left beside each other only where no single test has
      their value, nor are they opposites. */
  lemma TestsLeftAreNeeded(e: Expr, c: Expr, i: Path, j: Path, v: Symbol)
    requires HasChain(EliminateDups(e), c) && c.op == AND
    requires IsOperand(AND, c, i) && IsOperand(AND, c, j) && i != j
    requires v.Type() == TRISTATE && IsTest(At(AND, c, i), v) && IsTest(At(AND, c, j), v)
    ensures !OneTestSuffices(AND, At(AND, c, i), At(AND, c, j), v) && !AreOpposites(At(AND, c, i), At(AND, c, j))
  {
    EliminateDupsIsSettled(e);
    AndJoinsExactlyWhen(v, At(AND, c, i), At(AND, c, j));
  }

  // ----- what the second pass refutes -----

  ghost predicate ExtractsDifference(op: Op, common: Option<Expr>, a: Expr, b: Expr) {
    var r := ExtractEq(op, common, a, b); IsDifference(op, a, b, r.a, r.b, true)
  }

  lemma ConstantEqualsItself(a: Expr, b: Expr)
    requires IsYesOrNo(a) || IsYesOrNo(b)
    ensures ExprEq(a, b) <==> a == b
  {
  }

  lemma LeavesExtracted(op: Op, common: Option<Expr>, a: Expr, b: Expr)
    requires !IsOp(op, a) && !IsOp(op, b)
    ensures var r := ExtractEq(op, common, a, b);
            if ExprEq(a, b) then r.a == r.b == Identity(op) else r.a == a && r.b == b
  {
  }

  /** Two operands that are not chains: extracted when they are found equal. */
  lemma ExtractLeaves(op: Op, common: Option<Expr>, a: Expr, b: Expr)
    requires Cancelled(op, a) && Cancelled(op, b) && !IsOp(op, a) && !IsOp(op, b)
    ensures ExtractsDifference(op, common, a, b)
  {
    LeafParts(op, a);
    LeafParts(op, b);
    LeavesExtracted(op, common, a, b);
    if a == Identity(op) || b == Identity(op) {
      ConstantEqualsItself(a, b);
      LeavesLeft(op, a, b, a == b, true);
    } else {
      ExprEqDecidesShape(a, b);
      LeavesLeft(op, a, b, ExprEq(a, b), true);
    }
  }

  lemma FirstChainExtracted(op: Op, common: Option<Expr>, a: Expr, b: Expr)
    requires IsOp(op, a)
    requires ExtractsDifference(op, common, a.l, b)
    requires var x := ExtractEq(op, common, a.l, b); ExtractsDifference(op, x.common, a.r, x.b)
    ensures ExtractsDifference(op, common, a, b)
  {
    var x := ExtractEq(op, common, a.l, b);
    var y := ExtractEq(op, x.common, a.r, x.b);
    assert ExtractEq(op, common, a, b) == Extraction(y.common, Bin(op, x.a, y.a), y.b) && a == Bin(op, a.l, a.r);
    CancellingInTurn(op, a.l, a.r, b, x.a, x.b, y.a, y.b, true);
  }

  lemma SecondChainExtracted(op: Op, common: Option<Expr>, a: Expr, b: Expr)
    requires !IsOp(op, a) && IsOp(op, b)
    requires ExtractsDifference(op, common, a, b.l)
    requires var x := ExtractEq(op, common, a, b.l); ExtractsDifference(op, x.common, x.a, b.r)
    ensures ExtractsDifference(op, common, a, b)
  {
    var x := ExtractEq(op, common, a, b.l);
    var y := ExtractEq(op, x.common, x.a, b.r);
    assert ExtractEq(op, common, a, b) == Extraction(y.common, y.a, Bin(op, x.b, y.b)) && b == Bin(op, b.l, b.r);
    DifferenceIsSymmetric(op, a, b.l, x.a, x.b, true);
    DifferenceIsSymmetric(op, x.a, b.r, y.a, y.b, true);
    CancellingInTurn(op, b.l, b.r, a, x.b, x.a, y.b, y.a, true);
  }

  /** Extraction leaves of each chain the operands that the other one lacks, and those that are not even
      found equal to themselves. */
  lemma {:induction false} ExtractEqIsDifference(op: Op, common: Option<Expr>, a: Expr, b: Expr)
    requires Cancelled(op, a) && Cancelled(op, b)
    ensures ExtractsDifference(op, common, a, b)
    decreases Size(a) + Size(b)
  {
    if IsOp(op, a) {
      var x := ExtractEq(op, common, a.l, b);
      ExtractEqIsDifference(op, common, a.l, b);
      ExtractEqIsDifference(op, x.common, a.r, x.b);
      FirstChainExtracted(op, common, a, b);
    } else if IsOp(op, b) {
      var x := ExtractEq(op, common, a, b.l);
      ExtractEqIsDifference(op, common, a, b.l);
      ExtractEqIsDifference(op, x.common, x.a, b.r);
      SecondChainExtracted(op, common, a, b);
    } else {
      ExtractLeaves(op, common, a, b);
    }
  }

  /** When nothing is extracted the first expression is as it was. */
  lemma {:induction false} NothingExtracted(op: Op, common: Option<Expr>, a: Expr, b: Expr)
    requires ExtractEq(op, common, a, b).common.None?
    ensures common.None? && ExtractEq(op, common, a, b).a == a
    decreases Size(a) + Size(b)
  {
    if IsOp(op, a) {
      var x := ExtractEq(op, common, a.l, b);
      NothingExtracted(op, x.common, a.r, x.b);
      NothingExtracted(op, common, a.l, b);
    } else if IsOp(op, b) {
      var x := ExtractEq(op, common, a, b.l);
      NothingExtracted(op, x.common, x.a, b.r);
      NothingExtracted(op, common, a, b.l);
    }
  }

  lemma {:induction false} NegationIsFolded(a: Expr)
    requires IsNormal(a) && Folded(a)
    ensures Folded(Transform(Not(a))) && (IsYesOrNo(Transform(Not(a))) <==> IsYesOrNo(a))
  {
    NormalIsFixed(a);
    if a.Bin? {
      NegationIsFolded(a.l);
      NegationIsFolded(a.r);
      assert Transform(Not(a)) == TransformNot(a);
      assert TransformNot(a) == Transform(Bin(DualOp(a.op), Not(a.l), Not(a.r)));
      assert Transform(Not(a)) == Bin(DualOp(a.op), Transform(Not(a.l)), Transform(Not(a.r)));
    } else if a.Not? {
      assert Transform(Not(a)) == a.e;
    }
  }

  /** Every operand, as often as it occurs, is found among those of the other. */
  predicate AreFoundIn(p: multiset<Shape>, q: multiset<Shape>) {
    p <= q && forall s :: s in p ==> IsThin(s)
  }

  /** The test of the second pass succeeds if and only if the operands of the negation of `a` are found
      among those of `b`. */
  lemma ContradictsFindsExactly(op: Op, a: Expr, b: Expr)
    requires IsNormal(a) && Folded(a) && !IsYesOrNo(a) && Folded(b) && !IsYesOrNo(b)
    ensures Contradicts(op, a, b) <==> AreFoundIn(Parts(op, Transform(Not(a))), Parts(op, b))
  {
    var neg := Transform(Not(a));
    NegationIsFolded(a);
    FoldedIsCancelled(op, neg);
    FoldedIsCancelled(op, b);
    ExtractEqIsDifference(op, None, neg, b);
    var x := ExtractEq(op, None, neg, b);
    FoldingKeepsParts(op, neg);
    FoldedHasNothingToFold(neg);
    FoldingKeepsParts(op, x.a);
    if x.common.None? {
      NothingExtracted(op, None, neg, b);
    }
    NothingLeft(Parts(op, x.a), Parts(op, neg), Parts(op, b));
  }

  lemma NothingLeft(x: multiset<Shape>, p: multiset<Shape>, q: multiset<Shape>)
    requires IsLeft(x, p, q, true)
    ensures x == multiset{} <==> AreFoundIn(p, q)
  {
    if x == multiset{} {
      forall s ensures p[s] <= q[s] && (s in p ==> IsThin(s)) {
        assert x[s] == Remaining(Cancels(s, true), p[s], q[s]);
      }
    }
    if AreFoundIn(p, q) {
      forall s ensures x[s] == 0 {
        assert x[s] == Remaining(Cancels(s, true), p[s], q[s]);
      }
    }
  }

  lemma SettledHasNoRefutation(c: Expr, i: Path, j: Path)
    requires c.Bin? && IsSettled(c) && IsNormal(c) && Folded(c)
    requires IsOperand(c.op, c, i) && IsSlot(c.op, c, j) && i != j && At(c.op, c, i).Bin?
    ensures !AreFoundIn(Parts(c.op, Transform(Not(At(c.op, c, i)))), Parts(c.op, At(c.op, c, j)))
  {
    assert !Contradicts(c.op, At(c.op, c, i), At(c.op, c, j));
    SlotIs(c.op, c, i, IsNormal);
    SlotIsFolded(c.op, c, i);
    SlotIsFolded(c.op, c, j);
    ContradictsFindsExactly(c.op, At(c.op, c, i), At(c.op, c, j));
  }

  /** In the result no operand of a chain is itself a chain whose negation has all its operands in another
      part of that chain. */
  lemma NoRefutationLeft(e: Expr, c: Expr, i: Path, j: Path)
    requires IsNormal(e) && Folded(e) && HasChain(EliminateDups(e), c)
    requires IsOperand(c.op, c, i) && IsSlot(c.op, c, j) && i != j && At(c.op, c, i).Bin?
    ensures !AreFoundIn(Parts(c.op, Transform(Not(At(c.op, c, i)))), Parts(c.op, At(c.op, c, j)))
  {
    EliminateDupsIsSettled(e);
    ResultChainIsFolded(e, c);
    ResultChainIsNormal(e, c);
    SettledHasNoRefutation(c, i, j);
  }
}

/** Duplicate elimination keeps normal forms normal and folded expressions folded (scripts/kconfig/expr.c). */
module DupsFormsModule {
  import opened KconfigExpr
  import opened EliminateYnModule
  import opened ExprEqCompleteModule
  import opened TransformModule
  import opened JoinsModule
  import opened SlotsModule
  import opened DupsModule
  import opened DupsProofsModule
  import opened EliminateDupsModule
  import opened DupsSettledModule

  /** Everything between the connectives of `e`, outside negations, is `ok`. */
  predicate Everywhere(e: Expr, ok: Expr -> bool) {
    if e.Bin? then Everywhere(e.l, ok) && Everywhere(e.r, ok) else ok(e)
  }

  /** A join of two such operands is such an operand, and so are `y` and `n`. */
  ghost predicate JoinsKeep(ok: Expr -> bool) {
    && ok(EXPR_YES) && ok(EXPR_NO)
    && forall op, a, b :: Join(op, a, b).Some? && Everywhere(a, ok) && Everywhere(b, ok)
                          ==> Everywhere(Join(op, a, b).value, ok)
  }

  lemma {:induction false} AtKeeps(op: Op, t: Expr, p: Path, ok: Expr -> bool)
    requires IsSlot(op, t, p) && Everywhere(t, ok)
    ensures Everywhere(At(op, t, p), ok)
  {
    if p != [] {
      AtKeeps(op, Child(t, p[0]), p[1..], ok);
    }
  }

  lemma {:induction false} PutKeeps(op: Op, t: Expr, p: Path, x: Expr, ok: Expr -> bool)
    requires IsSlot(op, t, p) && Everywhere(t, ok) && Everywhere(x, ok)
    ensures Everywhere(Put(op, t, p, x), ok)
  {
    if p != [] {
      PutKeeps(op, Child(t, p[0]), p[1..], x, ok);
    }
  }

  lemma JoinOperandsKeeps(op: Op, t: Expr, p: Path, q: Path, ok: Expr -> bool)
    requires IsOperand(op, t, p) && IsOperand(op, t, q) && p != q && Everywhere(t, ok) && JoinsKeep(ok)
    ensures Everywhere(JoinOperands(op, t, p, q).e, ok)
  {
    match Join(op, At(op, t, p), At(op, t, q))
    case None =>
    case Some(j) =>
      AtKeeps(op, t, p, ok);
      AtKeeps(op, t, q, ok);
      PutThenAt(op, t, p, Identity(op), q);
      PutKeeps(op, t, p, Identity(op), ok);
      PutKeeps(op, Put(op, t, p, Identity(op)), q, j, ok);
  }

  lemma {:induction false} Dups1Keeps(op: Op, t: Expr, p: Path, q: Path, ok: Expr -> bool)
    requires IsSlot(op, t, p) && IsSlot(op, t, q) && Everywhere(t, ok) && JoinsKeep(ok)
    ensures Everywhere(Dups1(op, t, p, q).e, ok)
    decreases Size(t), ChainSize(op, At(op, t, p)), ChainSize(op, At(op, t, q))
  {
    if IsOp(op, At(op, t, p)) {
      SlotChild(op, t, p, false);
      SlotChild(op, t, p, true);
      var x := Dups1(op, t, p + [false], q);
      GoOn(op, t, x.e, p + [true]);
      GoOn(op, t, x.e, q);
      Dups1Keeps(op, t, p + [false], q, ok);
      Dups1Keeps(op, x.e, p + [true], q, ok);
    } else if IsOp(op, At(op, t, q)) {
      SlotChild(op, t, q, false);
      SlotChild(op, t, q, true);
      var x := Dups1(op, t, p, q + [false]);
      GoOn(op, t, x.e, q + [true]);
      GoOn(op, t, x.e, p);
      Dups1Keeps(op, t, p, q + [false], ok);
      Dups1Keeps(op, x.e, p, q + [true], ok);
    } else if p != q {
      OperandsAreBelow(op, t, p, q);
      AtKeeps(op, t, p, ok);
      var a := At(op, t, p);
      var inner := if a.Bin? then Dups1(a.op, a, [], []) else Rewrite(a, 0);
      if a.Bin? {
        Dups1Keeps(a.op, a, [], [], ok);
      }
      PutKeeps(op, t, p, inner.e, ok);
      PutThenAt(op, t, p, inner.e, p);
      PutThenAt(op, t, p, inner.e, q);
      JoinOperandsKeeps(op, Put(op, t, p, inner.e), p, q, ok);
    }
  }

  lemma {:induction false} Dups2Keeps(op: Op, t: Expr, p: Path, q: Path, ok: Expr -> bool)
    requires IsSlot(op, t, p) && IsSlot(op, t, q) && Everywhere(t, ok) && JoinsKeep(ok)
    ensures Everywhere(Dups2(op, t, p, q).e, ok)
    decreases Size(t), ChainSize(op, At(op, t, p)), ChainSize(op, At(op, t, q))
  {
    if IsOp(op, At(op, t, p)) {
      SlotChild(op, t, p, false);
      SlotChild(op, t, p, true);
      var x := Dups2(op, t, p + [false], q);
      GoOn(op, t, x.e, p + [true]);
      GoOn(op, t, x.e, q);
      Dups2Keeps(op, t, p + [false], q, ok);
      Dups2Keeps(op, x.e, p + [true], q, ok);
    } else {
      var d := Dups2Parts(op, t, p, q);
      GoOn(op, t, d.e, p);
      GoOn(op, t, d.e, q);
      Dups2PartsKeeps(op, t, p, q, ok);
      if p != q && At(op, d.e, p).Bin? {
        OperandsAreBelow(op, d.e, p, q);
        AtKeeps(op, d.e, p, ok);
        var a := At(op, d.e, p);
        Dups2Keeps(a.op, a, [], [], ok);
        Dups2StepKeeps(op, d.e, p, q, Dups2(a.op, a, [], []).e, ok);
      }
    }
  }

  /** What remains after the second pass over the parts and over the operand itself. */
  lemma Dups2StepKeeps(op: Op, t: Expr, p: Path, q: Path, inner: Expr, ok: Expr -> bool)
    requires IsOperand(op, t, p) && IsSlot(op, t, q) && !IsOp(op, inner)
    requires Everywhere(t, ok) && Everywhere(inner, ok) && JoinsKeep(ok)
    ensures var u := Put(op, t, p, inner);
            IsOperand(op, u, p) && IsSlot(op, u, q) && Everywhere(RefuteOperand(op, u, p, q).e, ok)
  {
    var u := Put(op, t, p, inner);
    PutKeeps(op, t, p, inner, ok);
    PutOperand(op, t, p, inner);
    PutThenAt(op, t, p, inner, p);
    GoOn(op, t, u, q);
    PutKeeps(op, u, p, Annihilator(op), ok);
  }

  lemma {:induction false} Dups2PartsKeeps(op: Op, t: Expr, p: Path, q: Path, ok: Expr -> bool)
    requires IsOperand(op, t, p) && IsSlot(op, t, q) && Everywhere(t, ok) && JoinsKeep(ok)
    ensures Everywhere(Dups2Parts(op, t, p, q).e, ok)
    decreases Size(t), ChainSize(op, At(op, t, p)), ChainSize(op, At(op, t, q)), 0
  {
    if IsOp(op, At(op, t, q)) {
      SlotChild(op, t, q, false);
      SlotChild(op, t, q, true);
      var x := Dups2(op, t, p, q + [false]);
      GoOn(op, t, x.e, q + [true]);
      GoOn(op, t, x.e, p);
      Dups2Keeps(op, t, p, q + [false], ok);
      Dups2Keeps(op, x.e, p, q + [true], ok);
    }
  }

  lemma RoundKeepsEverywhere(e: Expr, ok: Expr -> bool)
    requires Everywhere(e, ok) && JoinsKeep(ok)
    ensures Everywhere(Round(e).e, ok)
  {
    if e.Bin? {
      Dups1Keeps(e.op, e, [], [], ok);
      Dups2Keeps(e.op, Dups1(e.op, e, [], []).e, [], [], ok);
    }
  }

  lemma {:induction false} FoldingKeeps(e: Expr, ok: Expr -> bool)
    requires Everywhere(e, ok)
    ensures Everywhere(EliminateYn(e), ok)
  {
    if e.Bin? {
      FoldingKeeps(e.l, ok);
      FoldingKeeps(e.r, ok);
    }
  }

  lemma {:induction false} ResultKeeps(e: Expr, ok: Expr -> bool)
    requires Everywhere(e, ok) && JoinsKeep(ok)
    ensures Everywhere(EliminateDups(e), ok)
    decreases Size(e)
  {
    var r := Round(e);
    RoundKeepsEverywhere(e, ok);
    if r.count > 0 {
      RoundShrinks(e);
      FoldingKeeps(r.e, ok);
      ResultKeeps(EliminateYn(r.e), ok);
    }
  }

  // ----- normal forms -----

  lemma {:induction false} NormalEverywhere(e: Expr)
    ensures IsNormal(e) <==> Everywhere(e, IsNormal)
  {
    if e.Bin? {
      NormalEverywhere(e.l);
      NormalEverywhere(e.r);
    }
  }

  /** Two normal operands join into a normal one: no rule compares a boolean with a constant unless one of its
      operands does. */
  lemma JoinIsNormal(op: Op, a: Expr, b: Expr)
    requires IsNormal(a) && IsNormal(b) && Join(op, a, b).Some?
    ensures IsNormal(Join(op, a, b).value)
  {
  }

  lemma JoinsKeepNormal()
    ensures JoinsKeep(IsNormal)
  {
    forall op, a, b | Join(op, a, b).Some? && Everywhere(a, IsNormal) && Everywhere(b, IsNormal)
      ensures Everywhere(Join(op, a, b).value, IsNormal)
    {
      NormalEverywhere(a);
      NormalEverywhere(b);
      JoinIsNormal(op, a, b);
      NormalEverywhere(Join(op, a, b).value);
    }
  }

  /** A normal form stays normal. */
  lemma EliminateDupsIsNormal(e: Expr)
    requires IsNormal(e)
    ensures IsNormal(EliminateDups(e))
  {
    NormalEverywhere(e);
    JoinsKeepNormal();
    ResultKeeps(e, IsNormal);
    NormalEverywhere(EliminateDups(e));
  }

  // ----- folded expressions -----

  /** An expression is folded when nothing can be folded outside negations, nor inside any of them. */
  lemma {:induction false} FoldedEverywhere(e: Expr)
    ensures Folded(e) <==> Everywhere(e, Folded) && !HasFoldable(e)
  {
    if e.Bin? {
      FoldedEverywhere(e.l);
      FoldedEverywhere(e.r);
    }
  }

  lemma JoinsKeepFolded()
    ensures JoinsKeep(Folded)
  {
  }

  /** With negations folded, the result is folded if and only if the expression was or some round rewrote it:
      each round that rewrites anything is followed by folding. */
  lemma {:induction false} ResultIsFoldedExactlyWhen(e: Expr)
    requires Everywhere(e, Folded)
    ensures Folded(EliminateDups(e)) <==> Folded(e) || Round(e).count > 0
    decreases Size(e)
  {
    var r := Round(e);
    if r.count > 0 {
      RoundShrinks(e);
      JoinsKeepFolded();
      RoundKeepsEverywhere(e, Folded);
      FoldingKeeps(r.e, Folded);
      EliminateYnFolds(r.e);
      FoldedEverywhere(EliminateYn(r.e));
      ResultIsFoldedExactlyWhen(EliminateYn(r.e));
    } else if e.Bin? {
      QuietRound(e);
    }
  }

  /** A folded expression stays folded. */
  lemma EliminateDupsIsFolded(e: Expr)
    requires Folded(e)
    ensures Folded(EliminateDups(e))
  {
    FoldedEverywhere(e);
    ResultIsFoldedExactlyWhen(e);
  }

  // ----- the chains inside -----

  /** A property of all expressions that a connective has only if both operands have it. */
  ghost predicate IsInherited(ok: Expr -> bool) {
    forall e: Expr :: e.Bin? && ok(e) ==> ok(e.l) && ok(e.r)
  }

  lemma {:induction false} ChainsAre(e: Expr, c: Expr, ok: Expr -> bool)
    requires HasChain(e, c) && ok(e) && IsInherited(ok)
    ensures ok(c)
    decreases e, 0
  {
    if e != c {
      ChainsBelowAre(e.op, if HasChainBelow(e.op, e.l, c) then e.l else e.r, c, ok);
    }
  }

  lemma {:induction false} ChainsBelowAre(op: Op, e: Expr, c: Expr, ok: Expr -> bool)
    requires HasChainBelow(op, e, c) && ok(e) && IsInherited(ok)
    ensures ok(c)
    decreases e, 1
  {
    if IsOp(op, e) {
      ChainsBelowAre(op, if HasChainBelow(op, e.l, c) then e.l else e.r, c, ok);
    } else {
      ChainsAre(e, c, ok);
    }
  }

  lemma {:induction false} SlotIs(op: Op, t: Expr, p: Path, ok: Expr -> bool)
    requires IsSlot(op, t, p) && ok(t) && IsInherited(ok)
    ensures ok(At(op, t, p))
  {
    if p != [] {
      SlotIs(op, Child(t, p[0]), p[1..], ok);
    }
  }

  /** Below the root of a folded chain there is no `y` or `n`. */
  lemma {:induction false} SlotIsFolded(op: Op, t: Expr, p: Path)
    requires IsSlot(op, t, p) && Folded(t)
    ensures Folded(At(op, t, p)) && (p != [] || t.Bin? ==> !IsYesOrNo(At(op, t, p)))
  {
    if p != [] {
      SlotIsFolded(op, Child(t, p[0]), p[1..]);
      assert p[1..] == [] ==> At(op, t, p) == Child(t, p[0]);
    }
  }

  /** Every chain of the result of a folded expression is folded. */
  lemma ResultChainIsFolded(e: Expr, c: Expr)
    requires Folded(e) && HasChain(EliminateDups(e), c)
    ensures Folded(c)
  {
    EliminateDupsIsFolded(e);
    ChainsAre(EliminateDups(e), c, Folded);
  }

  /** Every chain of the result of a normal form is normal. */
  lemma ResultChainIsNormal(e: Expr, c: Expr)
    requires IsNormal(e) && HasChain(EliminateDups(e), c)
    ensures IsNormal(c)
  {
    EliminateDupsIsNormal(e);
    ChainsAre(EliminateDups(e), c, IsNormal);
  }
}

/** The loop of expr_eliminate_dups (scripts/kconfig/expr.c) and its results. */
module EliminateDupsModule {
  import opened KconfigExpr
  import opened EliminateYnModule
  import opened JoinsModule
  import opened SlotsModule
  import opened DupsModule
  import opened DupsProofsModule

  /** Rounds and folding alternate until a round rewrites nothing. */
  function EliminateDups(e: Expr): Expr
    decreases Size(e)
  {
    var r := Round(e);
    if r.count == 0 then r.e
    else
      RoundShrinks(e);
      EliminateDups(EliminateYn(r.e))
  }

  /** The file-scope counter of expr.c, and the function that resets and restores it. */
  class Rewriter {
    var transCount: nat

    constructor ()
      ensures transCount == 0
    {
      transCount := 0;
    }

    /** The first pass; each join raises the counter. */
    method JoinPass(op: Op, t: Expr, p: Path, q: Path) returns (r: Expr)
      requires IsSlot(op, t, p) && IsSlot(op, t, q)
      modifies this
      ensures r == Dups1(op, t, p, q).e && transCount == old(transCount) + Dups1(op, t, p, q).count
      decreases Size(t), ChainSize(op, At(op, t, p)), ChainSize(op, At(op, t, q)), 1
    {
      if IsOp(op, At(op, t, p)) {
        SlotChild(op, t, p, false);
        SlotChild(op, t, p, true);
        var x := JoinPass(op, t, p + [false], q);
        GoOn(op, t, x, p + [true]);
        GoOn(op, t, x, q);
        r := JoinPass(op, x, p + [true], q);
      } else if IsOp(op, At(op, t, q)) {
        SlotChild(op, t, q, false);
        SlotChild(op, t, q, true);
        var x := JoinPass(op, t, p, q + [false]);
        GoOn(op, t, x, q + [true]);
        GoOn(op, t, x, p);
        r := JoinPass(op, x, p, q + [true]);
      } else {
        r := JoinPair(op, t, p, q);
      }
    }

    /** The case of two operands: the first one is rewritten inside, then they are joined if possible. */
    method JoinPair(op: Op, t: Expr, p: Path, q: Path) returns (r: Expr)
      requires IsOperand(op, t, p) && IsOperand(op, t, q)
      modifies this
      ensures r == Dups1(op, t, p, q).e && transCount == old(transCount) + Dups1(op, t, p, q).count
      decreases Size(t), ChainSize(op, At(op, t, p)), ChainSize(op, At(op, t, q)), 0
    {
      r := t;
      if p != q {
        OperandsAreBelow(op, t, p, q);
        var a := At(op, t, p);
        if a.Bin? {
          a := JoinPass(a.op, a, [], []);
        }
        PutThenAt(op, t, p, a, p);
        PutThenAt(op, t, p, a, q);
        r := JoinTwo(op, Put(op, t, p, a), p, q);
      }
    }

    method JoinTwo(op: Op, t: Expr, p: Path, q: Path) returns (r: Expr)
      requires IsOperand(op, t, p) && IsOperand(op, t, q) && p != q
      modifies this
      ensures r == JoinOperands(op, t, p, q).e && transCount == old(transCount) + JoinOperands(op, t, p, q).count
    {
      var j := Join(op, At(op, t, p), At(op, t, q));
      r := t;
      if j.Some? {
        PutThenAt(op, t, p, Identity(op), q);
        r := Put(op, Put(op, t, p, Identity(op)), q, j.value);
        transCount := transCount + 1;
      }
    }

    /** The second pass; each refuted operand raises the counter. */
    method RefutePass(op: Op, t: Expr, p: Path, q: Path) returns (r: Expr)
      requires IsSlot(op, t, p) && IsSlot(op, t, q)
      modifies this
      ensures r == Dups2(op, t, p, q).e && transCount == old(transCount) + Dups2(op, t, p, q).count
      decreases Size(t), ChainSize(op, At(op, t, p)), ChainSize(op, At(op, t, q)), 2
    {
      if IsOp(op, At(op, t, p)) {
        SlotChild(op, t, p, false);
        SlotChild(op, t, p, true);
        var x := RefutePass(op, t, p + [false], q);
        GoOn(op, t, x, p + [true]);
        GoOn(op, t, x, q);
        r := RefutePass(op, x, p + [true], q);
      } else {
        r := RefuteBeside(op, t, p, q);
      }
    }

    /** The case of one operand: the parts of the other chain come first, then the chain as a whole. */
    method RefuteBeside(op: Op, t: Expr, p: Path, q: Path) returns (r: Expr)
      requires IsOperand(op, t, p) && IsSlot(op, t, q)
      modifies this
      ensures r == Dups2(op, t, p, q).e && transCount == old(transCount) + Dups2(op, t, p, q).count
      decreases Size(t), ChainSize(op, At(op, t, p)), ChainSize(op, At(op, t, q)), 1
    {
      r := RefuteByParts(op, t, p, q);
      GoOn(op, t, r, p);
      GoOn(op, t, r, q);
      if p != q && At(op, r, p).Bin? {
        OperandsAreBelow(op, r, p, q);
        var a := At(op, r, p);
        var inner := RefutePass(a.op, a, [], []);
        r := RefuteOne(op, r, p, q, inner);
      }
    }

    method RefuteByParts(op: Op, t: Expr, p: Path, q: Path) returns (r: Expr)
      requires IsOperand(op, t, p) && IsSlot(op, t, q)
      modifies this
      ensures r == Dups2Parts(op, t, p, q).e && transCount == old(transCount) + Dups2Parts(op, t, p, q).count
      decreases Size(t), ChainSize(op, At(op, t, p)), ChainSize(op, At(op, t, q)), 0
    {
      r := t;
      if IsOp(op, At(op, t, q)) {
        SlotChild(op, t, q, false);
        SlotChild(op, t, q, true);
        var x := RefutePass(op, t, p, q + [false]);
        GoOn(op, t, x, q + [true]);
        GoOn(op, t, x, p);
        r := RefutePass(op, x, p, q + [true]);
      }
    }

    /** The operand is rewritten inside first, then refuted as a whole. */
    method RefuteOne(op: Op, t: Expr, p: Path, q: Path, inner: Expr) returns (r: Expr)
      requires IsOperand(op, t, p) && IsSlot(op, t, q) && !IsOp(op, inner)
      modifies this
      ensures var u := Put(op, t, p, inner);
              && IsOperand(op, u, p) && IsSlot(op, u, q)
              && r == RefuteOperand(op, u, p, q).e
              && transCount == old(transCount) + RefuteOperand(op, u, p, q).count
    {
      r := Put(op, t, p, inner);
      PutOperand(op, t, p, inner);
      PutThenAt(op, t, p, inner, p);
      GoOn(op, t, r, q);
      if Contradicts(op, At(op, r, p), At(op, r, q)) {
        r := Put(op, r, p, Annihilator(op));
        transCount := transCount + 1;
      }
    }

    method RunRound(e: Expr) returns (r: Expr)
      modifies this
      ensures r == Round(e).e && transCount == old(transCount) + Round(e).count
    {
      r := e;
      if e.Bin? {
        r := JoinPass(e.op, e, [], []);
        r := RefutePass(e.op, r, [], []);
      }
    }

    method Run(e: Expr) returns (r: Expr)
      modifies this
      ensures r == EliminateDups(e)
      ensures transCount == old(transCount)
    {
      var oldCount := transCount;
      r := e;
      while true
        invariant EliminateDups(r) == EliminateDups(e)
        decreases Size(r)
      {
        ghost var before := r;
        transCount := 0;
        r := RunRound(r);
        if transCount == 0 {
          break;
        }
        RoundShrinks(before);
        r := EliminateYn(r);
      }
      transCount := oldCount;
    }
  }

  /** Only an `m` can be lost: wherever booleans are never `m`, an expression that is `y` or `n`
      keeps its value. */
  lemma {:induction false} EliminateDupsKeeps(e: Expr, env: Env)
    requires BooleansNeverMod(env)
    ensures Keeps(Value(e, env), Value(EliminateDups(e), env))
    decreases Size(e)
  {
    var r := Round(e);
    RoundKeeps(e, env);
    if r.count > 0 {
      RoundShrinks(e);
      EliminateYnKeepsValue(r.e, env);
      EliminateDupsKeeps(EliminateYn(r.e), env);
    }
  }

  /** In particular nothing changes where no bare symbol is `m`. */
  lemma EliminateDupsKeepsCrisp(e: Expr, env: Env)
    requires BooleansNeverMod(env) && Crisp(e, env)
    ensures Value(EliminateDups(e), env) == Value(e, env)
  {
    EliminateDupsKeeps(e, env);
    CrispIsTwoValued(e, env);
  }
}

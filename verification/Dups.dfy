/** Removing duplicate and contradictory operands: expr_eliminate_dups1, expr_eliminate_dups2 and
    expr_eliminate_dups (scripts/kconfig/expr.c).  Both passes are started with the two pointers on
    the same tree, so they work on slots of one chain; the count is what they add to trans_count. */
module DupsModule {
  import opened KconfigExpr
  import opened TransformModule
  import opened JoinsModule
  import opened ExtractEqModule
  import opened SlotsModule

  datatype Rewrite = Rewrite(e: Expr, count: nat)

  /** The end of expr_eliminate_dups1: the first operand becomes the identity, the second the join. */
  function JoinOperands(op: Op, t: Expr, p: Path, q: Path): (r: Rewrite)
    requires IsOperand(op, t, p) && IsOperand(op, t, q) && p != q
    ensures SameChain(op, t, r.e) && Size(r.e) <= Size(t)
  {
    match Join(op, At(op, t, p), At(op, t, q))
    case None => SameChainRefl(op, t); Rewrite(t, 0)
    case Some(j) =>
      JoinIsSmall(op, At(op, t, p), At(op, t, q));
      var u := Put(op, t, p, Identity(op));
      PutOperand(op, t, p, Identity(op));
      PutThenAt(op, t, p, Identity(op), q);
      PutOperand(op, u, q, j);
      SameChainTrans(op, t, u, Put(op, u, q, j));
      Rewrite(Put(op, u, q, j), 1)
  }

  /** What must hold to go on with slot `s` after `t` has become `u`. */
  lemma GoOn(op: Op, t: Expr, u: Expr, s: Path)
    requires SameChain(op, t, u) && IsSlot(op, t, s)
    ensures IsSlot(op, u, s) && SameChain(op, At(op, t, s), At(op, u, s))
    ensures ChainSize(op, At(op, t, s)) == ChainSize(op, At(op, u, s))
  {
    SameChainSlot(op, t, u, s);
    SameChainSize(op, At(op, t, s), At(op, u, s));
  }

  /** Two different operands of a chain lie strictly below its root. */
  lemma OperandsAreBelow(op: Op, t: Expr, p: Path, q: Path)
    requires IsOperand(op, t, p) && IsSlot(op, t, q) && p != q
    ensures p != [] && Size(At(op, t, p)) < Size(t)
  {
    PutOperand(op, t, p, Identity(op));
  }

  /** `expr_eliminate_dups1(op, ep, eq)`. */
  function Dups1(op: Op, t: Expr, p: Path, q: Path): (r: Rewrite)
    requires IsSlot(op, t, p) && IsSlot(op, t, q)
    ensures SameChain(op, t, r.e) && Size(r.e) <= Size(t)
    decreases Size(t), ChainSize(op, At(op, t, p)), ChainSize(op, At(op, t, q))
  {
    if IsOp(op, At(op, t, p)) then
      SlotChild(op, t, p, false);
      SlotChild(op, t, p, true);
      var x := Dups1(op, t, p + [false], q);
      GoOn(op, t, x.e, p + [true]);
      GoOn(op, t, x.e, q);
      var y := Dups1(op, x.e, p + [true], q);
      SameChainTrans(op, t, x.e, y.e);
      Rewrite(y.e, x.count + y.count)
    else if IsOp(op, At(op, t, q)) then
      SlotChild(op, t, q, false);
      SlotChild(op, t, q, true);
      var x := Dups1(op, t, p, q + [false]);
      GoOn(op, t, x.e, q + [true]);
      GoOn(op, t, x.e, p);
      var y := Dups1(op, x.e, p, q + [true]);
      SameChainTrans(op, t, x.e, y.e);
      Rewrite(y.e, x.count + y.count)
    else if p == q then
      SameChainRefl(op, t);
      Rewrite(t, 0)
    else
      OperandsAreBelow(op, t, p, q);
      var a := At(op, t, p);
      var inner := if a.Bin? then Dups1(a.op, a, [], []) else Rewrite(a, 0);
      var u := Put(op, t, p, inner.e);
      PutOperand(op, t, p, inner.e);
      PutThenAt(op, t, p, inner.e, p);
      PutThenAt(op, t, p, inner.e, q);
      var j := JoinOperands(op, u, p, q);
      SameChainTrans(op, t, u, j.e);
      Rewrite(j.e, inner.count + j.count)
  }

  /** The test in expr_eliminate_dups2: every operand of the negation of `a` is an operand of `b`. */
  predicate Contradicts(op: Op, a: Expr, b: Expr) {
    ExtractCommon(op, Transform(Not(a)), b).a == Identity(op)
  }

  /** The end of expr_eliminate_dups2, for an operand `a` that is a chain of the other connective. */
  function RefuteOperand(op: Op, t: Expr, p: Path, q: Path): (r: Rewrite)
    requires IsOperand(op, t, p) && IsSlot(op, t, q)
    ensures SameChain(op, t, r.e) && Size(r.e) <= Size(t)
  {
    if Contradicts(op, At(op, t, p), At(op, t, q)) then
      PutOperand(op, t, p, Annihilator(op));
      Rewrite(Put(op, t, p, Annihilator(op)), 1)
    else
      SameChainRefl(op, t);
      Rewrite(t, 0)
  }

  /** `expr_eliminate_dups2(op, ep, eq)`: unlike the first pass it goes on to compare the operand with
      the whole chain in `q` after having compared it with both parts of that chain. */
  function Dups2(op: Op, t: Expr, p: Path, q: Path): (r: Rewrite)
    requires IsSlot(op, t, p) && IsSlot(op, t, q)
    ensures SameChain(op, t, r.e) && Size(r.e) <= Size(t)
    decreases Size(t), ChainSize(op, At(op, t, p)), ChainSize(op, At(op, t, q))
  {
    if IsOp(op, At(op, t, p)) then
      SlotChild(op, t, p, false);
      SlotChild(op, t, p, true);
      var x := Dups2(op, t, p + [false], q);
      GoOn(op, t, x.e, p + [true]);
      GoOn(op, t, x.e, q);
      var y := Dups2(op, x.e, p + [true], q);
      SameChainTrans(op, t, x.e, y.e);
      Rewrite(y.e, x.count + y.count)
    else
      var d := Dups2Parts(op, t, p, q);
      GoOn(op, t, d.e, p);
      GoOn(op, t, d.e, q);
      if p == q || !At(op, d.e, p).Bin? then d
      else
        OperandsAreBelow(op, d.e, p, q);
        var a := At(op, d.e, p);
        var inner := Dups2(a.op, a, [], []);
        var u := Put(op, d.e, p, inner.e);
        PutOperand(op, d.e, p, inner.e);
        PutThenAt(op, d.e, p, inner.e, p);
        GoOn(op, d.e, u, q);
        var s := RefuteOperand(op, u, p, q);
        SameChainTrans(op, t, d.e, u);
        SameChainTrans(op, t, u, s.e);
        Rewrite(s.e, d.count + inner.count + s.count)
  }

  /** The second `if` of expr_eliminate_dups2, which falls through. */
  function Dups2Parts(op: Op, t: Expr, p: Path, q: Path): (r: Rewrite)
    requires IsOperand(op, t, p) && IsSlot(op, t, q)
    ensures SameChain(op, t, r.e) && Size(r.e) <= Size(t)
    decreases Size(t), ChainSize(op, At(op, t, p)), ChainSize(op, At(op, t, q)), 0
  {
    if IsOp(op, At(op, t, q)) then
      SlotChild(op, t, q, false);
      SlotChild(op, t, q, true);
      var x := Dups2(op, t, p, q + [false]);
      GoOn(op, t, x.e, q + [true]);
      GoOn(op, t, x.e, p);
      var y := Dups2(op, x.e, p, q + [true]);
      SameChainTrans(op, t, x.e, y.e);
      Rewrite(y.e, x.count + y.count)
    else
      SameChainRefl(op, t);
      Rewrite(t, 0)
  }

  /** One round of the loop of expr_eliminate_dups: both passes at the root. */
  function Round(e: Expr): Rewrite {
    if e.Bin? then
      var x := Dups1(e.op, e, [], []);
      var y := Dups2(e.op, x.e, [], []);
      Rewrite(y.e, x.count + y.count)
    else
      Rewrite(e, 0)
  }
}

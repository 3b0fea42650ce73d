/** What duplicate elimination keeps, and why its loop ends. */
module DupsProofsModule {
  import opened KconfigExpr
  import opened EliminateYnModule
  import opened TransformModule
  import opened JoinsModule
  import opened ExtractEqModule
  import opened SlotsModule
  import opened DupsModule

  /** `w` agrees with `v` unless `v` is `m`. */
  predicate Keeps(v: Tristate, w: Tristate) {
    v != MOD ==> w == v
  }

  /** Minimum and maximum hide a changed `m` or pass it on, but never turn it into a changed `y` or `n`. */
  lemma ApplyKeeps(op: Op, v: Tristate, w: Tristate, c: Tristate)
    requires Keeps(v, w)
    ensures Keeps(Apply(op, v, c), Apply(op, w, c))
  {
  }

  // ----- the first pass -----

  lemma JoinOperandsKeepsValue(op: Op, t: Expr, p: Path, q: Path, env: Env)
    requires IsOperand(op, t, p) && IsOperand(op, t, q) && p != q
    requires BooleansNeverMod(env)
    ensures Value(JoinOperands(op, t, p, q).e, env) == Value(t, env)
  {
    var a, b := At(op, t, p), At(op, t, q);
    match Join(op, a, b)
    case None =>
    case Some(j) =>
      JoinKeepsValue(op, a, b, env);
      IdentityIsNeutral(op, Value(j, env), env);
      TwoOperands(op, t, p, q, Identity(op), j, env);
  }

  /** Where the first pass writes: the second operand becomes the join, the first one the identity, and no other
      operand changes. So of equal operands the last one stays. */
  lemma JoinGoesToSecond(op: Op, t: Expr, p: Path, q: Path, i: Path)
    requires IsOperand(op, t, p) && IsOperand(op, t, q) && p != q && IsOperand(op, t, i)
    ensures var (a, b) := (At(op, t, p), At(op, t, q));
            var r := JoinOperands(op, t, p, q);
            && (r.count == 1 <==> Join(op, a, b).Some?) && r.count <= 1 && IsOperand(op, r.e, i)
            && At(op, r.e, i) == (if r.count == 0 then At(op, t, i)
                                  else if i == q then Join(op, a, b).value
                                  else if i == p then Identity(op) else At(op, t, i))
  {
    var (a, b) := (At(op, t, p), At(op, t, q));
    match Join(op, a, b)
    case None =>
    case Some(j) =>
      JoinIsSmall(op, a, b);
      PutThenAt(op, t, p, Identity(op), q);
      PutThenAt(op, t, p, Identity(op), i);
      PutThenAt(op, Put(op, t, p, Identity(op)), q, j, i);
  }

  lemma IdentityIsNeutral(op: Op, v: Tristate, env: Env)
    ensures Apply(op, Value(Identity(op), env), v) == v
  {
  }

  /** The first pass keeps the value in every environment where booleans are never `m`. */
  lemma {:induction false} Dups1KeepsValue(op: Op, t: Expr, p: Path, q: Path, env: Env)
    requires IsSlot(op, t, p) && IsSlot(op, t, q) && BooleansNeverMod(env)
    ensures Value(Dups1(op, t, p, q).e, env) == Value(t, env)
    decreases Size(t), ChainSize(op, At(op, t, p)), ChainSize(op, At(op, t, q))
  {
    if IsOp(op, At(op, t, p)) {
      SlotChild(op, t, p, false);
      SlotChild(op, t, p, true);
      var x := Dups1(op, t, p + [false], q);
      GoOn(op, t, x.e, p + [true]);
      GoOn(op, t, x.e, q);
      Dups1KeepsValue(op, t, p + [false], q, env);
      Dups1KeepsValue(op, x.e, p + [true], q, env);
    } else if IsOp(op, At(op, t, q)) {
      SlotChild(op, t, q, false);
      SlotChild(op, t, q, true);
      var x := Dups1(op, t, p, q + [false]);
      GoOn(op, t, x.e, q + [true]);
      GoOn(op, t, x.e, p);
      Dups1KeepsValue(op, t, p, q + [false], env);
      Dups1KeepsValue(op, x.e, p, q + [true], env);
    } else if p != q {
      OperandsAreBelow(op, t, p, q);
      var a := At(op, t, p);
      var inner := if a.Bin? then Dups1(a.op, a, [], []) else Rewrite(a, 0);
      if a.Bin? {
        Dups1KeepsValue(a.op, a, [], [], env);
      }
      ValueAtSlot(op, t, p, inner.e, env);
      PutThenAt(op, t, p, inner.e, p);
      PutThenAt(op, t, p, inner.e, q);
      JoinOperandsKeepsValue(op, Put(op, t, p, inner.e), p, q, env);
    }
  }

  // ----- the second pass -----

  /** When the test of the second pass succeeds, the two operands are never both `y` (for a
      conjunction; never both `n` for a disjunction), so their combination is the annihilator
      exactly when they are not both `m`. */
  lemma ContradictsExactlyWhen(op: Op, a: Expr, b: Expr, env: Env)
    requires Contradicts(op, a, b) && BooleansNeverMod(env)
    ensures Apply(op, Value(a, env), Value(b, env)) == Value(Annihilator(op), env)
            <==> !(Value(a, env) == MOD && Value(b, env) == MOD)
  {
    var n := Transform(Not(a));
    TransformKeepsValue(Not(a), env);
    ExtractCommonFactors(op, n, b, env);
    var r := ExtractCommon(op, n, b);
    IdentityIsNeutral(op, CommonValue(op, r.common, env), env);
  }

  lemma {:induction false} ChainBoundedBySlot(op: Op, t: Expr, p: Path, env: Env)
    requires IsSlot(op, t, p)
    ensures Apply(op, Value(At(op, t, p), env), Value(t, env)) == Value(t, env)
  {
    ValueAtSlot(op, t, p, t, env);
  }

  /** Where the second pass writes: a refuted operand becomes the annihilator, and no other one changes. */
  lemma RefutedIsReplaced(op: Op, t: Expr, p: Path, q: Path, i: Path)
    requires IsOperand(op, t, p) && IsSlot(op, t, q) && IsOperand(op, t, i)
    ensures var r := RefuteOperand(op, t, p, q);
            && IsOperand(op, r.e, i)
            && At(op, r.e, i) == if r.count == 1 && i == p then Annihilator(op) else At(op, t, i)
  {
    PutThenAt(op, t, p, Annihilator(op), i);
  }

  lemma RefuteOperandKeeps(op: Op, t: Expr, p: Path, q: Path, env: Env)
    requires IsOperand(op, t, p) && IsSlot(op, t, q) && BooleansNeverMod(env)
    ensures Keeps(Value(t, env), Value(RefuteOperand(op, t, p, q).e, env))
  {
    var a, b := At(op, t, p), At(op, t, q);
    if Contradicts(op, a, b) {
      ContradictsExactlyWhen(op, a, b, env);
      ChainBoundedBySlot(op, t, p, env);
      ChainBoundedBySlot(op, t, q, env);
      ValueAtSlot(op, t, p, Annihilator(op), env);
    }
  }

  lemma {:induction false} Dups2Keeps(op: Op, t: Expr, p: Path, q: Path, env: Env)
    requires IsSlot(op, t, p) && IsSlot(op, t, q) && BooleansNeverMod(env)
    ensures Keeps(Value(t, env), Value(Dups2(op, t, p, q).e, env))
    decreases Size(t), ChainSize(op, At(op, t, p)), ChainSize(op, At(op, t, q))
  {
    if IsOp(op, At(op, t, p)) {
      SlotChild(op, t, p, false);
      SlotChild(op, t, p, true);
      var x := Dups2(op, t, p + [false], q);
      GoOn(op, t, x.e, p + [true]);
      GoOn(op, t, x.e, q);
      Dups2Keeps(op, t, p + [false], q, env);
      Dups2Keeps(op, x.e, p + [true], q, env);
    } else {
      var d := Dups2Parts(op, t, p, q);
      GoOn(op, t, d.e, p);
      GoOn(op, t, d.e, q);
      Dups2PartsKeeps(op, t, p, q, env);
      if p != q && At(op, d.e, p).Bin? {
        OperandsAreBelow(op, d.e, p, q);
        var a := At(op, d.e, p);
        var inner := Dups2(a.op, a, [], []);
        var u := Put(op, d.e, p, inner.e);
        Dups2Keeps(a.op, a, [], [], env);
        ValueAtSlot(op, d.e, p, inner.e, env);
        ApplyKeeps(op, Value(a, env), Value(inner.e, env), Rest(op, d.e, p, env));
        PutOperand(op, d.e, p, inner.e);
        PutThenAt(op, d.e, p, inner.e, p);
        GoOn(op, d.e, u, q);
        RefuteOperandKeeps(op, u, p, q, env);
      }
    }
  }

  lemma {:induction false} Dups2PartsKeeps(op: Op, t: Expr, p: Path, q: Path, env: Env)
    requires IsOperand(op, t, p) && IsSlot(op, t, q) && BooleansNeverMod(env)
    ensures Keeps(Value(t, env), Value(Dups2Parts(op, t, p, q).e, env))
    decreases Size(t), ChainSize(op, At(op, t, p)), ChainSize(op, At(op, t, q)), 0
  {
    if IsOp(op, At(op, t, q)) {
      SlotChild(op, t, q, false);
      SlotChild(op, t, q, true);
      var x := Dups2(op, t, p, q + [false]);
      GoOn(op, t, x.e, q + [true]);
      GoOn(op, t, x.e, p);
      Dups2Keeps(op, t, p, q + [false], env);
      Dups2Keeps(op, x.e, p, q + [true], env);
    }
  }

  // ----- progress -----

  lemma JoinOperandsFoldable(op: Op, t: Expr, p: Path, q: Path)
    requires IsOperand(op, t, p) && IsOperand(op, t, q) && p != q
    ensures HasFoldable(t) || JoinOperands(op, t, p, q).count > 0 ==> HasFoldable(JoinOperands(op, t, p, q).e)
  {
    match Join(op, At(op, t, p), At(op, t, q))
    case None =>
    case Some(j) =>
      OperandsAreBelow(op, t, p, q);
      OperandsAreBelow(op, t, q, p);
      var u := Put(op, t, p, Identity(op));
      JoinIsSmall(op, At(op, t, p), At(op, t, q));
      PutThenAt(op, t, p, Identity(op), q);
      ConstantBesideOperand(op, t, p, Identity(op), q, j);
  }

  /** A constant operand stays foldable whatever is written to another operand. */
  lemma {:induction false} ConstantBesideOperand(op: Op, t: Expr, p: Path, c: Expr, q: Path, j: Expr)
    requires IsOperand(op, t, p) && IsOperand(op, t, q) && p != q && IsYesOrNo(c)
    ensures IsOperand(op, Put(op, t, p, c), q)
    ensures HasFoldable(Put(op, Put(op, t, p, c), q, j))
  {
    PutThenAt(op, t, p, c, q);
    assert p != [] && q != [];
    var pc := Child(t, p[0]);
    if p[0] == q[0] {
      assert p == [p[0]] + p[1..] && q == [q[0]] + q[1..];
      ConstantBesideOperand(op, pc, p[1..], c, q[1..], j);
    } else if |p| > 1 {
      PutFoldable(op, pc, p[1..], c);
    } else {
      assert p[1..] == [];
    }
  }

  lemma {:induction false} Dups1Foldable(op: Op, t: Expr, p: Path, q: Path)
    requires IsSlot(op, t, p) && IsSlot(op, t, q)
    ensures HasFoldable(t) || Dups1(op, t, p, q).count > 0 ==> HasFoldable(Dups1(op, t, p, q).e)
    decreases Size(t), ChainSize(op, At(op, t, p)), ChainSize(op, At(op, t, q))
  {
    if IsOp(op, At(op, t, p)) {
      SlotChild(op, t, p, false);
      SlotChild(op, t, p, true);
      var x := Dups1(op, t, p + [false], q);
      GoOn(op, t, x.e, p + [true]);
      GoOn(op, t, x.e, q);
      Dups1Foldable(op, t, p + [false], q);
      Dups1Foldable(op, x.e, p + [true], q);
    } else if IsOp(op, At(op, t, q)) {
      SlotChild(op, t, q, false);
      SlotChild(op, t, q, true);
      var x := Dups1(op, t, p, q + [false]);
      GoOn(op, t, x.e, q + [true]);
      GoOn(op, t, x.e, p);
      Dups1Foldable(op, t, p, q + [false]);
      Dups1Foldable(op, x.e, p, q + [true]);
    } else if p != q {
      OperandsAreBelow(op, t, p, q);
      var a := At(op, t, p);
      var inner := if a.Bin? then Dups1(a.op, a, [], []) else Rewrite(a, 0);
      if a.Bin? {
        Dups1Foldable(a.op, a, [], []);
      }
      PutFoldable(op, t, p, inner.e);
      PutThenAt(op, t, p, inner.e, p);
      PutThenAt(op, t, p, inner.e, q);
      JoinOperandsFoldable(op, Put(op, t, p, inner.e), p, q);
    }
  }

  lemma RefuteOperandFoldable(op: Op, t: Expr, p: Path, q: Path)
    requires IsOperand(op, t, p) && IsSlot(op, t, q) && p != []
    ensures HasFoldable(t) || RefuteOperand(op, t, p, q).count > 0 ==> HasFoldable(RefuteOperand(op, t, p, q).e)
  {
    PutFoldable(op, t, p, Annihilator(op));
  }

  lemma {:induction false} Dups2Foldable(op: Op, t: Expr, p: Path, q: Path)
    requires IsSlot(op, t, p) && IsSlot(op, t, q)
    ensures HasFoldable(t) || Dups2(op, t, p, q).count > 0 ==> HasFoldable(Dups2(op, t, p, q).e)
    decreases Size(t), ChainSize(op, At(op, t, p)), ChainSize(op, At(op, t, q))
  {
    if IsOp(op, At(op, t, p)) {
      SlotChild(op, t, p, false);
      SlotChild(op, t, p, true);
      var x := Dups2(op, t, p + [false], q);
      GoOn(op, t, x.e, p + [true]);
      GoOn(op, t, x.e, q);
      Dups2Foldable(op, t, p + [false], q);
      Dups2Foldable(op, x.e, p + [true], q);
    } else {
      var d := Dups2Parts(op, t, p, q);
      GoOn(op, t, d.e, p);
      GoOn(op, t, d.e, q);
      Dups2PartsFoldable(op, t, p, q);
      if p != q && At(op, d.e, p).Bin? {
        OperandsAreBelow(op, d.e, p, q);
        var a := At(op, d.e, p);
        Dups2Foldable(a.op, a, [], []);
        Dups2StepFoldable(op, d.e, p, q, Dups2(a.op, a, [], []));
      }
    }
  }

  /** What remains after the second pass over the parts: over the operand itself, then its refutation. */
  lemma Dups2StepFoldable(op: Op, t: Expr, p: Path, q: Path, inner: Rewrite)
    requires IsOperand(op, t, p) && IsSlot(op, t, q) && p != []
    requires !IsOp(op, inner.e) && At(op, t, p).Bin?
    requires HasFoldable(At(op, t, p)) || inner.count > 0 ==> HasFoldable(inner.e)
    ensures var u := Put(op, t, p, inner.e);
            && IsOperand(op, u, p) && IsSlot(op, u, q)
            && (HasFoldable(t) || inner.count + RefuteOperand(op, u, p, q).count > 0
                ==> HasFoldable(RefuteOperand(op, u, p, q).e))
  {
    var u := Put(op, t, p, inner.e);
    PutFoldable(op, t, p, inner.e);
    PutOperand(op, t, p, inner.e);
    PutThenAt(op, t, p, inner.e, p);
    GoOn(op, t, u, q);
    RefuteOperandFoldable(op, u, p, q);
  }

  lemma {:induction false} Dups2PartsFoldable(op: Op, t: Expr, p: Path, q: Path)
    requires IsOperand(op, t, p) && IsSlot(op, t, q)
    ensures HasFoldable(t) || Dups2Parts(op, t, p, q).count > 0 ==> HasFoldable(Dups2Parts(op, t, p, q).e)
    decreases Size(t), ChainSize(op, At(op, t, p)), ChainSize(op, At(op, t, q)), 0
  {
    if IsOp(op, At(op, t, q)) {
      SlotChild(op, t, q, false);
      SlotChild(op, t, q, true);
      var x := Dups2(op, t, p, q + [false]);
      GoOn(op, t, x.e, q + [true]);
      GoOn(op, t, x.e, p);
      Dups2Foldable(op, t, p, q + [false]);
      Dups2Foldable(op, x.e, p, q + [true]);
    }
  }

  /** A round that rewrites anything leaves a constant to fold, so the tree shrinks strictly. */
  lemma RoundShrinks(e: Expr)
    requires Round(e).count > 0
    ensures Size(EliminateYn(Round(e).e)) < Size(e)
  {
    var x := Dups1(e.op, e, [], []);
    Dups1Foldable(e.op, e, [], []);
    Dups2Foldable(e.op, x.e, [], []);
    EliminateYnFolds(Round(e).e);
  }

  lemma RoundKeeps(e: Expr, env: Env)
    requires BooleansNeverMod(env)
    ensures Keeps(Value(e, env), Value(Round(e).e, env))
  {
    if e.Bin? {
      Dups1KeepsValue(e.op, e, [], [], env);
      Dups2Keeps(e.op, Dups1(e.op, e, [], []).e, [], [], env);
    }
  }
}

/** A `struct expr **` that walks down the operands of one connective, modelled as a path.
    Two such pointers are the same slot exactly when their paths are equal. */
module SlotsModule {
  import opened KconfigExpr
  import opened EliminateYnModule

  /** `false` goes to the left operand, `true` to the right one. */
  type Path = seq<bool>

  /** The path leads through `op` nodes only (where it ends may be anything). */
  predicate IsSlot(op: Op, t: Expr, p: Path) {
    p == [] || (IsOp(op, t) && IsSlot(op, Child(t, p[0]), p[1..]))
  }

  function Child(t: Expr, right: bool): Expr
    requires t.Bin?
  {
    if right then t.r else t.l
  }

  /** `*ep`. */
  function At(op: Op, t: Expr, p: Path): Expr
    requires IsSlot(op, t, p)
  {
    if p == [] then t else At(op, Child(t, p[0]), p[1..])
  }

  /** `*ep = x`. */
  function Put(op: Op, t: Expr, p: Path, x: Expr): Expr
    requires IsSlot(op, t, p)
  {
    if p == [] then x
    else if p[0] then Bin(op, t.l, Put(op, t.r, p[1..], x))
    else Bin(op, Put(op, t.l, p[1..], x), t.r)
  }

  /** A slot that holds an operand rather than a longer chain. */
  predicate IsOperand(op: Op, t: Expr, p: Path) {
    IsSlot(op, t, p) && !IsOp(op, At(op, t, p))
  }

  /** `u` has the same `op` nodes as `t`; only operands differ. */
  predicate SameChain(op: Op, t: Expr, u: Expr) {
    if IsOp(op, t) then IsOp(op, u) && SameChain(op, t.l, u.l) && SameChain(op, t.r, u.r)
    else !IsOp(op, u)
  }

  /** The number of `op` nodes and operands of a chain. */
  function ChainSize(op: Op, t: Expr): nat {
    if IsOp(op, t) then 1 + ChainSize(op, t.l) + ChainSize(op, t.r) else 1
  }

  lemma {:induction false} SameChainRefl(op: Op, t: Expr)
    ensures SameChain(op, t, t)
  {
    if IsOp(op, t) {
      SameChainRefl(op, t.l);
      SameChainRefl(op, t.r);
    }
  }

  lemma {:induction false} SameChainTrans(op: Op, t: Expr, u: Expr, w: Expr)
    requires SameChain(op, t, u) && SameChain(op, u, w)
    ensures SameChain(op, t, w)
  {
    if IsOp(op, t) {
      SameChainTrans(op, t.l, u.l, w.l);
      SameChainTrans(op, t.r, u.r, w.r);
    }
  }

  /** Slots stay slots while only operands change. */
  lemma {:induction false} SameChainSlot(op: Op, t: Expr, u: Expr, p: Path)
    requires SameChain(op, t, u) && IsSlot(op, t, p)
    ensures IsSlot(op, u, p) && SameChain(op, At(op, t, p), At(op, u, p))
  {
    if p != [] {
      SameChainSlot(op, Child(t, p[0]), Child(u, p[0]), p[1..]);
    }
  }

  lemma {:induction false} SameChainSize(op: Op, t: Expr, u: Expr)
    requires SameChain(op, t, u)
    ensures ChainSize(op, t) == ChainSize(op, u)
  {
    if IsOp(op, t) {
      SameChainSize(op, t.l, u.l);
      SameChainSize(op, t.r, u.r);
    }
  }

  /** Both operands of a chain in a slot are slots themselves. */
  lemma {:induction false} SlotChild(op: Op, t: Expr, p: Path, right: bool)
    requires IsSlot(op, t, p) && IsOp(op, At(op, t, p))
    ensures IsSlot(op, t, p + [right]) && At(op, t, p + [right]) == Child(At(op, t, p), right)
  {
    if p == [] {
      assert (p + [right])[1..] == [];
    } else {
      assert (p + [right])[1..] == p[1..] + [right];
      SlotChild(op, Child(t, p[0]), p[1..], right);
    }
  }

  /** Writing an operand: the chain stays, the size changes by the difference. */
  lemma {:induction false} PutOperand(op: Op, t: Expr, p: Path, x: Expr)
    requires IsOperand(op, t, p) && !IsOp(op, x)
    ensures SameChain(op, t, Put(op, t, p, x))
    ensures Size(Put(op, t, p, x)) == Size(t) - Size(At(op, t, p)) + Size(x)
    ensures Size(At(op, t, p)) <= Size(t)
    ensures p != [] ==> Size(At(op, t, p)) < Size(t)
  {
    if p != [] {
      PutOperand(op, Child(t, p[0]), p[1..], x);
      SameChainRefl(op, t.l);
      SameChainRefl(op, t.r);
    }
  }

  /** Reading back: the written slot holds the new operand, every other operand its old one. */
  lemma {:induction false} PutThenAt(op: Op, t: Expr, p: Path, x: Expr, q: Path)
    requires IsOperand(op, t, p) && !IsOp(op, x) && IsOperand(op, t, q)
    ensures IsOperand(op, Put(op, t, p, x), q)
    ensures At(op, Put(op, t, p, x), q) == if p == q then x else At(op, t, q)
  {
    if p != [] && q != [] {
      if p[0] == q[0] {
        PutThenAt(op, Child(t, p[0]), p[1..], x, q[1..]);
        assert p == [p[0]] + p[1..] && q == [q[0]] + q[1..];
      }
    }
  }

  /** Written back unchanged, an operand leaves the tree as it was. */
  lemma {:induction false} PutSame(op: Op, t: Expr, p: Path)
    requires IsSlot(op, t, p)
    ensures Put(op, t, p, At(op, t, p)) == t
  {
    if p != [] {
      PutSame(op, Child(t, p[0]), p[1..]);
    }
  }

  /** The value the rest of the chain contributes beside the operand in `p`. */
  ghost function Rest(op: Op, t: Expr, p: Path, env: Env): Tristate
    requires IsSlot(op, t, p)
  {
    if p == [] then Value(Identity(op), env)
    else Apply(op, Value(Child(t, !p[0]), env), Rest(op, Child(t, p[0]), p[1..], env))
  }

  lemma ApplyRotates(op: Op, a: Tristate, b: Tristate, c: Tristate)
    ensures Apply(op, Apply(op, a, b), c) == Apply(op, a, Apply(op, c, b))
    ensures Apply(op, c, Apply(op, a, b)) == Apply(op, a, Apply(op, c, b))
  {
  }

  /** A chain is the operand in any of its slots, combined with the rest. */
  lemma {:induction false} ValueAtSlot(op: Op, t: Expr, p: Path, x: Expr, env: Env)
    requires IsSlot(op, t, p)
    ensures Value(t, env) == Apply(op, Value(At(op, t, p), env), Rest(op, t, p, env))
    ensures Value(Put(op, t, p, x), env) == Apply(op, Value(x, env), Rest(op, t, p, env))
  {
    if p != [] {
      var c := Child(t, p[0]);
      ValueAtSlot(op, c, p[1..], x, env);
      var rest, side := Rest(op, c, p[1..], env), Value(Child(t, !p[0]), env);
      ApplyRotates(op, Value(At(op, c, p[1..]), env), rest, side);
      ApplyRotates(op, Value(x, env), rest, side);
    }
  }

  lemma ApplyTwice(op: Op, a: Tristate, b: Tristate, x: Tristate, y: Tristate, c: Tristate, d: Tristate)
    requires Apply(op, a, b) == Apply(op, x, y)
    ensures Apply(op, Apply(op, a, c), Apply(op, b, d)) == Apply(op, Apply(op, x, c), Apply(op, y, d))
    ensures Apply(op, Apply(op, b, d), Apply(op, a, c)) == Apply(op, Apply(op, y, d), Apply(op, x, c))
  {
  }

  /** Replacing two different operands by two others with the same combined value keeps the value. */
  lemma {:induction false} TwoOperands(op: Op, t: Expr, p: Path, q: Path, x: Expr, y: Expr, env: Env)
    requires IsOperand(op, t, p) && IsOperand(op, t, q) && p != q && !IsOp(op, x)
    requires Apply(op, Value(At(op, t, p), env), Value(At(op, t, q), env)) == Apply(op, Value(x, env), Value(y, env))
    ensures IsSlot(op, Put(op, t, p, x), q)
    ensures Value(Put(op, Put(op, t, p, x), q, y), env) == Value(t, env)
  {
    PutThenAt(op, t, p, x, q);
    assert p != [] && q != [];
    var pc, qc := Child(t, p[0]), Child(t, q[0]);
    if p[0] == q[0] {
      assert p == [p[0]] + p[1..] && q == [q[0]] + q[1..];
      TwoOperands(op, pc, p[1..], q[1..], x, y, env);
    } else {
      ValueAtSlot(op, pc, p[1..], x, env);
      ValueAtSlot(op, qc, q[1..], y, env);
      ApplyTwice(op, Value(At(op, t, p), env), Value(At(op, t, q), env), Value(x, env), Value(y, env),
                 Rest(op, pc, p[1..], env), Rest(op, qc, q[1..], env));
    }
  }

  /** A constant written to an operand of a chain can be folded away. */
  lemma {:induction false} PutFoldable(op: Op, t: Expr, p: Path, x: Expr)
    requires IsOperand(op, t, p) && p != []
    ensures IsYesOrNo(x) || HasFoldable(x) ==> HasFoldable(Put(op, t, p, x))
    ensures && HasFoldable(t)
            && (HasFoldable(At(op, t, p)) ==> HasFoldable(x)) && (IsYesOrNo(At(op, t, p)) ==> IsYesOrNo(x))
            ==> HasFoldable(Put(op, t, p, x))
  {
    if |p| > 1 {
      PutFoldable(op, Child(t, p[0]), p[1..], x);
    } else {
      assert p[1..] == [];
      assert At(op, t, p) == Child(t, p[0]);
      assert Put(op, t, p, x) == if p[0] then Bin(op, t.l, x) else Bin(op, x, t.r);
    }
  }
}

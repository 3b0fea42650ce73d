/** Pulling out common operands: expr_extract_eq, expr_extract_eq_and and expr_extract_eq_or
    (scripts/kconfig/expr.c). */
module ExtractEqModule {
  import opened Common
  import opened KconfigExpr
  import opened EliminateYnModule
  import opened ExprEqModule

  datatype Extraction = Extraction(common: Option<Expr>, a: Expr, b: Expr)

  /** `expr_extract_eq(op, &common, &a, &b)`: equal operands move from both trees to `common`. */
  function ExtractEq(op: Op, common: Option<Expr>, a: Expr, b: Expr): (r: Extraction)
    ensures Size(r.a) <= Size(a) && Size(r.b) <= Size(b)
    decreases Size(a) + Size(b)
  {
    if IsOp(op, a) then
      var x := ExtractEq(op, common, a.l, b);
      var y := ExtractEq(op, x.common, a.r, x.b);
      Extraction(y.common, Bin(op, x.a, y.a), y.b)
    else if IsOp(op, b) then
      var x := ExtractEq(op, common, a, b.l);
      var y := ExtractEq(op, x.common, x.a, b.r);
      Extraction(y.common, y.a, Bin(op, x.b, y.b))
    else if ExprEq(a, b) then
      Extraction(Some(if common.Some? then Bin(op, common.value, a) else a), Identity(op), Identity(op))
    else
      Extraction(common, a, b)
  }

  /** `expr_extract_eq_and` and `expr_extract_eq_or`: folding only when something was extracted. */
  function ExtractCommon(op: Op, a: Expr, b: Expr): Extraction {
    var x := ExtractEq(op, None, a, b);
    if x.common.Some? then Extraction(x.common, EliminateYn(x.a), EliminateYn(x.b)) else x
  }

  /** The value of what was extracted so far; nothing counts as the identity. */
  ghost function CommonValue(op: Op, common: Option<Expr>, env: Env): Tristate {
    if common.Some? then Value(common.value, env) else Value(Identity(op), env)
  }

  /** One value `c` goes from both trees to the common part. */
  lemma {:induction false} ExtractEqMoves(op: Op, common: Option<Expr>, a: Expr, b: Expr, env: Env)
      returns (c: Tristate)
    ensures var r := ExtractEq(op, common, a, b);
            && Value(a, env) == Apply(op, Value(r.a, env), c)
            && Value(b, env) == Apply(op, Value(r.b, env), c)
            && CommonValue(op, r.common, env) == Apply(op, CommonValue(op, common, env), c)
    decreases Size(a) + Size(b)
  {
    if IsOp(op, a) {
      var x := ExtractEq(op, common, a.l, b);
      var y := ExtractEq(op, x.common, a.r, x.b);
      assert ExtractEq(op, common, a, b) == Extraction(y.common, Bin(op, x.a, y.a), y.b);
      var c1 := ExtractEqMoves(op, common, a.l, b, env);
      var c2 := ExtractEqMoves(op, x.common, a.r, x.b, env);
      c := Apply(op, c1, c2);
      MovesAddUp(op, Value(x.a, env), Value(y.a, env), Value(y.b, env), CommonValue(op, common, env), c1, c2);
    } else if IsOp(op, b) {
      var x := ExtractEq(op, common, a, b.l);
      var y := ExtractEq(op, x.common, x.a, b.r);
      assert ExtractEq(op, common, a, b) == Extraction(y.common, y.a, Bin(op, x.b, y.b));
      var c1 := ExtractEqMoves(op, common, a, b.l, env);
      var c2 := ExtractEqMoves(op, x.common, x.a, b.r, env);
      c := Apply(op, c1, c2);
      MovesAddUp(op, Value(x.b, env), Value(y.b, env), Value(y.a, env), CommonValue(op, common, env), c1, c2);
    } else if ExprEq(a, b) {
      ExprEqIsSound(a, b, env);
      c := Value(a, env);
    } else {
      c := Value(Identity(op), env);
    }
  }

  lemma MovesAddUp(op: Op, l: Tristate, r: Tristate, z: Tristate, k: Tristate, c: Tristate, d: Tristate)
    ensures Apply(op, Apply(op, l, c), Apply(op, r, d)) == Apply(op, Apply(op, l, r), Apply(op, c, d))
    ensures Apply(op, Apply(op, z, d), c) == Apply(op, z, Apply(op, c, d))
    ensures Apply(op, Apply(op, k, c), d) == Apply(op, k, Apply(op, c, d))
  {
  }

  /** Extraction factors both expressions: each is what is left of it combined with the common part. */
  lemma ExtractCommonFactors(op: Op, a: Expr, b: Expr, env: Env)
    ensures var r := ExtractCommon(op, a, b);
            && Value(a, env) == Apply(op, Value(r.a, env), CommonValue(op, r.common, env))
            && Value(b, env) == Apply(op, Value(r.b, env), CommonValue(op, r.common, env))
  {
    var x := ExtractEq(op, None, a, b);
    var c := ExtractEqMoves(op, None, a, b, env);
    EliminateYnKeepsValue(x.a, env);
    EliminateYnKeepsValue(x.b, env);
  }
}

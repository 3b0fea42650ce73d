/** Negation normal form: expr_transform (scripts/kconfig/expr.c). */
module TransformModule {
  import opened KconfigExpr

  /** A weight under which De Morgan's step, which adds a node, still makes progress. */
  function Weight(e: Expr): nat {
    match e
    case Sym(_) => 1
    case Equal(_, _) => 4
    case Unequal(_, _) => 4
    case Not(x) => 1 + 3 * Weight(x)
    case Bin(_, x, y) => 1 + Weight(x) + Weight(y)
  }

  lemma DeMorganIsLighter(op: Op, l: Expr, r: Expr)
    ensures Weight(Bin(DualOp(op), Not(l), Not(r))) < Weight(Not(Bin(op, l, r)))
  {
    assert Weight(Not(l)) == 1 + 3 * Weight(l) && Weight(Not(r)) == 1 + 3 * Weight(r);
    assert Weight(Bin(op, l, r)) == 1 + Weight(l) + Weight(r);
  }

  function DualOp(op: Op): Op {
    if op == AND then OR else AND
  }

  /** A boolean compared with one of the constants becomes the symbol, its negation or a constant. */
  function TransformEqual(l: Symbol, r: Symbol): Expr {
    if l.Type() != BOOLEAN then Equal(l, r)
    else match r
      case SymNo => Not(Sym(l))
      case SymMod => EXPR_NO
      case SymYes => Sym(l)
      case _ => Equal(l, r)
  }

  function TransformUnequal(l: Symbol, r: Symbol): Expr {
    if l.Type() != BOOLEAN then Unequal(l, r)
    else match r
      case SymNo => Sym(l)
      case SymMod => EXPR_YES
      case SymYes => Not(Sym(l))
      case _ => Unequal(l, r)
  }

  /** `expr_transform(e)`: operands first, then the node itself. */
  function Transform(e: Expr): (r: Expr)
    ensures Weight(r) <= Weight(e)
    decreases Weight(e), 1
  {
    match e
    case Sym(_) => e
    case Equal(l, r) => TransformEqual(l, r)
    case Unequal(l, r) => TransformUnequal(l, r)
    case Bin(op, l, r) => Bin(op, Transform(l), Transform(r))
    case Not(x) => TransformNot(Transform(x))
  }

  /** The E_NOT case of expr_transform, over an operand that is transformed already. */
  function TransformNot(x: Expr): (r: Expr)
    ensures Weight(r) <= Weight(Not(x))
    decreases Weight(Not(x)), 0
  {
    match x
    case Not(y) => Transform(y)
    case Equal(l, r) => Unequal(l, r)
    case Unequal(l, r) => Equal(l, r)
    case Bin(op, l, r) => DeMorganIsLighter(op, l, r); Transform(Bin(DualOp(op), Not(l), Not(r)))
    case Sym(SymYes) => EXPR_NO
    case Sym(SymMod) => Sym(SymMod)
    case Sym(SymNo) => EXPR_YES
    case Sym(_) => Not(x)
  }

  predicate IsStatic(s: Symbol) {
    s.SymYes? || s.SymMod? || s.SymNo?
  }

  /** A comparison the rules for booleans leave alone. */
  predicate PlainComparison(l: Symbol, r: Symbol) {
    l.Type() == BOOLEAN ==> !IsStatic(r)
  }

  /** Negations stand only over symbols other than y, m, n, and no boolean is compared with those. */
  predicate IsNormal(e: Expr) {
    match e
    case Sym(_) => true
    case Equal(l, r) => PlainComparison(l, r)
    case Unequal(l, r) => PlainComparison(l, r)
    case Not(x) => x.Sym? && !IsStatic(x.s)
    case Bin(_, x, y) => IsNormal(x) && IsNormal(y)
  }

  /** De Morgan's law for minimum and maximum. */
  lemma NegateApply(op: Op, a: Tristate, b: Tristate)
    ensures Negate(Apply(op, a, b)) == Apply(DualOp(op), Negate(a), Negate(b))
  {
  }

  lemma ComparisonKeepsValue(l: Symbol, r: Symbol, env: Env)
    requires BooleansNeverMod(env)
    ensures Value(TransformEqual(l, r), env) == Value(Equal(l, r), env)
    ensures Value(TransformUnequal(l, r), env) == Value(Unequal(l, r), env)
  {
    if l.Type() == BOOLEAN && IsStatic(r) {
      ComparesByValue(l, r, env);
      assert env.tri(Variable(l.name, BOOLEAN)) != MOD;
    }
  }

  /** expr_transform keeps the value wherever booleans are never `m`. */
  lemma {:induction false} TransformKeepsValue(e: Expr, env: Env)
    requires BooleansNeverMod(env)
    ensures Value(Transform(e), env) == Value(e, env)
    decreases Weight(e), 1
  {
    match e
    case Sym(_) =>
    case Equal(l, r) => ComparisonKeepsValue(l, r, env);
    case Unequal(l, r) => ComparisonKeepsValue(l, r, env);
    case Bin(_, l, r) =>
      TransformKeepsValue(l, env);
      TransformKeepsValue(r, env);
    case Not(x) =>
      TransformKeepsValue(x, env);
      TransformNotKeepsValue(Transform(x), env);
  }

  lemma {:induction false} TransformNotKeepsValue(x: Expr, env: Env)
    requires BooleansNeverMod(env)
    ensures Value(TransformNot(x), env) == Value(Not(x), env)
    decreases Weight(Not(x)), 0
  {
    match x
    case Not(y) =>
      assert Weight(x) == 1 + 3 * Weight(y);
      TransformKeepsValue(y, env);
    case Bin(op, l, r) =>
      DeMorganIsLighter(op, l, r);
      TransformKeepsValue(Bin(DualOp(op), Not(l), Not(r)), env);
      NegateApply(op, Value(l, env), Value(r, env));
    case _ =>
  }

  lemma {:induction false} TransformIsNormal(e: Expr)
    ensures IsNormal(Transform(e))
    decreases Weight(e), 1
  {
    match e
    case Bin(_, l, r) =>
      TransformIsNormal(l);
      TransformIsNormal(r);
    case Not(x) =>
      TransformIsNormal(x);
      TransformNotIsNormal(Transform(x));
    case _ =>
  }

  lemma {:induction false} TransformNotIsNormal(x: Expr)
    requires IsNormal(x)
    ensures IsNormal(TransformNot(x))
    decreases Weight(Not(x)), 0
  {
    match x
    case Not(y) =>
      assert Weight(x) == 1 + 3 * Weight(y);
      TransformIsNormal(y);
    case Bin(op, l, r) =>
      DeMorganIsLighter(op, l, r);
      TransformIsNormal(Bin(DualOp(op), Not(l), Not(r)));
    case _ =>
  }

  lemma {:induction false} NormalIsFixed(e: Expr)
    ensures IsNormal(e) <==> Transform(e) == e
  {
    if IsNormal(e) {
      if e.Bin? {
        NormalIsFixed(e.l);
        NormalIsFixed(e.r);
      }
    } else {
      TransformIsNormal(e);
    }
  }

  /** A second transformation changes nothing. */
  lemma TransformIsIdempotent(e: Expr)
    ensures Transform(Transform(e)) == Transform(e)
  {
    TransformIsNormal(e);
    NormalIsFixed(Transform(e));
  }

  // ----- the same in one pass -----

  /** Negation normal form without rewriting: one descent that remembers whether the number of negations above is
      odd, and settles comparisons of booleans on the way. */
  function Pushed(e: Expr, negated: bool): Expr {
    match e
    case Sym(s) => PushedSymbol(s, negated)
    case Equal(l, r) => PushedComparison(l, r, negated)
    case Unequal(l, r) => PushedComparison(l, r, !negated)
    case Not(x) => Pushed(x, !negated)
    case Bin(AND, l, r) => Bin(if negated then OR else AND, Pushed(l, negated), Pushed(r, negated))
    case Bin(OR, l, r) => Bin(if negated then AND else OR, Pushed(l, negated), Pushed(r, negated))
  }

  function PushedSymbol(s: Symbol, negated: bool): Expr {
    if !negated || s == SymMod then Sym(s)
    else if s == SymYes then EXPR_NO
    else if s == SymNo then EXPR_YES
    else Not(Sym(s))
  }

  /** `l = r`, or its negation. */
  function PushedComparison(l: Symbol, r: Symbol, negated: bool): Expr {
    if l.Type() != BOOLEAN || !IsStatic(r) then if negated then Unequal(l, r) else Equal(l, r)
    else if r == SymMod then if negated then EXPR_YES else EXPR_NO
    else if negated == (r == SymYes) then Not(Sym(l))
    else Sym(l)
  }

  /** Negating a connective negates both operands and exchanges it for the dual one. */
  lemma NegatedChain(op: Op, l: Expr, r: Expr)
    ensures Transform(Not(Bin(op, l, r))) == Bin(DualOp(op), Transform(Not(l)), Transform(Not(r)))
  {
    var x, y := Transform(l), Transform(r);
    TransformIsIdempotent(l);
    TransformIsIdempotent(r);
    assert Transform(Bin(op, l, r)) == Bin(op, x, y);
    assert TransformNot(Bin(op, x, y)) == Transform(Bin(DualOp(op), Not(x), Not(y)));
    assert Transform(Not(x)) == TransformNot(x) && Transform(Not(y)) == TransformNot(y);
  }

  /** Two negations cancel. */
  lemma {:induction false} DoubleNegation(t: Expr)
    requires IsNormal(t)
    ensures TransformNot(TransformNot(t)) == t
  {
    NormalIsFixed(t);
    if t.Bin? {
      DoubleNegation(t.l);
      DoubleNegation(t.r);
      NegatedChain(t.op, t.l, t.r);
      var x, y := TransformNot(t.l), TransformNot(t.r);
      assert TransformNot(t) == Bin(DualOp(t.op), x, y);
      TransformNotIsNormal(t.l);
      TransformNotIsNormal(t.r);
      NormalIsFixed(x);
      NormalIsFixed(y);
      NegatedChain(DualOp(t.op), x, y);
    }
  }

  /** The rewriting computes that form, of every expression and of its negation. */
  lemma {:induction false} TransformPushes(e: Expr)
    ensures Transform(e) == Pushed(e, false) && Transform(Not(e)) == Pushed(e, true)
  {
    match e
    case Not(x) =>
      TransformPushes(x);
      TransformIsNormal(x);
      DoubleNegation(Transform(x));
    case Bin(op, l, r) =>
      TransformPushes(l);
      TransformPushes(r);
      NegatedChain(op, l, r);
    case Equal(l, r) => ComparisonPushed(l, r);
    case Unequal(l, r) => ComparisonPushed(l, r);
    case Sym(_) =>
  }

  lemma ComparisonPushed(l: Symbol, r: Symbol)
    ensures TransformEqual(l, r) == PushedComparison(l, r, false)
    ensures TransformNot(TransformEqual(l, r)) == PushedComparison(l, r, true)
    ensures TransformUnequal(l, r) == PushedComparison(l, r, true)
    ensures TransformNot(TransformUnequal(l, r)) == PushedComparison(l, r, false)
  {
    var x := Sym(l);
    assert l.Type() == BOOLEAN ==> l.Variable? && TransformNot(x) == Not(x);
    assert TransformNot(Not(x)) == Transform(x) == x;
    assert TransformNot(EXPR_YES) == EXPR_NO && TransformNot(EXPR_NO) == EXPR_YES;
  }

  ghost predicate TransformIsExact(env: Env) {
    forall e :: Value(Transform(e), env) == Value(e, env)
  }

  /** Exactly the promise about booleans is needed: with a boolean that is `m`, some value changes. */
  lemma TransformKeepsValuesExactlyWhen(env: Env)
    ensures TransformIsExact(env) <==> BooleansNeverMod(env)
  {
    if BooleansNeverMod(env) {
      forall e ensures Value(Transform(e), env) == Value(e, env) {
        TransformKeepsValue(e, env);
      }
    } else {
      var name :| env.tri(Variable(name, BOOLEAN)) == MOD;
      var v := Variable(name, BOOLEAN);
      ComparesByValue(v, SymMod, env);
      assert Value(Equal(v, SymMod), env) == YES;
      assert Transform(Equal(v, SymMod)) == EXPR_NO;
    }
  }
}

/** Joining two operands of one connective: expr_join_or and expr_join_and
    (scripts/kconfig/expr.c). */
module JoinsModule {
  import opened Common
  import opened KconfigExpr
  import opened ExprEqModule

  predicate IsComparison(e: Expr) {
    e.Equal? || e.Unequal?
  }

  /** The symbol an operand talks about, when the join functions accept the operand.  The first
      operand may be a negated comparison, the second one only a negated symbol. */
  function FirstSymbol(e: Expr): Option<Symbol> {
    match e
    case Sym(s) => Some(s)
    case Equal(l, _) => Some(l)
    case Unequal(l, _) => Some(l)
    case Not(Sym(s)) => Some(s)
    case Not(Equal(l, _)) => Some(l)
    case Not(Unequal(l, _)) => Some(l)
    case _ => None
  }

  function SecondSymbol(e: Expr): Option<Symbol> {
    match e
    case Not(x) => if x.Sym? then Some(x.s) else None
    case _ => FirstSymbol(e)
  }

  /** The shared symbol, if there is one and it is boolean or tristate. */
  function SharedSymbol(a: Expr, b: Expr): Option<Symbol> {
    var s, t := FirstSymbol(a), SecondSymbol(b);
    if s.Some? && s == t && (s.value.Type() == BOOLEAN || s.value.Type() == TRISTATE) then s else None
  }

  /** `{a->right, b->right} == {x, y}` for two comparisons. */
  predicate Against(a: Expr, b: Expr, x: Symbol, y: Symbol)
    requires IsComparison(a) && IsComparison(b)
  {
    (a.right == x && b.right == y) || (a.right == y && b.right == x)
  }

  /** `expr_join_or(a, b)`. */
  function JoinOr(a: Expr, b: Expr): Option<Expr> {
    if ExprEq(a, b) then Some(a)
    else match SharedSymbol(a, b)
      case None => None
      case Some(s) =>
        if s.Type() == TRISTATE && a.Equal? && b.Equal? && Against(a, b, SymYes, SymMod) then
          Some(Unequal(s, SymNo))
        else if s.Type() == TRISTATE && a.Equal? && b.Equal? && Against(a, b, SymYes, SymNo) then
          Some(Unequal(s, SymMod))
        else if s.Type() == TRISTATE && a.Equal? && b.Equal? && Against(a, b, SymMod, SymNo) then
          Some(Unequal(s, SymYes))
        else if s.Type() == BOOLEAN && ((a.Not? && a.e.Sym? && b.Sym?) || (b.Not? && b.e.Sym? && a.Sym?)) then
          Some(EXPR_YES)
        else
          None
  }

  /** One operand is the bare symbol, the other one compares it with `c`. */
  predicate SymbolAndEqual(a: Expr, b: Expr, c: Symbol) {
    (a.Sym? && b.Equal? && b.right == c) || (b.Sym? && a.Equal? && a.right == c)
  }

  predicate SymbolAndUnequal(a: Expr, b: Expr, c: Symbol) {
    (a.Sym? && b.Unequal? && b.right == c) || (b.Sym? && a.Unequal? && a.right == c)
  }

  /** `s = x` together with `s != y` for two constants. */
  function EqualAndUnequal(s: Symbol, x: Symbol, y: Symbol): Expr {
    if x != y then Equal(s, x) else EXPR_NO
  }

  /** The rules of expr_join_and for tristate symbols. */
  function JoinAndTristate(s: Symbol, a: Expr, b: Expr): Option<Expr> {
    if a.Equal? && b.Unequal? && a.right.IsConst() && b.right.IsConst() then
      Some(EqualAndUnequal(s, a.right, b.right))
    else if a.Unequal? && b.Equal? && a.right.IsConst() && b.right.IsConst() then
      Some(EqualAndUnequal(s, b.right, a.right))
    else if a.Unequal? && b.Unequal? && Against(a, b, SymYes, SymNo) then
      Some(Equal(s, SymMod))
    else if a.Unequal? && b.Unequal? && Against(a, b, SymYes, SymMod) then
      Some(Equal(s, SymNo))
    else if a.Unequal? && b.Unequal? && Against(a, b, SymMod, SymNo) then
      Some(Equal(s, SymYes))
    else
      None
  }

  /** `expr_join_and(a, b)`. */
  function JoinAnd(a: Expr, b: Expr): Option<Expr> {
    if ExprEq(a, b) then Some(a)
    else match SharedSymbol(a, b)
      case None => None
      case Some(s) =>
        if SymbolAndEqual(a, b, SymYes) then Some(Equal(s, SymYes))
        else if SymbolAndUnequal(a, b, SymNo) then Some(Sym(s))
        else if SymbolAndUnequal(a, b, SymMod) then Some(Equal(s, SymYes))
        else if s.Type() == TRISTATE then JoinAndTristate(s, a, b)
        else None
  }

  function Join(op: Op, a: Expr, b: Expr): Option<Expr> {
    if op == AND then JoinAnd(a, b) else JoinOr(a, b)
  }

  lemma JoinOrKeepsValue(a: Expr, b: Expr, env: Env)
    requires BooleansNeverMod(env) && JoinOr(a, b).Some?
    ensures Value(JoinOr(a, b).value, env) == Apply(OR, Value(a, env), Value(b, env))
  {
    if ExprEq(a, b) {
      ExprEqIsSound(a, b, env);
    } else {
      var s := SharedSymbol(a, b).value;
      ComparesByValue(s, SymYes, env);
      ComparesByValue(s, SymMod, env);
      ComparesByValue(s, SymNo, env);
      assert s.Type() == BOOLEAN ==> env.tri(Variable(s.name, BOOLEAN)) != MOD;
    }
  }

  lemma JoinAndKeepsValue(a: Expr, b: Expr, env: Env)
    requires BooleansNeverMod(env) && JoinAnd(a, b).Some?
    ensures Value(JoinAnd(a, b).value, env) == Apply(AND, Value(a, env), Value(b, env))
  {
    if ExprEq(a, b) {
      ExprEqIsSound(a, b, env);
    } else {
      var s := SharedSymbol(a, b).value;
      ComparesByValue(s, SymYes, env);
      ComparesByValue(s, SymMod, env);
      ComparesByValue(s, SymNo, env);
      if IsComparison(a) && IsComparison(b) && a.right.IsConst() && b.right.IsConst() {
        ConstantStringsDiffer(a.right, b.right, env);
      }
    }
  }

  /** A join is exact in every environment where booleans are never `m`. */
  lemma JoinKeepsValue(op: Op, a: Expr, b: Expr, env: Env)
    requires BooleansNeverMod(env) && Join(op, a, b).Some?
    ensures Value(Join(op, a, b).value, env) == Apply(op, Value(a, env), Value(b, env))
  {
    if op == AND {
      JoinAndKeepsValue(a, b, env);
    } else {
      JoinOrKeepsValue(a, b, env);
    }
  }

  /** A join saves at least one node over its two operands, and is never itself a chain of the
      connective it was found in. */
  lemma JoinIsSmall(op: Op, a: Expr, b: Expr)
    requires Join(op, a, b).Some?
    ensures Size(Join(op, a, b).value) + 1 <= Size(a) + Size(b)
    ensures !IsOp(op, a) ==> !IsOp(op, Join(op, a, b).value)
  {
  }
}

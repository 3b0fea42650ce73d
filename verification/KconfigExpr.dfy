/** The expression language of the configuration tool (scripts/kconfig/expr.h, expr.c):
    a three-valued logic over symbols, with its evaluator. */
module KconfigExpr {

  /** `no < mod < yes`, as the C enumeration numbers them. */
  type Tristate = t: int | 0 <= t <= 2
  const NO: Tristate := 0
  const MOD: Tristate := 1
  const YES: Tristate := 2

  /** The two binary connectives of the language. */
  datatype Op = AND | OR

  /** The macros E_AND (minimum) and E_OR (maximum). */
  function Apply(op: Op, a: Tristate, b: Tristate): Tristate {
    match op
    case AND => if a < b then a else b
    case OR => if a > b then a else b
  }

  /** Operands of like connectives may be regrouped: what `x`, `y` and `z` share moves outwards. */
  lemma ApplyRegroups(op: Op, x: Tristate, c: Tristate, y: Tristate, d: Tristate, z: Tristate)
    ensures Apply(op, Apply(op, x, c), Apply(op, y, d)) == Apply(op, Apply(op, x, y), Apply(op, c, d))
    ensures Apply(op, Apply(op, z, d), c) == Apply(op, z, Apply(op, c, d))
  {
  }

  /** The macro E_NOT. */
  function Negate(a: Tristate): Tristate {
    2 - a
  }

  datatype SymbolType = UNKNOWN | BOOLEAN | TRISTATE | INT | HEX | STRING | OTHER

  /** Quoted constants never carry the names y, m, n: `sym_lookup` returns the static symbols for those. */
  type QuotedName = s: string | s !in ["y", "m", "n"] witness ""

  /** A symbol is one of the three static constants, a quoted constant, or a configuration
      variable.  Two symbols are the same object exactly when they are equal here. */
  datatype Symbol =
    | SymYes
    | SymMod
    | SymNo
    | Quoted(text: QuotedName)
    | Variable(name: string, stype: SymbolType)
  {
    function Type(): SymbolType {
      match this
      case Variable(_, t) => t
      case _ => UNKNOWN
    }

    /** Any of the flag bits in SYMBOL_CONST. */
    predicate IsConst() {
      !Variable?
    }

    /** `flags & (SYMBOL_YES | SYMBOL_NO)`: a quoted constant has all three constant bits. */
    predicate HasYesOrNoFlag() {
      SymYes? || SymNo? || Quoted?
    }
  }

  /** An environment gives every configuration variable its current value. */
  datatype Env = Env(tri: Symbol -> Tristate, str: Symbol -> string)

  function TristateName(t: Tristate): string {
    if t == NO then "n" else if t == MOD then "m" else "y"
  }

  /** `sym->curr.tri` after sym_calc_value. */
  function TristateOf(s: Symbol, env: Env): Tristate {
    match s
    case SymYes => YES
    case SymMod => MOD
    case SymNo => NO
    case Quoted(_) => NO
    case Variable(_, _) => env.tri(s)
  }

  /** `sym_get_string_value(sym)`. */
  function StringOf(s: Symbol, env: Env): string {
    match s
    case SymYes => "y"
    case SymMod => "m"
    case SymNo => "n"
    case Quoted(text) => text
    case Variable(_, t) => if t == BOOLEAN || t == TRISTATE then TristateName(env.tri(s)) else env.str(s)
  }

  /** What sym_calc_value enforces: a boolean symbol is never `m`. */
  ghost predicate BooleansNeverMod(env: Env) {
    forall name :: env.tri(Variable(name, BOOLEAN)) != MOD
  }

  datatype Expr =
    | Sym(s: Symbol)
    | Equal(left: Symbol, right: Symbol)
    | Unequal(left: Symbol, right: Symbol)
    | Not(e: Expr)
    | Bin(op: Op, l: Expr, r: Expr)

  const EXPR_YES := Sym(SymYes)
  const EXPR_NO := Sym(SymNo)

  /** `expr_calc_value`. */
  function Value(e: Expr, env: Env): Tristate {
    match e
    case Sym(s) => TristateOf(s, env)
    case Equal(a, b) => if StringOf(a, env) == StringOf(b, env) then YES else NO
    case Unequal(a, b) => if StringOf(a, env) == StringOf(b, env) then NO else YES
    case Not(x) => Negate(Value(x, env))
    case Bin(op, x, y) => Apply(op, Value(x, env), Value(y, env))
  }

  /** The number of nodes. */
  function Size(e: Expr): nat {
    match e
    case Sym(_) => 1
    case Equal(_, _) => 1
    case Unequal(_, _) => 1
    case Not(x) => 1 + Size(x)
    case Bin(_, x, y) => 1 + Size(x) + Size(y)
  }

  predicate IsOp(op: Op, e: Expr) {
    e.Bin? && e.op == op
  }

  /** `x op Identity(op)` is `x`. */
  function Identity(op: Op): Expr {
    if op == AND then EXPR_YES else EXPR_NO
  }

  /** `x op Annihilator(op)` is the annihilator. */
  function Annihilator(op: Op): Expr {
    if op == AND then EXPR_NO else EXPR_YES
  }

  predicate IsYesOrNo(e: Expr) {
    e == EXPR_YES || e == EXPR_NO
  }

  /** No bare symbol of `e` evaluates to `m`, so `e` is two-valued in `env`. */
  ghost predicate Crisp(e: Expr, env: Env) {
    match e
    case Sym(s) => TristateOf(s, env) != MOD
    case Equal(_, _) => true
    case Unequal(_, _) => true
    case Not(x) => Crisp(x, env)
    case Bin(_, x, y) => Crisp(x, env) && Crisp(y, env)
  }

  lemma {:induction false} CrispIsTwoValued(e: Expr, env: Env)
    requires Crisp(e, env)
    ensures Value(e, env) != MOD
  {
    match e
    case Sym(_) =>
    case Equal(_, _) =>
    case Unequal(_, _) =>
    case Not(x) => CrispIsTwoValued(x, env);
    case Bin(_, x, y) =>
      CrispIsTwoValued(x, env);
      CrispIsTwoValued(y, env);
  }

  /** `expr_contains_symbol`. */
  predicate ContainsSymbol(e: Expr, v: Symbol) {
    match e
    case Bin(_, l, r) => ContainsSymbol(l, v) || ContainsSymbol(r, v)
    case Not(x) => ContainsSymbol(x, v)
    case Sym(s) => s == v
    case Equal(a, b) => a == v || b == v
    case Unequal(a, b) => a == v || b == v
  }

  /** The symbols of an expression from left to right. */
  function Occurrences(e: Expr): seq<Symbol> {
    match e
    case Sym(s) => [s]
    case Equal(a, b) => [a, b]
    case Unequal(a, b) => [a, b]
    case Not(x) => Occurrences(x)
    case Bin(_, x, y) => Occurrences(x) + Occurrences(y)
  }

  /** The expression with symbol `v` replaced by `w`. */
  function Renamed(e: Expr, v: Symbol, w: Symbol): Expr {
    match e
    case Sym(s) => Sym(Replaced(s, v, w))
    case Equal(a, b) => Equal(Replaced(a, v, w), Replaced(b, v, w))
    case Unequal(a, b) => Unequal(Replaced(a, v, w), Replaced(b, v, w))
    case Not(x) => Not(Renamed(x, v, w))
    case Bin(op, x, y) => Bin(op, Renamed(x, v, w), Renamed(y, v, w))
  }

  function Replaced(s: Symbol, v: Symbol, w: Symbol): Symbol {
    if s == v then w else s
  }

  /** A symbol is contained if and only if replacing it by another one makes a difference. */
  lemma {:induction false} ContainsExactlyWhen(e: Expr, v: Symbol, w: Symbol)
    requires v != w
    ensures ContainsSymbol(e, v) <==> Renamed(e, v, w) != e
  {
    match e
    case Not(x) => ContainsExactlyWhen(x, v, w);
    case Bin(_, x, y) =>
      ContainsExactlyWhen(x, v, w);
      ContainsExactlyWhen(y, v, w);
    case _ =>
  }

  /** `y`, `m` and `n` are three different strings. */
  lemma TristateNamesDiffer(a: Tristate, b: Tristate)
    ensures TristateName(a) == TristateName(b) <==> a == b
    ensures "y" == TristateName(YES) && "m" == TristateName(MOD) && "n" == TristateName(NO)
  {
    assert "n"[0] == 'n' && "m"[0] == 'm' && "y"[0] == 'y';
  }

  /** Distinct constants have distinct string values. */
  lemma ConstantStringsDiffer(a: Symbol, b: Symbol, env: Env)
    requires a.IsConst() && b.IsConst()
    ensures StringOf(a, env) == StringOf(b, env) <==> a == b
  {
    TristateNamesDiffer(YES, MOD);
    TristateNamesDiffer(YES, NO);
    TristateNamesDiffer(MOD, NO);
  }

  /** How a boolean or tristate variable compares with one of the three static constants. */
  lemma ComparesByValue(v: Symbol, c: Symbol, env: Env)
    requires v.Type() == BOOLEAN || v.Type() == TRISTATE
    requires c.SymYes? || c.SymMod? || c.SymNo?
    ensures StringOf(v, env) == StringOf(c, env) <==> TristateOf(v, env) == TristateOf(c, env)
  {
    TristateNamesDiffer(TristateOf(v, env), TristateOf(c, env));
  }
}

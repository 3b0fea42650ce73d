/** Exactly when duplicate elimination keeps all values: its second pass treats `!x` as the complement of
    `x`, which it is not for `m`, so it is exact if and only if no symbol is `m`. */
module DupsLimitModule {
  import opened Common
  import opened KconfigExpr
  import opened EliminateYnModule
  import opened ExprEqModule
  import opened TransformModule
  import opened JoinsModule
  import opened ExtractEqModule
  import opened SlotsModule
  import opened DupsModule
  import opened DupsProofsModule
  import opened EliminateDupsModule

  /** The first pass, started on these two slots, does nothing. */
  ghost predicate Quiet(op: Op, t: Expr, p: Path, q: Path) {
    IsSlot(op, t, p) && IsSlot(op, t, q) && Dups1(op, t, p, q) == Rewrite(t, 0)
  }

  lemma QuietFirst(op: Op, t: Expr, p: Path, q: Path)
    requires IsSlot(op, t, p) && IsOp(op, At(op, t, p))
    requires Quiet(op, t, p + [false], q) && Quiet(op, t, p + [true], q)
    ensures Quiet(op, t, p, q)
  {
  }

  lemma QuietSecond(op: Op, t: Expr, p: Path, q: Path)
    requires IsOperand(op, t, p) && IsSlot(op, t, q) && IsOp(op, At(op, t, q))
    requires Quiet(op, t, p, q + [false]) && Quiet(op, t, p, q + [true])
    ensures Quiet(op, t, p, q)
  {
  }

  lemma QuietPair(op: Op, t: Expr, p: Path, q: Path)
    requires IsOperand(op, t, p) && IsOperand(op, t, q)
    requires p == q || Join(op, At(op, t, p), At(op, t, q)) == None
    requires At(op, t, p).Bin? ==> Quiet(At(op, t, p).op, At(op, t, p), [], [])
    ensures Quiet(op, t, p, q)
  {
    PutSame(op, t, p);
  }

  /** A chain of two operands that cannot be joined. */
  lemma QuietTwo(op: Op, l: Expr, r: Expr)
    requires !l.Bin? && !r.Bin? && Join(op, l, r) == None && Join(op, r, l) == None
    ensures Quiet(op, Bin(op, l, r), [], [])
  {
    var t := Bin(op, l, r);
    SlotChild(op, t, [], false);
    SlotChild(op, t, [], true);
    var L, R := [] + [false], [] + [true];
    QuietPair(op, t, L, L);
    QuietPair(op, t, L, R);
    QuietSecond(op, t, L, []);
    QuietPair(op, t, R, L);
    QuietPair(op, t, R, R);
    QuietSecond(op, t, R, []);
    QuietFirst(op, t, [], []);
  }

  /** A chain `a op (l op r)` with no two of its operands joinable. */
  lemma QuietThree(op: Op, a: Expr, l: Expr, r: Expr)
    requires !IsOp(op, a) && !l.Bin? && !r.Bin?
    requires forall x, y | x in [a, l, r] && y in [a, l, r] && x != y :: Join(op, x, y) == None
    requires a != l && a != r && l != r
    requires a.Bin? ==> Quiet(a.op, a, [], [])
    ensures Quiet(op, Bin(op, a, Bin(op, l, r)), [], [])
  {
    var t := Bin(op, a, Bin(op, l, r));
    SlotChild(op, t, [], false);
    SlotChild(op, t, [], true);
    var A, B := [] + [false], [] + [true];
    SlotChild(op, t, B, false);
    SlotChild(op, t, B, true);
    var C, D := B + [false], B + [true];
    forall p | p in [A, C, D] ensures Quiet(op, t, p, []) {
      QuietPair(op, t, p, A);
      QuietPair(op, t, p, C);
      QuietPair(op, t, p, D);
      QuietSecond(op, t, p, B);
      QuietSecond(op, t, p, []);
    }
    QuietFirst(op, t, B, []);
    QuietFirst(op, t, [], []);
  }

  /** Two operands `x` and `y` with their negations, none of which is a chain, and of which only like ones
      are found equal or can be joined. */
  ghost predicate AreOpposites(x: Expr, y: Expr, nx: Expr, ny: Expr) {
    && !x.Bin? && !y.Bin? && !nx.Bin? && !ny.Bin?
    && Transform(x) == x && Transform(y) == y && Transform(Not(x)) == nx && Transform(Not(y)) == ny
    && Join(OR, x, y) == None && Join(OR, y, x) == None && Join(AND, nx, ny) == None && Join(AND, ny, nx) == None
    && ExprEq(nx, nx) && ExprEq(ny, ny) && !ExprEq(nx, ny) && !ExprEq(ny, nx) && nx != ny
    && !IsYesOrNo(nx) && !IsYesOrNo(ny)
  }

  /** `(x || y) && (!x && !y)`: the second is the negation of the first. */
  function Lost(x: Expr, y: Expr, nx: Expr, ny: Expr): Expr {
    Bin(AND, Bin(OR, x, y), Bin(AND, nx, ny))
  }

  /** A chain none of whose operands is a chain. */
  predicate Flat(op: Op, t: Expr) {
    if IsOp(op, t) then Flat(op, t.l) && Flat(op, t.r) else !t.Bin?
  }

  /** The second pass only ever replaces operands that are chains. */
  lemma {:induction false} Dups2OnFlat(op: Op, t: Expr, p: Path, q: Path)
    requires IsSlot(op, t, p) && IsSlot(op, t, q) && Flat(op, At(op, t, p))
    ensures Dups2(op, t, p, q) == Rewrite(t, 0)
    decreases Size(t), ChainSize(op, At(op, t, p)), ChainSize(op, At(op, t, q))
  {
    if IsOp(op, At(op, t, p)) {
      SlotChild(op, t, p, false);
      SlotChild(op, t, p, true);
      Dups2OnFlat(op, t, p + [false], q);
      Dups2OnFlat(op, t, p + [true], q);
    } else if IsOp(op, At(op, t, q)) {
      SlotChild(op, t, q, false);
      SlotChild(op, t, q, true);
      Dups2OnFlat(op, t, p, q + [false]);
      Dups2OnFlat(op, t, p, q + [true]);
    }
  }

  /** One operand against one slot: unchanged, or a contradiction was found. */
  lemma OneRefutation(op: Op, t: Expr, p: Path, q: Path)
    requires IsOperand(op, t, p) && IsSlot(op, t, q) && p != q
    requires At(op, t, p).Bin? && Flat(At(op, t, p).op, At(op, t, p))
    requires Dups2Parts(op, t, p, q).e == t
    ensures Dups2(op, t, p, q).e == RefuteOperand(op, t, p, q).e
  {
    var a := At(op, t, p);
    Dups2OnFlat(a.op, a, [], []);
    PutSame(op, t, p);
  }

  lemma NegationOfNormal(x: Expr)
    requires Transform(x) == x
    ensures Transform(Not(x)) == TransformNot(x)
  {
  }

  lemma NegationOfFirstIsSecond(x: Expr, y: Expr, nx: Expr, ny: Expr)
    requires AreOpposites(x, y, nx, ny)
    ensures Transform(Not(Bin(OR, x, y))) == Bin(AND, nx, ny)
  {
    var a := Bin(OR, x, y);
    assert Transform(a) == a;
    NegationOfNormal(a);
    assert TransformNot(a) == Transform(Bin(AND, Not(x), Not(y)));
    assert Transform(Bin(AND, Not(x), Not(y))) == Bin(AND, Transform(Not(x)), Transform(Not(y)));
  }

  lemma NothingMoves(common: Option<Expr>, a: Expr, b: Expr)
    requires !a.Bin? && !b.Bin? && !ExprEq(a, b)
    ensures ExtractEq(AND, common, a, b) == Extraction(common, a, b)
  {
  }

  lemma BothMove(common: Option<Expr>, a: Expr, b: Expr)
    requires !a.Bin? && !b.Bin? && ExprEq(a, b)
    ensures ExtractEq(AND, common, a, b)
            == Extraction(Some(if common.Some? then Bin(AND, common.value, a) else a), EXPR_YES, EXPR_YES)
  {
  }

  lemma SecondContradictsFirst(x: Expr, y: Expr, nx: Expr, ny: Expr)
    requires AreOpposites(x, y, nx, ny)
    ensures Contradicts(AND, Bin(OR, x, y), Bin(AND, nx, ny))
  {
    var b, yes := Bin(AND, nx, ny), EXPR_YES;
    NegationOfFirstIsSecond(x, y, nx, ny);
    BothMove(None, nx, nx);
    NothingMoves(Some(nx), yes, ny);
    assert ExtractEq(AND, None, nx, b) == Extraction(Some(nx), yes, Bin(AND, yes, ny));
    NothingMoves(Some(nx), ny, yes);
    BothMove(Some(nx), ny, ny);
    var rest := ExtractEq(AND, Some(nx), ny, Bin(AND, yes, ny));
    assert rest == Extraction(Some(b), yes, Bin(AND, yes, yes));
    assert ExtractEq(AND, None, b, b) == Extraction(rest.common, Bin(AND, yes, yes), rest.b);
    assert EliminateYn(Bin(AND, yes, yes)) == yes;
  }

  lemma IdentityFolds(op: Op, x: Expr)
    requires EliminateYn(x) == x
    ensures EliminateYn(Bin(op, Identity(op), x)) == x && EliminateYn(Bin(op, x, Identity(op))) == x
  {
    assert EliminateYn(Identity(op)) == Identity(op);
  }

  lemma PartsDoNotContradictFirst(x: Expr, y: Expr, nx: Expr, ny: Expr)
    requires AreOpposites(x, y, nx, ny)
    ensures !Contradicts(AND, Bin(OR, x, y), nx) && !Contradicts(AND, Bin(OR, x, y), ny)
  {
    var b, yes := Bin(AND, nx, ny), EXPR_YES;
    NegationOfFirstIsSecond(x, y, nx, ny);
    BothMove(None, nx, nx);
    NothingMoves(Some(nx), ny, yes);
    assert ExtractEq(AND, None, b, nx) == Extraction(Some(nx), Bin(AND, yes, ny), yes);
    NothingMoves(None, nx, ny);
    BothMove(None, ny, ny);
    assert ExtractEq(AND, None, b, ny) == Extraction(Some(ny), Bin(AND, nx, yes), yes);
    IdentityFolds(AND, nx);
    IdentityFolds(AND, ny);
  }

  lemma PartsUnchanged(op: Op, t: Expr, p: Path, q: Path)
    requires IsOperand(op, t, p) && IsSlot(op, t, q) && IsOp(op, At(op, t, q))
    requires IsSlot(op, t, q + [false]) && Dups2(op, t, p, q + [false]).e == t
    ensures IsSlot(op, t, q + [true])
    ensures Dups2Parts(op, t, p, q).e == Dups2(op, t, p, q + [true]).e
  {
    SlotChild(op, t, q, true);
  }

  /** The first operand, if only the chain of the other two as a whole contradicts it. */
  lemma WholeChainRefutes(op: Op, t: Expr, A: Path, B: Path)
    requires A == [] + [false] && B == [] + [true]
    requires IsOp(op, t) && IsOp(op, t.r) && IsOperand(op, t, A) && IsSlot(op, t, B) && At(op, t, B) == t.r
    requires IsOperand(op, t, B + [false]) && IsOperand(op, t, B + [true])
    requires At(op, t, A).Bin? && Flat(At(op, t, A).op, At(op, t, A))
    requires !Contradicts(op, At(op, t, A), At(op, t, B + [false]))
    requires !Contradicts(op, At(op, t, A), At(op, t, B + [true]))
    requires Contradicts(op, At(op, t, A), t.r)
    ensures Dups2(op, t, A, []).e == Put(op, t, A, Annihilator(op))
  {
    OneRefutation(op, t, A, B + [false]);
    OneRefutation(op, t, A, B + [true]);
    PartsUnchanged(op, t, A, B);
    OneRefutation(op, t, A, B);
    PartsUnchanged(op, t, A, []);
    PutThenAt(op, t, A, Annihilator(op), A);
  }

  /** Once the first operand has made the chain definite, that is its final value. */
  lemma DefiniteValueStays(op: Op, t: Expr, env: Env)
    requires IsOp(op, t) && Quiet(op, t, [], []) && BooleansNeverMod(env)
    requires IsSlot(op, t, [] + [false])
    requires Value(Dups2(op, t, [] + [false], []).e, env) != MOD
    ensures Value(EliminateDups(t), env) == Value(Dups2(op, t, [] + [false], []).e, env)
  {
    SlotChild(op, t, [], true);
    var x := Dups2(op, t, [] + [false], []);
    GoOn(op, t, x.e, [] + [true]);
    GoOn(op, t, x.e, []);
    Dups2Keeps(op, x.e, [] + [true], [], env);
    var r := Round(t);
    assert r.e == Dups2(op, t, [], []).e == Dups2(op, x.e, [] + [true], []).e;
    if r.count > 0 {
      RoundShrinks(t);
      EliminateYnKeepsValue(r.e, env);
      EliminateDupsKeeps(EliminateYn(r.e), env);
    }
  }

  lemma LostSlots(x: Expr, y: Expr, nx: Expr, ny: Expr)
    requires !nx.Bin? && !ny.Bin?
    ensures var t := Lost(x, y, nx, ny);
            && IsOperand(AND, t, [] + [false]) && At(AND, t, [] + [false]) == t.l
            && IsSlot(AND, t, [] + [true]) && At(AND, t, [] + [true]) == t.r
            && IsOperand(AND, t, [] + [true] + [false]) && At(AND, t, [] + [true] + [false]) == nx
            && IsOperand(AND, t, [] + [true] + [true]) && At(AND, t, [] + [true] + [true]) == ny
  {
    var t := Lost(x, y, nx, ny);
    SlotChild(AND, t, [], false);
    SlotChild(AND, t, [], true);
    SlotChild(AND, t, [] + [true], false);
    SlotChild(AND, t, [] + [true], true);
  }

  lemma LostIsQuiet(x: Expr, y: Expr, nx: Expr, ny: Expr)
    requires AreOpposites(x, y, nx, ny)
    ensures Quiet(AND, Lost(x, y, nx, ny), [], [])
  {
    QuietTwo(OR, x, y);
    ChainJoinsNothing(Bin(OR, x, y), nx);
    ChainJoinsNothing(Bin(OR, x, y), ny);
    QuietThree(AND, Bin(OR, x, y), nx, ny);
  }

  lemma ChainJoinsNothing(a: Expr, b: Expr)
    requires a.Bin? && !b.Bin?
    ensures Join(AND, a, b) == None && Join(AND, b, a) == None
  {
  }

  lemma LostIsRefuted(x: Expr, y: Expr, nx: Expr, ny: Expr)
    requires AreOpposites(x, y, nx, ny)
    ensures var t := Lost(x, y, nx, ny);
            && IsOperand(AND, t, [] + [false])
            && Dups2(AND, t, [] + [false], []).e == Put(AND, t, [] + [false], EXPR_NO)
  {
    LostSlots(x, y, nx, ny);
    SecondContradictsFirst(x, y, nx, ny);
    PartsDoNotContradictFirst(x, y, nx, ny);
    WholeChainRefutes(AND, Lost(x, y, nx, ny), [] + [false], [] + [true]);
  }

  /** The second pass turns such a conjunction into `n`, although it is `m` where `x || y` and `!x && !y` are. */
  lemma ConjunctionIsLost(x: Expr, y: Expr, nx: Expr, ny: Expr, env: Env)
    requires AreOpposites(x, y, nx, ny) && BooleansNeverMod(env)
    ensures Value(EliminateDups(Lost(x, y, nx, ny)), env) == NO
  {
    var t := Lost(x, y, nx, ny);
    LostIsQuiet(x, y, nx, ny);
    LostIsRefuted(x, y, nx, ny);
    ValueAtSlot(AND, t, [] + [false], EXPR_NO, env);
    DefiniteValueStays(AND, t, env);
  }

  // ----- with a symbol that is `m` -----

  predicate IsTristate(v: Symbol) {
    v.Variable? && v.stype == TRISTATE
  }

  /** `(v || v = "q") && (!v && v != "q")`. */
  function LostVariable(v: Symbol): Expr {
    Lost(Sym(v), Equal(v, Quoted("q")), Not(Sym(v)), Unequal(v, Quoted("q")))
  }

  lemma VariableHasOpposites(v: Symbol)
    requires IsTristate(v)
    ensures AreOpposites(Sym(v), Equal(v, Quoted("q")), Not(Sym(v)), Unequal(v, Quoted("q")))
  {
    var x, y := Sym(v), Equal(v, Quoted("q"));
    assert Transform(x) == x && Transform(y) == y;
    NegationOfNormal(x);
    NegationOfNormal(y);
    assert ExprEq(x, x);
  }

  lemma LostVariableIsMod(v: Symbol, env: Env)
    requires IsTristate(v) && TristateOf(v, env) == MOD
    ensures Value(LostVariable(v), env) == MOD
  {
    assert StringOf(v, env) == "m" && "m"[0] != "q"[0];
    var x, y, nx, ny := Sym(v), Equal(v, Quoted("q")), Not(Sym(v)), Unequal(v, Quoted("q"));
    assert Value(x, env) == MOD && Value(y, env) == NO && Value(nx, env) == MOD && Value(ny, env) == YES;
    ValueOfLost(x, y, nx, ny, env);
  }

  lemma ValueOfLost(x: Expr, y: Expr, nx: Expr, ny: Expr, env: Env)
    ensures Value(Lost(x, y, nx, ny), env)
            == Apply(AND, Apply(OR, Value(x, env), Value(y, env)), Apply(AND, Value(nx, env), Value(ny, env)))
  {
    assert Value(Bin(OR, x, y), env) == Apply(OR, Value(x, env), Value(y, env));
    assert Value(Bin(AND, nx, ny), env) == Apply(AND, Value(nx, env), Value(ny, env));
  }

  /** The second pass is not exact on `m`: where a tristate `v` is `m`, so is this, and it becomes `n`. */
  lemma EliminateDupsLosesMod(v: Symbol, env: Env)
    requires IsTristate(v) && BooleansNeverMod(env) && TristateOf(v, env) == MOD
    ensures Value(LostVariable(v), env) == MOD && Value(EliminateDups(LostVariable(v)), env) == NO
  {
    LostVariableIsMod(v, env);
    VariableHasOpposites(v);
    ConjunctionIsLost(Sym(v), Equal(v, Quoted("q")), Not(Sym(v)), Unequal(v, Quoted("q")), env);
  }

  // ----- the exact condition -----

  /** Boolean and tristate symbols. */
  predicate IsVocabulary(symbols: set<Symbol>) {
    forall v :: v in symbols ==> IsBoolOrTristate(v)
  }

  predicate IsBoolOrTristate(v: Symbol) {
    v.Variable? && (v.stype == BOOLEAN || v.stype == TRISTATE)
  }

  predicate AreDefinite(symbols: set<Symbol>, env: Env) {
    forall v :: v in symbols ==> TristateOf(v, env) != MOD
  }

  /** Every bare symbol of `e` is one of these or a constant, `m` only if `withMod`; comparisons may be of any
      symbols. */
  predicate IsOver(e: Expr, symbols: set<Symbol>, withMod: bool) {
    match e
    case Sym(s) => s in symbols || (s.IsConst() && (withMod || s != SymMod))
    case Not(x) => IsOver(x, symbols, withMod)
    case Bin(_, l, r) => IsOver(l, symbols, withMod) && IsOver(r, symbols, withMod)
    case _ => true
  }

  lemma ChainIsOver(op: Op, l: Expr, r: Expr, symbols: set<Symbol>, withMod: bool)
    requires IsOver(l, symbols, withMod) && IsOver(r, symbols, withMod)
    ensures IsOver(Bin(op, l, r), symbols, withMod)
  {
  }

  lemma LostVariableIsOver(v: Symbol, symbols: set<Symbol>)
    requires v in symbols
    ensures IsOver(LostVariable(v), symbols, false)
  {
    assert IsOver(Sym(v), symbols, false);
    ChainIsOver(OR, Sym(v), Equal(v, Quoted("q")), symbols, false);
    ChainIsOver(AND, Not(Sym(v)), Unequal(v, Quoted("q")), symbols, false);
    ChainIsOver(AND, LostVariable(v).l, LostVariable(v).r, symbols, false);
  }

  lemma BooleanIsDefinite(v: Symbol, env: Env)
    requires BooleansNeverMod(env) && v.Variable? && v.stype == BOOLEAN
    ensures TristateOf(v, env) != MOD
  {
    assert v == Variable(v.name, BOOLEAN);
  }

  lemma {:induction false} OverDefiniteIsCrisp(e: Expr, symbols: set<Symbol>, env: Env)
    requires IsOver(e, symbols, false) && AreDefinite(symbols, env)
    ensures Crisp(e, env)
  {
    match e
    case Not(x) => OverDefiniteIsCrisp(x, symbols, env);
    case Bin(_, l, r) =>
      OverDefiniteIsCrisp(l, symbols, env);
      OverDefiniteIsCrisp(r, symbols, env);
    case _ =>
  }

  /** Elimination keeps the value of every expression over these symbols. */
  ghost predicate IsExactOver(symbols: set<Symbol>, env: Env) {
    forall e :: IsOver(e, symbols, false) ==> Value(EliminateDups(e), env) == Value(e, env)
  }

  /** Elimination keeps the value of every expression over a set of symbols if and only if none of them is `m`. */
  lemma EliminateDupsIsExactWhen(symbols: set<Symbol>, env: Env)
    requires IsVocabulary(symbols) && BooleansNeverMod(env)
    ensures IsExactOver(symbols, env) <==> AreDefinite(symbols, env)
  {
    if AreDefinite(symbols, env) {
      forall e | IsOver(e, symbols, false) ensures Value(EliminateDups(e), env) == Value(e, env) {
        OverDefiniteIsCrisp(e, symbols, env);
        EliminateDupsKeepsCrisp(e, env);
      }
    } else {
      var v :| v in symbols && TristateOf(v, env) == MOD;
      if v.stype == BOOLEAN {
        BooleanIsDefinite(v, env);
      }
      EliminateDupsLosesMod(v, env);
      LostVariableIsOver(v, symbols);
    }
  }

  // ----- with the constant `m` -----

  /** `menu_check_dep(e)`: the constant `m` is only there if modules are enabled. */
  function MenuCheckDep(e: Expr, modules: Symbol): Expr {
    match e
    case Not(x) => Not(MenuCheckDep(x, modules))
    case Bin(op, l, r) => Bin(op, MenuCheckDep(l, modules), MenuCheckDep(r, modules))
    case Sym(s) => if s == SymMod then Bin(AND, e, Sym(modules)) else e
    case _ => e
  }

  /** `e` with every bare `m` replaced by `n`. */
  function WithoutMod(e: Expr): Expr {
    match e
    case Not(x) => Not(WithoutMod(x))
    case Bin(op, l, r) => Bin(op, WithoutMod(l), WithoutMod(r))
    case Sym(s) => if s == SymMod then EXPR_NO else e
    case _ => e
  }

  /** With modules enabled it changes no value; with modules disabled `m` counts as `n`. */
  lemma {:induction false} MenuCheckDepMeaning(e: Expr, modules: Symbol, env: Env)
    ensures Value(MenuCheckDep(e, modules), env)
            == if TristateOf(modules, env) == NO then Value(WithoutMod(e), env) else Value(e, env)
  {
    match e
    case Not(x) => MenuCheckDepMeaning(x, modules, env);
    case Bin(_, l, r) =>
      MenuCheckDepMeaning(l, modules, env);
      MenuCheckDepMeaning(r, modules, env);
    case Sym(s) =>
      if s == SymMod {
        assert Value(Bin(AND, e, Sym(modules)), env) == Apply(AND, MOD, TristateOf(modules, env));
      }
    case _ =>
  }

  /** A dependency as menu_finalize passes it to expr_eliminate_dups. */
  function Dependency(e: Expr, modules: Symbol): Expr {
    Transform(MenuCheckDep(e, modules))
  }

  ghost predicate IsExactOnDependencies(symbols: set<Symbol>, modules: Symbol, env: Env) {
    forall e :: IsOver(e, symbols, true) ==> KeepsDependency(e, modules, env)
  }

  ghost predicate KeepsDependency(e: Expr, modules: Symbol, env: Env) {
    Value(EliminateDups(Dependency(e, modules)), env) == Value(MenuCheckDep(e, modules), env)
  }

  lemma {:induction false} CheckedIsDefinite(e: Expr, symbols: set<Symbol>, modules: Symbol, env: Env)
    requires IsOver(e, symbols, true) && AreDefinite(symbols, env) && TristateOf(modules, env) == NO
    ensures Value(MenuCheckDep(e, modules), env) != MOD
  {
    match e
    case Not(x) => CheckedIsDefinite(x, symbols, modules, env);
    case Bin(_, l, r) =>
      CheckedIsDefinite(l, symbols, modules, env);
      CheckedIsDefinite(r, symbols, modules, env);
    case Sym(s) =>
      if s == SymMod {
        assert Value(Bin(AND, e, Sym(modules)), env) == Apply(AND, MOD, NO);
      }
    case _ =>
  }

  /** `!m && m`, which is `m` unless modules are disabled. */
  const NOT_M_AND_M := Bin(AND, Not(Sym(SymMod)), Sym(SymMod))

  lemma ModulesHaveOpposites(modules: Symbol)
    requires IsBoolOrTristate(modules)
    ensures AreOpposites(Sym(SymMod), Not(Sym(modules)), Sym(SymMod), Sym(modules))
  {
    var x, y := Sym(SymMod), Not(Sym(modules));
    assert Transform(Sym(modules)) == Sym(modules);
    NegationOfNormal(Sym(modules));
    assert Transform(x) == x && Transform(y) == y;
    NegationOfNormal(x);
    NegationOfNormal(y);
    assert ExprEq(Sym(modules), Sym(modules)) && ExprEq(x, x);
  }

  lemma DependencyOnM(modules: Symbol)
    requires IsBoolOrTristate(modules)
    ensures Dependency(NOT_M_AND_M, modules) == Lost(Sym(SymMod), Not(Sym(modules)), Sym(SymMod), Sym(modules))
  {
    var m, v := Sym(SymMod), Sym(modules);
    ModulesHaveOpposites(modules);
    var b := Bin(AND, m, v);
    assert MenuCheckDep(m, modules) == b && MenuCheckDep(Not(m), modules) == Not(b);
    assert MenuCheckDep(NOT_M_AND_M, modules) == Bin(AND, Not(b), b);
    assert Transform(m) == m && Transform(v) == v;
    assert Transform(b) == b;
    NegationOfNormal(b);
    NegationOfNormal(v);
    NegationOfNormal(m);
    assert TransformNot(b) == Transform(Bin(OR, Not(m), Not(v))) == Bin(OR, Transform(Not(m)), Transform(Not(v)));
    assert Transform(Bin(AND, Not(b), b)) == Bin(AND, Transform(Not(b)), Transform(b));
  }

  lemma DependencyOnMIsLost(modules: Symbol, env: Env)
    requires IsBoolOrTristate(modules) && BooleansNeverMod(env) && TristateOf(modules, env) != NO
    ensures !KeepsDependency(NOT_M_AND_M, modules, env)
  {
    var m, v := Sym(SymMod), Sym(modules);
    DependencyOnM(modules);
    ModulesHaveOpposites(modules);
    ConjunctionIsLost(m, Not(v), m, v, env);
    var b := Bin(AND, m, v);
    assert MenuCheckDep(m, modules) == b && MenuCheckDep(Not(m), modules) == Not(b);
    assert Value(m, env) == MOD && Value(b, env) == Apply(AND, Value(m, env), Value(v, env));
    assert Value(Not(b), env) == Negate(Value(b, env));
    assert Value(b, env) == MOD && Value(Not(b), env) == MOD;
    assert MenuCheckDep(NOT_M_AND_M, modules) == Bin(AND, Not(b), b);
  }

  lemma LostVariableIsDependency(v: Symbol, modules: Symbol)
    requires IsTristate(v)
    ensures Dependency(LostVariable(v), modules) == LostVariable(v) == MenuCheckDep(LostVariable(v), modules)
  {
    var x, y, nx, ny := Sym(v), Equal(v, Quoted("q")), Not(Sym(v)), Unequal(v, Quoted("q"));
    VariableHasOpposites(v);
    assert MenuCheckDep(x, modules) == x && MenuCheckDep(nx, modules) == nx;
    assert MenuCheckDep(Bin(OR, x, y), modules) == Bin(OR, x, y);
    assert MenuCheckDep(Bin(AND, nx, ny), modules) == Bin(AND, nx, ny);
    assert Transform(nx) == nx && Transform(ny) == ny;
    assert Transform(Bin(OR, x, y)) == Bin(OR, x, y) && Transform(Bin(AND, nx, ny)) == Bin(AND, nx, ny);
  }

  /** Where dependencies may mention `m`, elimination keeps all their values if and only if no symbol is `m`
      and modules are disabled. */
  lemma DependenciesAreExactWhen(symbols: set<Symbol>, modules: Symbol, env: Env)
    requires IsVocabulary(symbols) && IsBoolOrTristate(modules) && BooleansNeverMod(env)
    ensures IsExactOnDependencies(symbols, modules, env)
            <==> AreDefinite(symbols, env) && TristateOf(modules, env) == NO
  {
    if TristateOf(modules, env) != NO {
      DependencyOnMIsLost(modules, env);
      assert IsOver(Sym(SymMod), symbols, true);
      ChainIsOver(AND, Not(Sym(SymMod)), Sym(SymMod), symbols, true);
      assert IsOver(NOT_M_AND_M, symbols, true) && !KeepsDependency(NOT_M_AND_M, modules, env);
    } else if AreDefinite(symbols, env) {
      forall e | IsOver(e, symbols, true) ensures KeepsDependency(e, modules, env) {
        CheckedIsDefinite(e, symbols, modules, env);
        TransformKeepsValue(MenuCheckDep(e, modules), env);
        EliminateDupsKeeps(Dependency(e, modules), env);
      }
    } else {
      var v :| v in symbols && TristateOf(v, env) == MOD;
      if v.stype == BOOLEAN {
        BooleanIsDefinite(v, env);
      }
      EliminateDupsLosesMod(v, env);
      LostVariableIsDependency(v, modules);
      LostVariableIsOver(v, symbols);
      OverMore(LostVariable(v), symbols);
      assert !KeepsDependency(LostVariable(v), modules, env);
    }
  }

  lemma {:induction false} OverMore(e: Expr, symbols: set<Symbol>)
    requires IsOver(e, symbols, false)
    ensures IsOver(e, symbols, true)
  {
    match e
    case Not(x) => OverMore(x, symbols);
    case Bin(_, l, r) =>
      OverMore(l, symbols);
      OverMore(r, symbols);
    case _ =>
  }
}

/** What expr_eq decides: on folded expressions it is exactly equality up to reordering and regrouping
    the operands of like connectives, unless some chain has two bare quoted constants. */
module ExprEqCompleteModule {
  import opened KconfigExpr
  import opened EliminateYnModule
  import opened ExprEqModule

  /** An expression with the order and grouping of like operands forgotten. */
  datatype Shape =
    | ShapeSym(s: Symbol)
    | ShapeEqual(left: Symbol, right: Symbol)
    | ShapeUnequal(left: Symbol, right: Symbol)
    | ShapeNot(e: Shape)
    | ShapeBin(op: Op, parts: multiset<Shape>)

  function ShapeOf(e: Expr): Shape
    decreases e, 0
  {
    match e
    case Sym(s) => ShapeSym(s)
    case Equal(a, b) => ShapeEqual(a, b)
    case Unequal(a, b) => ShapeUnequal(a, b)
    case Not(x) => ShapeNot(ShapeOf(x))
    case Bin(op, l, r) => ShapeBin(op, Parts(op, l) + Parts(op, r))
  }

  /** The operands of the `op` chain at the root of `e`; the identity of `op` counts for nothing. */
  function Parts(op: Op, e: Expr): multiset<Shape>
    decreases e, 1
  {
    if e == Identity(op) then multiset{}
    else if IsOp(op, e) then Parts(op, e.l) + Parts(op, e.r)
    else multiset{ShapeOf(e)}
  }

  /** No `y` or `n` is an operand of a connective. */
  predicate Folded(e: Expr) {
    match e
    case Not(x) => Folded(x)
    case Bin(_, l, r) => Folded(l) && Folded(r) && !IsYesOrNo(l) && !IsYesOrNo(r)
    case _ => true
  }

  predicate IsQuoted(s: Shape) {
    s.ShapeSym? && s.s.Quoted?
  }

  predicate AtMostOneQuoted(parts: multiset<Shape>) {
    forall p, q :: p in parts && q in parts && IsQuoted(p) && IsQuoted(q) ==> p == q && parts[p] == 1
  }

  /** No chain, at any depth, has two bare quoted constants among its operands. */
  predicate IsThin(s: Shape) {
    match s
    case ShapeNot(x) => IsThin(x)
    case ShapeBin(_, parts) => (forall p :: p in parts ==> IsThin(p)) && AtMostOneQuoted(parts)
    case _ => true
  }

  /** A folded expression some of whose `op` operands have been cancelled. */
  predicate Cancelled(op: Op, e: Expr) {
    if IsOp(op, e) then Cancelled(op, e.l) && Cancelled(op, e.r)
    else e == Identity(op) || (Folded(e) && !IsYesOrNo(e))
  }

  lemma {:induction false} FoldedIsCancelled(op: Op, e: Expr)
    requires Folded(e) && !IsYesOrNo(e)
    ensures Cancelled(op, e)
  {
    if IsOp(op, e) {
      FoldedIsCancelled(op, e.l);
      FoldedIsCancelled(op, e.r);
    }
  }

  lemma {:induction false} FoldedHasNothingToFold(e: Expr)
    requires Folded(e)
    ensures EliminateYn(e) == e
  {
    if e.Bin? {
      FoldedHasNothingToFold(e.l);
      FoldedHasNothingToFold(e.r);
    }
  }

  // ----- what is left after cancelling -----

  /** Operands that are found equal to themselves; cancellation passes over quoted constants, extraction does not. */
  predicate Cancels(s: Shape, quotedToo: bool) {
    IsThin(s) && (quotedToo || !IsQuoted(s))
  }

  function Remaining(cancels: bool, p: nat, q: nat): nat {
    if !cancels then p else if p >= q then p - q else 0
  }

  /** `x` has what `p` has and `q` lacks, and everything that does not cancel. */
  ghost predicate IsLeft(x: multiset<Shape>, p: multiset<Shape>, q: multiset<Shape>, quotedToo: bool) {
    forall s :: x[s] == Remaining(Cancels(s, quotedToo), p[s], q[s])
  }

  /** `x` and `y` are what is left of `a` and `b`. */
  ghost predicate IsDifference(op: Op, a: Expr, b: Expr, x: Expr, y: Expr, quotedToo: bool) {
    && Cancelled(op, x) && Cancelled(op, y)
    && IsLeft(Parts(op, x), Parts(op, a), Parts(op, b), quotedToo)
    && IsLeft(Parts(op, y), Parts(op, b), Parts(op, a), quotedToo)
  }

  lemma LeftInTurn(l: multiset<Shape>, r: multiset<Shape>, z: multiset<Shape>,
                   l': multiset<Shape>, z1: multiset<Shape>, r': multiset<Shape>, z2: multiset<Shape>, quotedToo: bool)
    requires IsLeft(l', l, z, quotedToo) && IsLeft(z1, z, l, quotedToo)
    requires IsLeft(r', r, z1, quotedToo) && IsLeft(z2, z1, r, quotedToo)
    ensures IsLeft(l' + r', l + r, z, quotedToo) && IsLeft(z2, z, l + r, quotedToo)
  {
    forall s ensures (l' + r')[s] == Remaining(Cancels(s, quotedToo), (l + r)[s], z[s]) {
      assert l'[s] == Remaining(Cancels(s, quotedToo), l[s], z[s]);
      assert z1[s] == Remaining(Cancels(s, quotedToo), z[s], l[s]);
      assert r'[s] == Remaining(Cancels(s, quotedToo), r[s], z1[s]);
    }
    forall s ensures z2[s] == Remaining(Cancels(s, quotedToo), z[s], (l + r)[s]) {
      assert z1[s] == Remaining(Cancels(s, quotedToo), z[s], l[s]);
    }
  }

  /** Cancelling `l` and then `r` against what is left of `z` cancels the chain of both. */
  lemma CancellingInTurn(op: Op, l: Expr, r: Expr, z: Expr, l': Expr, z1: Expr, r': Expr, z2: Expr, quotedToo: bool)
    requires IsDifference(op, l, z, l', z1, quotedToo) && IsDifference(op, r, z1, r', z2, quotedToo)
    ensures IsDifference(op, Bin(op, l, r), z, Bin(op, l', r'), z2, quotedToo)
    ensures IsDifference(op, z, Bin(op, l, r), z2, Bin(op, l', r'), quotedToo)
  {
    LeftInTurn(Parts(op, l), Parts(op, r), Parts(op, z),
               Parts(op, l'), Parts(op, z1), Parts(op, r'), Parts(op, z2), quotedToo);
    PartsOfChain(op, l, r);
    PartsOfChain(op, l', r');
  }

  lemma PartsOfChain(op: Op, l: Expr, r: Expr)
    ensures Parts(op, Bin(op, l, r)) == Parts(op, l) + Parts(op, r)
  {
  }

  lemma DifferenceIsSymmetric(op: Op, a: Expr, b: Expr, x: Expr, y: Expr, quotedToo: bool)
    requires IsDifference(op, a, b, x, y, quotedToo)
    ensures IsDifference(op, b, a, y, x, quotedToo)
  {
  }

  lemma {:induction false} CancelPairsIsDifference(op: Op, a: Expr, b: Expr)
    requires Cancelled(op, a) && Cancelled(op, b)
    ensures IsDifference(op, a, b, CancelPairs(op, a, b).0, CancelPairs(op, a, b).1, false)
    decreases Size(a) + Size(b), if IsOp(op, a) || IsOp(op, b) then 0 else 2
  {
    if IsOp(op, a) {
      var (l, b1) := CancelPairs(op, a.l, b);
      var (r, b2) := CancelPairs(op, a.r, b1);
      assert CancelPairs(op, a, b) == (Bin(op, l, r), b2) && a == Bin(op, a.l, a.r);
      CancelPairsIsDifference(op, a.l, b);
      CancelPairsIsDifference(op, a.r, b1);
      CancellingInTurn(op, a.l, a.r, b, l, b1, r, b2, false);
    } else if IsOp(op, b) {
      var (a1, l) := CancelPairs(op, a, b.l);
      var (a2, r) := CancelPairs(op, a1, b.r);
      assert CancelPairs(op, a, b) == (a2, Bin(op, l, r)) && b == Bin(op, b.l, b.r);
      CancelPairsIsDifference(op, a, b.l);
      CancelPairsIsDifference(op, a1, b.r);
      DifferenceIsSymmetric(op, a, b.l, a1, l, false);
      DifferenceIsSymmetric(op, a1, b.r, a2, r, false);
      CancellingInTurn(op, b.l, b.r, a, l, a1, r, a2, false);
    } else {
      if Folded(a) && Folded(b) {
        ExprEqDecidesShape(a, b);
      }
      CancelLeaves(op, a, b);
    }
  }

  lemma LeafParts(op: Op, a: Expr)
    requires Cancelled(op, a) && !IsOp(op, a)
    ensures Parts(op, a) == if a == Identity(op) then multiset{} else multiset{ShapeOf(a)}
    ensures a != Identity(op) ==> Folded(a) && !IsYesOrNo(a)
  {
  }

  /** What two operands leave that are not `op` chains: nothing if they cancel, else themselves. */
  lemma LeavesLeft(op: Op, a: Expr, b: Expr, gone: bool, quotedToo: bool)
    requires Cancelled(op, a) && Cancelled(op, b) && !IsOp(op, a) && !IsOp(op, b)
    requires gone && a != Identity(op) ==> b != Identity(op)
    requires gone && a == Identity(op) ==> b == Identity(op)
    requires a != Identity(op) && b != Identity(op) ==>
               (gone <==> ShapeOf(a) == ShapeOf(b) && Cancels(ShapeOf(a), quotedToo))
    ensures if gone then IsDifference(op, a, b, Identity(op), Identity(op), quotedToo)
            else IsDifference(op, a, b, a, b, quotedToo)
  {
    LeafParts(op, a);
    LeafParts(op, b);
    LeafParts(op, Identity(op));
  }

  /** The last step of the recursion: two operands that are not `op` chains. */
  lemma CancelLeaves(op: Op, a: Expr, b: Expr)
    requires Cancelled(op, a) && Cancelled(op, b) && !IsOp(op, a) && !IsOp(op, b)
    requires Folded(a) && Folded(b) ==> (ExprEq(a, b) <==> ShapeOf(a) == ShapeOf(b) && IsThin(ShapeOf(a)))
    ensures IsDifference(op, a, b, CancelPairs(op, a, b).0, CancelPairs(op, a, b).1, false)
  {
    LeafParts(op, a);
    LeafParts(op, b);
    if a == Identity(op) || b == Identity(op) || (a == b && IsQuoted(ShapeOf(a))) || !ExprEq(a, b) {
      assert CancelPairs(op, a, b) == (a, b);
      LeavesLeft(op, a, b, false, false);
    } else {
      assert CancelPairs(op, a, b) == (Identity(op), Identity(op));
      LeavesLeft(op, a, b, true, false);
    }
  }

  // ----- folding -----

  /** Folding drops the cancelled operands and nothing else. */
  lemma {:induction false} FoldingKeepsParts(op: Op, e: Expr)
    requires Cancelled(op, e)
    ensures var f := EliminateYn(e);
            && Cancelled(op, f)
            && Parts(op, f) == Parts(op, e)
            && f != Annihilator(op)
            && (f == Identity(op) <==> Parts(op, e) == multiset{})
            && (IsOp(op, f) ==> |Parts(op, f)| >= 2)
  {
    if IsOp(op, e) {
      FoldingKeepsParts(op, e.l);
      FoldingKeepsParts(op, e.r);
      FoldingChain(op, e);
    } else if e != Identity(op) {
      FoldedHasNothingToFold(e);
    }
  }

  lemma FoldingChain(op: Op, e: Expr)
    requires IsOp(op, e)
    requires var l, r := EliminateYn(e.l), EliminateYn(e.r);
             && Cancelled(op, l) && Cancelled(op, r) && l != Annihilator(op) && r != Annihilator(op)
             && Parts(op, l) == Parts(op, e.l) && Parts(op, r) == Parts(op, e.r)
             && (l == Identity(op) <==> Parts(op, l) == multiset{})
             && (r == Identity(op) <==> Parts(op, r) == multiset{})
             && (IsOp(op, l) ==> |Parts(op, l)| >= 2) && (IsOp(op, r) ==> |Parts(op, r)| >= 2)
    ensures var f := EliminateYn(e);
            && Cancelled(op, f) && Parts(op, f) == Parts(op, e) && f != Annihilator(op)
            && (f == Identity(op) <==> Parts(op, e) == multiset{})
            && (IsOp(op, f) ==> |Parts(op, f)| >= 2)
  {
    var l, r := EliminateYn(e.l), EliminateYn(e.r);
    PartsOfChain(op, e.l, e.r);
    if l != Identity(op) && r != Identity(op) {
      assert EliminateYn(e) == Bin(op, l, r);
      PartsOfChain(op, l, r);
      assert |Parts(op, l) + Parts(op, r)| == |Parts(op, l)| + |Parts(op, r)|;
    }
  }

  /** A folded chain is a bare symbol exactly when it has no operands, or that symbol as its only one. */
  lemma FoldedSymbol(op: Op, f: Expr)
    requires Cancelled(op, f) && (IsOp(op, f) ==> |Parts(op, f)| >= 2)
    ensures f.Sym? ==> Parts(op, f) == if f == Identity(op) then multiset{} else multiset{ShapeSym(f.s)}
    ensures Parts(op, f) == multiset{} ==> f == Identity(op)
    ensures forall q :: Parts(op, f) == multiset{ShapeSym(q)} ==> f == Sym(q)
  {
    if !IsOp(op, f) {
      LeafParts(op, f);
      forall q | Parts(op, f) == multiset{ShapeSym(q)} ensures f == Sym(q) {
        assert ShapeSym(q) in multiset{ShapeOf(f)};
      }
    } else {
      forall q ensures Parts(op, f) != multiset{ShapeSym(q)} {
        assert |multiset{ShapeSym(q)}| == 1;
      }
    }
  }

  // ----- the decision -----

  /** expr_eq holds of two folded expressions if and only if they differ at most in the order and grouping
      of like operands, and no chain in them has two bare quoted constants. */
  lemma {:induction false} ExprEqDecidesShape(a: Expr, b: Expr)
    requires Folded(a) && Folded(b)
    ensures ExprEq(a, b) <==> ShapeOf(a) == ShapeOf(b) && IsThin(ShapeOf(a))
    decreases Size(a) + Size(b), 1, 1
  {
    if a.Not? && b.Not? {
      ExprEqDecidesShape(a.e, b.e);
    } else if a.Bin? && b.Bin? && a.op == b.op {
      FoldedIsCancelled(a.op, a);
      FoldedIsCancelled(a.op, b);
      CancelPairsIsDifference(a.op, a, b);
      ChainsEqual(a.op, a, b);
    }
  }

  /** Two chains of one connective are found equal exactly when one and the same symbol is left of both. */
  lemma ChainsEqual(op: Op, a: Expr, b: Expr)
    requires IsOp(op, a) && IsOp(op, b)
    requires IsDifference(op, a, b, CancelPairs(op, a, b).0, CancelPairs(op, a, b).1, false)
    ensures ExprEq(a, b) <==> ShapeOf(a) == ShapeOf(b) && IsThin(ShapeOf(a))
  {
    var (x, y) := CancelPairs(op, a, b);
    var (f, g) := (EliminateYn(x), EliminateYn(y));
    ChainStaysChain(op, a, b);
    assert EliminateEq(a, b) == (f, g);
    FoldingKeepsParts(op, x);
    FoldingKeepsParts(op, y);
    SymbolsLeft(op, f, g, Parts(op, a), Parts(op, b));
    assert ExprEq(a, b) <==> f.Sym? && g.Sym? && f.s == g.s;
    PartsOfChain(op, a.l, a.r);
    PartsOfChain(op, b.l, b.r);
  }

  lemma SymbolsLeft(op: Op, f: Expr, g: Expr, p: multiset<Shape>, q: multiset<Shape>)
    requires Cancelled(op, f) && (IsOp(op, f) ==> |Parts(op, f)| >= 2)
    requires Cancelled(op, g) && (IsOp(op, g) ==> |Parts(op, g)| >= 2)
    requires IsLeft(Parts(op, f), p, q, false) && IsLeft(Parts(op, g), q, p, false)
    ensures f.Sym? && g.Sym? && f.s == g.s <==> p == q && IsThin(ShapeBin(op, p))
  {
    FoldedSymbol(op, f);
    FoldedSymbol(op, g);
    if f.Sym? && g.Sym? && f.s == g.s {
      EqualLeftovers(Parts(op, f), p, q);
      OneSymbolLeft(op, Parts(op, f), p, q, f.s);
    } else if p == q && IsThin(ShapeBin(op, p)) {
      QuotedLeft(op, Parts(op, f), Parts(op, g), p);
    }
  }

  lemma EqualLeftovers(x: multiset<Shape>, p: multiset<Shape>, q: multiset<Shape>)
    requires IsLeft(x, p, q, false) && IsLeft(x, q, p, false)
    ensures p == q
  {
    forall s ensures p[s] == q[s] {
      assert x[s] == Remaining(Cancels(s, false), p[s], q[s]);
    }
  }

  /** Only a bare quoted constant can be left of two chains with the same operands. */
  lemma OneSymbolLeft(op: Op, x: multiset<Shape>, p: multiset<Shape>, q: multiset<Shape>, f: Symbol)
    requires IsLeft(x, p, q, false) && (x == multiset{} || x == multiset{ShapeSym(f)})
    ensures IsThin(ShapeBin(op, p))
  {
    forall s | s in p && !Cancels(s, false) ensures s == ShapeSym(f) && p[s] == 1 {
      assert x[s] == Remaining(Cancels(s, false), p[s], q[s]);
      assert s in x;
    }
  }

  lemma QuotedLeft(op: Op, x: multiset<Shape>, y: multiset<Shape>, p: multiset<Shape>)
    requires IsLeft(x, p, p, false) && IsLeft(y, p, p, false) && IsThin(ShapeBin(op, p))
    ensures x == y && (x == multiset{} || exists q :: x == multiset{ShapeSym(q)})
  {
    forall s ensures x[s] == y[s] {
      assert x[s] == Remaining(Cancels(s, false), p[s], p[s]);
    }
    forall s | s in x ensures s in p && IsQuoted(s) && x[s] == 1 {
      assert x[s] == Remaining(Cancels(s, false), p[s], p[s]);
    }
    if x != multiset{} {
      var s :| s in x;
      forall t ensures x[t] == multiset{s}[t] {
        assert t in x ==> t == s;
      }
      assert x == multiset{ShapeSym(s.s)};
    }
  }

  lemma ChainStaysChain(op: Op, a: Expr, b: Expr)
    requires IsOp(op, a) || IsOp(op, b)
    ensures IsOp(op, a) ==> IsOp(op, CancelPairs(op, a, b).0)
    ensures IsOp(op, b) ==> IsOp(op, CancelPairs(op, a, b).1)
    decreases a
  {
    if IsOp(op, a) {
      var (l, b1) := CancelPairs(op, a.l, b);
      if IsOp(op, b) {
        ChainStaysChain(op, a.l, b);
        ChainStaysChain(op, a.r, b1);
      }
    }
  }

  /** So it sees through regrouping and commuting, at any depth. */
  lemma ExprEqIgnoresGrouping(op: Op, a: Expr, b: Expr, c: Expr)
    requires Folded(Bin(op, Bin(op, a, b), c)) && IsThin(ShapeOf(Bin(op, Bin(op, a, b), c)))
    ensures ExprEq(Bin(op, Bin(op, a, b), c), Bin(op, a, Bin(op, b, c)))
  {
    RegroupedShape(op, a, b, c);
    ExprEqDecidesShape(Bin(op, Bin(op, a, b), c), Bin(op, a, Bin(op, b, c)));
  }

  lemma RegroupedShape(op: Op, a: Expr, b: Expr, c: Expr)
    ensures ShapeOf(Bin(op, Bin(op, a, b), c)) == ShapeOf(Bin(op, a, Bin(op, b, c)))
  {
    var p, q, r := Parts(op, a), Parts(op, b), Parts(op, c);
    PartsOfChain(op, a, b);
    PartsOfChain(op, b, c);
    assert (p + q) + r == p + (q + r);
  }

  lemma ExprEqIgnoresOrder(op: Op, a: Expr, b: Expr)
    requires Folded(Bin(op, a, b)) && IsThin(ShapeOf(Bin(op, a, b)))
    ensures ExprEq(Bin(op, a, b), Bin(op, b, a))
  {
    ExprEqDecidesShape(Bin(op, a, b), Bin(op, b, a));
  }

  /** A folded expression is found equal to itself if and only if none of its chains has two bare quoted
      constants. */
  lemma ExprEqIsReflexiveExactlyWhen(e: Expr)
    requires Folded(e)
    ensures ExprEq(e, e) <==> IsThin(ShapeOf(e))
  {
    ExprEqDecidesShape(e, e);
  }

  /** So no chain of two quoted constants is, because a constant other than `m` is never cancelled. */
  lemma ExprEqMissesQuotedPair(op: Op, a: QuotedName, b: QuotedName)
    ensures var e := Bin(op, Sym(Quoted(a)), Sym(Quoted(b))); !ExprEq(e, e)
  {
    var l, r := Sym(Quoted(a)), Sym(Quoted(b));
    LeafParts(op, l);
    LeafParts(op, r);
    TwoQuotedAreNotThin(op, ShapeOf(l), ShapeOf(r));
    ExprEqIsReflexiveExactlyWhen(Bin(op, l, r));
  }

  lemma VariableCancels(op: Op, v: Symbol)
    requires v.Variable?
    ensures CancelPairs(op, Sym(v), Sym(v)) == (Identity(op), Identity(op))
  {
    assert ExprEq(Sym(v), Sym(v));
  }

  lemma DifferentStay(op: Op, a: Expr, b: Expr)
    requires !IsOp(op, a) && b.Sym? && a != b
    ensures !ExprEq(a, b) && CancelPairs(op, a, b) == (a, b)
  {
  }

  /** An operand that the first operand of the other chain lacks, and the second one is. */
  lemma CancelsWithSecond(op: Op, v: Symbol, w: Symbol)
    requires w.Variable? && v != w
    ensures CancelPairs(op, Sym(w), Bin(op, Sym(v), Sym(w))) == (Identity(op), Bin(op, Sym(v), Identity(op)))
  {
    DifferentStay(op, Sym(w), Sym(v));
    VariableCancels(op, w);
  }

  lemma CancelsWithNeither(op: Op, a: Expr, v: Symbol, w: Symbol)
    requires !IsOp(op, a) && !a.Sym?
    ensures CancelPairs(op, a, Bin(op, Sym(v), Sym(w))) == (a, Bin(op, Sym(v), Sym(w)))
  {
    DifferentStay(op, a, Sym(v));
    DifferentStay(op, a, Sym(w));
  }

  lemma LeftoversFold(v: Symbol)
    requires v.Variable?
    ensures EliminateYn(Bin(AND, Bin(OR, EXPR_NO, Sym(v)), EXPR_YES)) == Sym(v)
    ensures EliminateYn(Bin(AND, Sym(v), EXPR_YES)) == Sym(v)
  {
    assert EliminateYn(Bin(OR, EXPR_NO, Sym(v))) == Sym(v);
  }

  /** Beyond folded expressions the answer depends on where it is asked, because it folds what is left of two
      chains but not their operands: `(n || v) && w` is found equal to `v && w`, but `n || v` not to `v`. */
  lemma ExprEqFoldsOnlyLeftovers(v: Symbol, w: Symbol)
    requires v.Variable? && w.Variable? && v != w
    ensures ExprEq(Bin(AND, Bin(OR, EXPR_NO, Sym(v)), Sym(w)), Bin(AND, Sym(v), Sym(w)))
    ensures !ExprEq(Bin(OR, EXPR_NO, Sym(v)), Sym(v))
  {
    var x, y, o := Sym(v), Sym(w), Bin(OR, EXPR_NO, Sym(v));
    var a, b := Bin(AND, o, y), Bin(AND, x, y);
    CancelsWithNeither(AND, o, v, w);
    CancelsWithSecond(AND, v, w);
    var a', b' := Bin(AND, o, EXPR_YES), Bin(AND, x, EXPR_YES);
    assert CancelPairs(AND, a, b) == (a', b');
    LeftoversFold(v);
    assert EliminateEq(a, b) == (x, x);
  }

  lemma TwoQuotedAreNotThin(op: Op, p: Shape, q: Shape)
    requires IsQuoted(p) && IsQuoted(q)
    ensures !IsThin(ShapeBin(op, multiset{p} + multiset{q}))
  {
    var parts := multiset{p} + multiset{q};
    assert p in parts && q in parts;
    assert p == q ==> parts[p] == 2;
  }
}

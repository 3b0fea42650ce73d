/** Expression nodes in memory, and the functions of scripts/kconfig/expr.c that overwrite them.
    Each one is shown to leave behind the tree that the corresponding function on expressions gives. */
module ExprNodesModule {
  import opened KconfigExpr
  import opened EliminateYnModule
  import opened ExprEqModule
  import opened TransformModule

  /** The type field together with the two unions of `struct expr`. */
  datatype Cell =
    | CSym(s: Symbol)
    | CEqual(left: Symbol, right: Symbol)
    | CUnequal(left: Symbol, right: Symbol)
    | CNot(e: Node)
    | CBin(op: Op, l: Node, r: Node)

  class Node {
    var cell: Cell
    /** The nodes of the tree below this one. */
    ghost var Repr: set<Node>
    /** The expression these nodes stand for. */
    ghost var Tree: Expr

    constructor (c: Cell)
      requires c.CNot? ==> c.e.Valid()
      requires c.CBin? ==> c.l.Valid() && c.r.Valid() && c.l.Repr !! c.r.Repr
      ensures cell == c && fresh(this) && Valid()
      ensures Repr == {this} + NodesBelow(c) && Tree == TreeOf(c)
    {
      cell := c;
      Repr := {this} + NodesBelow(c);
      Tree := TreeOf(c);
    }

    /** The nodes form a tree: nothing is shared and nothing points back. */
    ghost predicate Valid()
      reads this, Repr
      ensures Valid() ==> this in Repr
      decreases Repr
    {
      && this in Repr
      && (cell.CNot? ==> cell.e in Repr && cell.e.Repr <= Repr - {this} && cell.e.Valid())
      && (cell.CBin? ==>
           && cell.l in Repr && cell.r in Repr
           && cell.l.Repr <= Repr - {this} && cell.r.Repr <= Repr - {this} && cell.l.Repr !! cell.r.Repr
           && cell.l.Valid() && cell.r.Valid())
      && Tree == TreeOf(cell)
    }
  }

  ghost function NodesBelow(c: Cell): set<Node>
    reads if c.CNot? then {c.e} else if c.CBin? then {c.l, c.r} else {}
  {
    match c
    case CNot(e) => e.Repr
    case CBin(_, l, r) => l.Repr + r.Repr
    case _ => {}
  }

  ghost function TreeOf(c: Cell): Expr
    reads if c.CNot? then {c.e} else if c.CBin? then {c.l, c.r} else {}
  {
    match c
    case CSym(s) => Sym(s)
    case CEqual(a, b) => Equal(a, b)
    case CUnequal(a, b) => Unequal(a, b)
    case CNot(e) => Not(e.Tree)
    case CBin(op, l, r) => Bin(op, l.Tree, r.Tree)
  }

  /** Operands that can be put below `n`. */
  ghost predicate FitsBelow(n: Node, c: Cell)
    reads n, if c.CNot? then {c.e} + c.e.Repr else if c.CBin? then {c.l, c.r} + c.l.Repr + c.r.Repr else {}
  {
    && (c.CNot? ==> c.e.Valid() && n !in c.e.Repr)
    && (c.CBin? ==> c.l.Valid() && c.r.Valid() && c.l.Repr !! c.r.Repr && n !in c.l.Repr && n !in c.r.Repr)
  }

  /** New type and operands for an existing node. */
  method Overwrite(n: Node, c: Cell)
    requires FitsBelow(n, c)
    modifies n
    ensures n.Valid() && n.cell == c && n.Repr == {n} + NodesBelow(c) && n.Tree == TreeOf(c)
    ensures TreeOf(c) == old(TreeOf(c)) && NodesBelow(c) == old(NodesBelow(c))
  {
    n.cell := c;
    n.Repr := {n} + NodesBelow(c);
    n.Tree := TreeOf(c);
  }

  predicate IsSymbol(n: Node, e: Expr)
    requires e.Sym?
    reads n
  {
    n.cell == CSym(e.s)
  }

  /** Replaces a connective node by its constant, or by a copy of one operand node. */
  method FoldInPlace(e: Node)
    requires e.Valid() && e.cell.CBin?
    modifies e
    ensures e.Valid() && e.Repr <= old(e.Repr)
    ensures e.Tree == FoldConstants(old(e.cell.op), old(e.cell.l.Tree), old(e.cell.r.Tree))
  {
    var CBin(op, l, r) := e.cell;
    if IsSymbol(l, Annihilator(op)) {
      Overwrite(e, CSym(Annihilator(op).s));
    } else if IsSymbol(l, Identity(op)) {
      Overwrite(e, r.cell);
    } else if IsSymbol(r, Annihilator(op)) {
      Overwrite(e, CSym(Annihilator(op).s));
    } else if IsSymbol(r, Identity(op)) {
      Overwrite(e, l.cell);
    }
  }

  /** `expr_eliminate_yn(e)`: the root node stays the root. */
  method EliminateYnInPlace(e: Node)
    requires e.Valid()
    modifies e.Repr
    ensures e.Valid() && e.Repr <= old(e.Repr)
    ensures e.Tree == EliminateYn(old(e.Tree))
    decreases e.Repr
  {
    match e.cell {
      case CBin(op, l, r) =>
        EliminateYnInPlace(l);
        EliminateYnInPlace(r);
        Overwrite(e, CBin(op, l, r));
        FoldInPlace(e);
      case _ =>
    }
  }

  /** `expr_transform(e)`: the result may be a node further down. */
  method TransformInPlace(e: Node) returns (r: Node)
    requires e.Valid()
    modifies e.Repr
    ensures r.Valid() && fresh(r.Repr - old(e.Repr))
    ensures r.Tree == Transform(old(e.Tree))
    decreases Weight(e.Tree), 1
  {
    r := e;
    match e.cell {
      case CSym(_) =>
      case CEqual(a, b) =>
        TransformComparison(e, a, b, true);
      case CUnequal(a, b) =>
        TransformComparison(e, a, b, false);
      case CBin(_, _, _) =>
        TransformOperands(e);
      case CNot(_) =>
        TransformOperand(e);
        r := TransformNotInPlace(e);
    }
  }

  method TransformOperands(e: Node)
    requires e.Valid() && e.cell.CBin?
    modifies e.Repr
    ensures e.Valid() && fresh(e.Repr - old(e.Repr))
    ensures e.Tree == old(Bin(e.cell.op, Transform(e.cell.l.Tree), Transform(e.cell.r.Tree)))
    decreases Weight(e.Tree), 0
  {
    var CBin(op, l, r) := e.cell;
    var l' := TransformInPlace(l);
    var r' := TransformInPlace(r);
    Overwrite(e, CBin(op, l', r'));
  }

  method TransformOperand(e: Node)
    requires e.Valid() && e.cell.CNot?
    modifies e.Repr
    ensures e.Valid() && fresh(e.Repr - old(e.Repr)) && e.cell.CNot?
    ensures e.cell.e.Tree == Transform(old(e.cell.e.Tree))
    decreases Weight(e.Tree), 0
  {
    var x := TransformInPlace(e.cell.e);
    Overwrite(e, CNot(x));
  }

  /** The cases E_EQUAL and E_UNEQUAL. */
  method TransformComparison(e: Node, a: Symbol, b: Symbol, equal: bool)
    requires e.Valid() && e.cell == if equal then CEqual(a, b) else CUnequal(a, b)
    modifies e
    ensures e.Valid() && fresh(e.Repr - old(e.Repr))
    ensures e.Tree == if equal then TransformEqual(a, b) else TransformUnequal(a, b)
  {
    if a.Type() != BOOLEAN {
      return;
    }
    match b {
      case SymMod =>
        Overwrite(e, CSym(if equal then SymNo else SymYes));
      case SymYes =>
        if equal {
          Overwrite(e, CSym(a));
        } else {
          NegateSymbol(e, a);
        }
      case SymNo =>
        if equal {
          NegateSymbol(e, a);
        } else {
          Overwrite(e, CSym(a));
        }
      case _ =>
    }
  }

  /** `e->type = E_NOT; e->left.expr = expr_alloc_symbol(a)`. */
  method NegateSymbol(e: Node, a: Symbol)
    modifies e
    ensures e.Valid() && e.Tree == Not(Sym(a)) && fresh(e.Repr - {e})
  {
    var n := new Node(CSym(a));
    Overwrite(e, CNot(n));
  }

  /** The case E_NOT, over an operand that is transformed already. */
  method TransformNotInPlace(e: Node) returns (r: Node)
    requires e.Valid() && e.cell.CNot?
    modifies e.Repr
    ensures r.Valid() && fresh(r.Repr - old(e.Repr))
    ensures r.Tree == TransformNot(old(e.cell.e.Tree))
    decreases Weight(e.Tree), 0
  {
    var tmp := e.cell.e;
    r := tmp;
    match tmp.cell {
      case CNot(y) =>
        assert Weight(tmp.Tree) == 1 + 3 * Weight(y.Tree);
        r := TransformInPlace(y);
      case CEqual(a, b) =>
        Overwrite(tmp, CUnequal(a, b));
      case CUnequal(a, b) =>
        Overwrite(tmp, CEqual(a, b));
      case CBin(op, a, b) =>
        DeMorganIsLighter(op, a.Tree, b.Tree);
        DeMorganInPlace(e);
        r := TransformInPlace(e);
      case CSym(s) =>
        match s {
          case SymYes => Overwrite(tmp, CSym(SymNo));
          case SymMod => Overwrite(tmp, CSym(SymMod));
          case SymNo => Overwrite(tmp, CSym(SymYes));
          case _ => r := e;
        }
    }
  }

  function DeMorgan(t: Expr): Expr {
    match t
    case Not(Bin(op, l, r)) => Bin(DualOp(op), Not(l), Not(r))
    case _ => t
  }

  /** `!(a op b)`: the node of `!` becomes the dual connective, the node of `op` the first negation. */
  method DeMorganInPlace(e: Node)
    requires e.Valid() && e.cell.CNot? && e.cell.e.cell.CBin?
    modifies e, e.cell.e
    ensures e.Valid() && fresh(e.Repr - old(e.Repr))
    ensures e.Tree == DeMorgan(old(e.Tree))
  {
    var tmp := e.cell.e;
    var CBin(op, a, b) := tmp.cell;
    var n := new Node(CNot(b));
    Overwrite(tmp, CNot(a));
    Overwrite(e, CBin(DualOp(op), tmp, n));
  }

  /** `expr_copy(e)`. */
  method Copy(e: Node) returns (c: Node)
    requires e.Valid()
    ensures c.Valid() && fresh(c.Repr) && c.Tree == e.Tree
    decreases e.Repr
  {
    match e.cell {
      case CNot(x) =>
        var y := Copy(x);
        c := new Node(CNot(y));
      case CBin(op, l, r) =>
        var l' := Copy(l);
        var r' := Copy(r);
        c := new Node(CBin(op, l', r'));
      case cell =>
        c := new Node(cell);
    }
  }

  /** `a->type == b->type`. */
  predicate SameKind(a: Cell, b: Cell) {
    match a
    case CSym(_) => b.CSym?
    case CEqual(_, _) => b.CEqual?
    case CUnequal(_, _) => b.CUnequal?
    case CNot(_) => b.CNot?
    case CBin(op, _, _) => b.CBin? && b.op == op
  }

  /** `expr_eq(a, b)`: cancellation runs on copies. */
  method ExprEqNodes(a: Node, b: Node) returns (eq: bool)
    requires a.Valid() && b.Valid()
    ensures eq == ExprEq(a.Tree, b.Tree)
    decreases Size(a.Tree) + Size(b.Tree), 1, 2
  {
    if !SameKind(a.cell, b.cell) {
      return false;
    }
    match a.cell {
      case CNot(x) =>
        eq := ExprEqNodes(x, b.cell.e);
      case CBin(_, _, _) =>
        var x := Copy(a);
        var y := Copy(b);
        x, y := EliminateEqInPlace(x, y);
        eq := x.cell.CSym? && y.cell.CSym? && x.cell == y.cell;
      case cell =>
        eq := cell == b.cell;
    }
  }

  ghost predicate Separate(a: Node, b: Node)
    reads a, a.Repr, b, b.Repr
  {
    a.Valid() && b.Valid() && a.Repr !! b.Repr
  }

  /** `expr_eliminate_eq(&a, &b)` for two trees that share nothing. */
  method EliminateEqInPlace(a: Node, b: Node) returns (x: Node, y: Node)
    requires Separate(a, b)
    modifies a.Repr, b.Repr
    ensures Separate(x, y) && fresh(x.Repr - old(a.Repr)) && fresh(y.Repr - old(b.Repr))
    ensures (x.Tree, y.Tree) == EliminateEq(old(a.Tree), old(b.Tree))
    decreases Size(a.Tree) + Size(b.Tree), if a.Tree.Bin? && SameType(a.Tree, b.Tree) then 1 else 3, 1
  {
    x, y := a, b;
    if a.cell.CBin? {
      x, y := CancelPairsInPlace(a.cell.op, a, b);
    }
    x, y := CancelSecondRoot(x, y);
    FoldBoth(x, y);
  }

  /** The pass for the connective of the second operand, if it is a different one. */
  method CancelSecondRoot(a: Node, b: Node) returns (x: Node, y: Node)
    requires Separate(a, b)
    modifies a.Repr, b.Repr
    ensures Separate(x, y) && fresh(x.Repr - old(a.Repr)) && fresh(y.Repr - old(b.Repr))
    ensures (x.Tree, y.Tree) == old(if !SameType(a.Tree, b.Tree) && b.Tree.Bin?
                                    then CancelPairs(b.Tree.op, a.Tree, b.Tree) else (a.Tree, b.Tree))
    decreases Size(a.Tree) + Size(b.Tree), 0, 3
  {
    x, y := a, b;
    if !SameKind(a.cell, b.cell) && b.cell.CBin? {
      x, y := CancelPairsInPlace(b.cell.op, a, b);
    }
  }

  method FoldBoth(x: Node, y: Node)
    requires Separate(x, y)
    modifies x.Repr, y.Repr
    ensures Separate(x, y) && x.Repr <= old(x.Repr) && y.Repr <= old(y.Repr)
    ensures x.Tree == EliminateYn(old(x.Tree)) && y.Tree == EliminateYn(old(y.Tree))
  {
    EliminateYnInPlace(x);
    EliminateYnInPlace(y);
  }

  /** `__expr_eliminate_eq(op, &a, &b)`; a slot that is overwritten gets a new node. */
  method CancelPairsInPlace(op: Op, a: Node, b: Node) returns (x: Node, y: Node)
    requires Separate(a, b)
    modifies a.Repr, b.Repr
    ensures Separate(x, y) && fresh(x.Repr - old(a.Repr)) && fresh(y.Repr - old(b.Repr))
    ensures (x.Tree, y.Tree) == CancelPairs(op, old(a.Tree), old(b.Tree))
    decreases Size(a.Tree) + Size(b.Tree), if IsOp(op, a.Tree) || IsOp(op, b.Tree) then 0 else 2, 2
  {
    if a.cell.CBin? && a.cell.op == op {
      x := a;
      y := CancelFirstChain(op, a, b);
    } else if b.cell.CBin? && b.cell.op == op {
      y := b;
      x := CancelSecondChain(op, a, b);
    } else {
      x, y := CancelOperands(op, a, b);
    }
  }

  ghost predicate CancelsFirst(op: Op, l: Expr, r: Expr, b: Expr, l': Expr, r': Expr, y: Expr) {
    var (p, z) := CancelPairs(op, l, b);
    l' == p && (r', y) == CancelPairs(op, r, z)
  }

  lemma FirstChainCancelled(op: Op, l: Expr, r: Expr, b: Expr, l': Expr, r': Expr, y: Expr)
    requires CancelsFirst(op, l, r, b, l', r', y)
    ensures CancelPairs(op, Bin(op, l, r), b) == (Bin(op, l', r'), y)
  {
  }

  ghost predicate CancelsSecond(op: Op, a: Expr, l: Expr, r: Expr, x: Expr, l': Expr, r': Expr) {
    var (z, p) := CancelPairs(op, a, l);
    l' == p && (x, r') == CancelPairs(op, z, r)
  }

  lemma SecondChainCancelled(op: Op, a: Expr, l: Expr, r: Expr, x: Expr, l': Expr, r': Expr)
    requires CancelsSecond(op, a, l, r, x, l', r') && !IsOp(op, a)
    ensures CancelPairs(op, a, Bin(op, l, r)) == (x, Bin(op, l', r'))
  {
  }

  method CancelFirstChain(op: Op, a: Node, b: Node) returns (y: Node)
    requires Separate(a, b) && IsOp(op, a.Tree)
    modifies a.Repr, b.Repr
    ensures Separate(a, y) && fresh(a.Repr - old(a.Repr)) && fresh(y.Repr - old(b.Repr))
    ensures (a.Tree, y.Tree) == CancelPairs(op, old(a.Tree), old(b.Tree))
    decreases Size(a.Tree) + Size(b.Tree), 0, 1
  {
    ghost var tl, tr, tb := a.cell.l.Tree, a.cell.r.Tree, b.Tree;
    assert a.Tree == Bin(op, tl, tr);
    var l, r;
    l, r, y := CancelBothFirst(op, a.cell.l, a.cell.r, b);
    assert a !in l.Repr && a !in r.Repr && a !in y.Repr;
    FirstChainCancelled(op, tl, tr, tb, l.Tree, r.Tree, y.Tree);
    Overwrite(a, CBin(op, l, r));
    assert Separate(a, y);
  }

  /** The two recursive calls for the operands `l` and `r` of the first chain. */
  method CancelBothFirst(op: Op, l: Node, r: Node, b: Node) returns (l': Node, r': Node, y: Node)
    requires Separate(l, r) && Separate(l, b) && Separate(r, b)
    modifies l.Repr, r.Repr, b.Repr
    ensures Separate(l', r') && Separate(l', y) && Separate(r', y)
    ensures fresh(l'.Repr - old(l.Repr)) && fresh(r'.Repr - old(r.Repr)) && fresh(y.Repr - old(b.Repr))
    ensures CancelsFirst(op, old(l.Tree), old(r.Tree), old(b.Tree), l'.Tree, r'.Tree, y.Tree)
    decreases 1 + Size(l.Tree) + Size(r.Tree) + Size(b.Tree), 0, 0
  {
    l', y := CancelPairsInPlace(op, l, b);
    r', y := CancelPairsInPlace(op, r, y);
  }

  method CancelSecondChain(op: Op, a: Node, b: Node) returns (x: Node)
    requires Separate(a, b) && !IsOp(op, a.Tree) && IsOp(op, b.Tree)
    modifies a.Repr, b.Repr
    ensures Separate(x, b) && fresh(x.Repr - old(a.Repr)) && fresh(b.Repr - old(b.Repr))
    ensures (x.Tree, b.Tree) == CancelPairs(op, old(a.Tree), old(b.Tree))
    decreases Size(a.Tree) + Size(b.Tree), 0, 1
  {
    ghost var ta, tl, tr := a.Tree, b.cell.l.Tree, b.cell.r.Tree;
    assert b.Tree == Bin(op, tl, tr);
    var l, r;
    x, l, r := CancelBothSecond(op, a, b.cell.l, b.cell.r);
    assert b !in l.Repr && b !in r.Repr && b !in x.Repr;
    SecondChainCancelled(op, ta, tl, tr, x.Tree, l.Tree, r.Tree);
    Overwrite(b, CBin(op, l, r));
    assert Separate(x, b);
  }

  method CancelBothSecond(op: Op, a: Node, l: Node, r: Node) returns (x: Node, l': Node, r': Node)
    requires Separate(a, l) && Separate(a, r) && Separate(l, r)
    modifies a.Repr, l.Repr, r.Repr
    ensures Separate(x, l') && Separate(x, r') && Separate(l', r')
    ensures fresh(x.Repr - old(a.Repr)) && fresh(l'.Repr - old(l.Repr)) && fresh(r'.Repr - old(r.Repr))
    ensures CancelsSecond(op, old(a.Tree), old(l.Tree), old(r.Tree), x.Tree, l'.Tree, r'.Tree)
    decreases 1 + Size(a.Tree) + Size(l.Tree) + Size(r.Tree), 0, 0
  {
    x, l' := CancelPairsInPlace(op, a, l);
    x, r' := CancelPairsInPlace(op, x, r);
  }

  method CancelOperands(op: Op, a: Node, b: Node) returns (x: Node, y: Node)
    requires Separate(a, b) && !IsOp(op, a.Tree) && !IsOp(op, b.Tree)
    ensures Separate(x, y) && fresh(x.Repr - a.Repr) && fresh(y.Repr - b.Repr)
    ensures (x.Tree, y.Tree) == CancelPairs(op, a.Tree, b.Tree)
    decreases Size(a.Tree) + Size(b.Tree), 2, 0
  {
    x, y := a, b;
    if a.cell.CSym? && a.cell == b.cell && a.cell.s.HasYesOrNoFlag() {
      return;
    }
    var eq := ExprEqNodes(a, b);
    if eq {
      x := new Node(CSym(Identity(op).s));
      y := new Node(CSym(Identity(op).s));
    }
  }
}

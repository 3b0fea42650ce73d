/** What duplicate elimination leaves (scripts/kconfig/expr.c): in no chain of the result, at any depth, can two
    operands be joined, and none is refuted. */
module DupsSettledModule {
  import opened Common
  import opened KconfigExpr
  import opened EliminateYnModule
  import opened JoinsModule
  import opened SlotsModule
  import opened DupsModule
  import opened DupsProofsModule
  import opened EliminateDupsModule

  /** No two operands of the chain can be joined. */
  ghost predicate NothingToJoin(op: Op, t: Expr) {
    forall i, j {:trigger At(op, t, i), At(op, t, j)} ::
      IsOperand(op, t, i) && IsOperand(op, t, j) && i != j ==> Join(op, At(op, t, i), At(op, t, j)) == None
  }

  /** No operand that is a chain contradicts another operand or a part of the chain beside it. */
  ghost predicate NothingToRefute(op: Op, t: Expr) {
    forall i, j {:trigger At(op, t, i), At(op, t, j)} ::
      IsOperand(op, t, i) && IsSlot(op, t, j) && i != j && At(op, t, i).Bin?
      ==> !Contradicts(op, At(op, t, i), At(op, t, j))
  }

  // ----- a pass that rewrites nothing -----

  /** The first pass rewrites neither the two operands nor anything inside the first. */
  predicate StaysJoined(op: Op, a: Expr, b: Expr) {
    Join(op, a, b) == None && (a.Bin? ==> Dups1(a.op, a, [], []).count == 0)
  }

  /** The second pass rewrites neither the first one nor anything inside it. */
  predicate StaysRefuted(op: Op, a: Expr, b: Expr) {
    a.Bin? ==> !Contradicts(op, a, b) && Dups2(a.op, a, [], []).count == 0
  }

  ghost predicate QuietJoins(op: Op, t: Expr, p: Path, q: Path) {
    forall i, j {:trigger At(op, t, i), At(op, t, j)} ::
      IsOperand(op, t, i) && IsOperand(op, t, j) && p <= i && q <= j && i != j
      ==> StaysJoined(op, At(op, t, i), At(op, t, j))
  }

  ghost predicate QuietRefutations(op: Op, t: Expr, p: Path, q: Path) {
    forall i, j {:trigger At(op, t, i), At(op, t, j)} ::
      IsOperand(op, t, i) && IsSlot(op, t, j) && p <= i && q <= j && i != j
      ==> StaysRefuted(op, At(op, t, i), At(op, t, j))
  }

  /** No slot lies below an operand. */
  lemma {:induction false} OperandIsLast(op: Op, t: Expr, p: Path, i: Path)
    requires IsOperand(op, t, p) && IsSlot(op, t, i) && p <= i
    ensures i == p
  {
    if p != [] {
      assert p[1..] <= i[1..] && p[0] == i[0];
      OperandIsLast(op, Child(t, p[0]), p[1..], i[1..]);
      assert p == [p[0]] + p[1..] && i == [i[0]] + i[1..];
    }
  }

  /** A longer path goes through one of the two children. */
  lemma Extends(p: Path, i: Path)
    requires p <= i && p != i
    ensures p + [false] <= i || p + [true] <= i
  {
    var step := i[|p|];
    assert i[..|p| + 1] == p + [step];
    assert step == true || step == false;
  }

  /** A chain on either side is quiet if both its parts are. */
  lemma BothPartsQuiet(op: Op, t: Expr, p: Path, q: Path)
    requires IsSlot(op, t, p) && IsSlot(op, t, q)
    requires || (IsOp(op, At(op, t, p)) && QuietJoins(op, t, p + [false], q) && QuietJoins(op, t, p + [true], q))
             || (IsOp(op, At(op, t, q)) && QuietJoins(op, t, p, q + [false]) && QuietJoins(op, t, p, q + [true]))
    ensures QuietJoins(op, t, p, q)
  {
    forall i, j | IsOperand(op, t, i) && IsOperand(op, t, j) && p <= i && q <= j && i != j
      ensures StaysJoined(op, At(op, t, i), At(op, t, j))
    {
      if p != i {
        Extends(p, i);
      }
      if q != j {
        Extends(q, j);
      }
    }
  }

  lemma BothPartsRefuted(op: Op, t: Expr, p: Path, q: Path)
    requires IsSlot(op, t, p) && IsSlot(op, t, q) && IsOp(op, At(op, t, p))
    requires QuietRefutations(op, t, p + [false], q) && QuietRefutations(op, t, p + [true], q)
    ensures QuietRefutations(op, t, p, q)
  {
    forall i, j | IsOperand(op, t, i) && IsSlot(op, t, j) && p <= i && q <= j && i != j
      ensures StaysRefuted(op, At(op, t, i), At(op, t, j))
    {
      Extends(p, i);
    }
  }

  lemma {:induction false} QuietDups1(op: Op, t: Expr, p: Path, q: Path)
    requires IsSlot(op, t, p) && IsSlot(op, t, q) && Dups1(op, t, p, q).count == 0
    ensures Dups1(op, t, p, q).e == t && QuietJoins(op, t, p, q)
    decreases Size(t), ChainSize(op, At(op, t, p)), ChainSize(op, At(op, t, q))
  {
    if IsOp(op, At(op, t, p)) {
      SlotChild(op, t, p, false);
      SlotChild(op, t, p, true);
      QuietDups1(op, t, p + [false], q);
      QuietDups1(op, t, p + [true], q);
      BothPartsQuiet(op, t, p, q);
    } else if IsOp(op, At(op, t, q)) {
      SlotChild(op, t, q, false);
      SlotChild(op, t, q, true);
      QuietDups1(op, t, p, q + [false]);
      QuietDups1(op, t, p, q + [true]);
      BothPartsQuiet(op, t, p, q);
    } else {
      forall i, j | IsOperand(op, t, i) && IsOperand(op, t, j) && p <= i && q <= j && i != j
        ensures i == p && j == q
      {
        OperandIsLast(op, t, p, i);
        OperandIsLast(op, t, q, j);
      }
      if p != q {
        OperandsAreBelow(op, t, p, q);
        var a := At(op, t, p);
        PutSame(op, t, p);
        if a.Bin? {
          QuietDups1(a.op, a, [], []);
        }
      }
    }
  }

  lemma {:induction false} QuietDups2(op: Op, t: Expr, p: Path, q: Path)
    requires IsSlot(op, t, p) && IsSlot(op, t, q) && Dups2(op, t, p, q).count == 0
    ensures Dups2(op, t, p, q).e == t && QuietRefutations(op, t, p, q)
    decreases Size(t), ChainSize(op, At(op, t, p)), ChainSize(op, At(op, t, q))
  {
    if IsOp(op, At(op, t, p)) {
      SlotChild(op, t, p, false);
      SlotChild(op, t, p, true);
      QuietDups2(op, t, p + [false], q);
      QuietDups2(op, t, p + [true], q);
      BothPartsRefuted(op, t, p, q);
    } else {
      if IsOp(op, At(op, t, q)) {
        SlotChild(op, t, q, false);
        SlotChild(op, t, q, true);
        QuietDups2(op, t, p, q + [false]);
        QuietDups2(op, t, p, q + [true]);
      }
      QuietOperand(op, t, p, q);
    }
  }

  /** The last part of the second pass, for one operand and one slot. */
  lemma {:induction false} QuietOperand(op: Op, t: Expr, p: Path, q: Path)
    requires IsOperand(op, t, p) && IsSlot(op, t, q) && Dups2(op, t, p, q).count == 0
    requires Dups2Parts(op, t, p, q).count == 0 ==> Dups2Parts(op, t, p, q).e == t
    requires IsOp(op, At(op, t, q)) ==> IsSlot(op, t, q + [false]) && IsSlot(op, t, q + [true])
    requires IsOp(op, At(op, t, q)) ==>
               QuietRefutations(op, t, p, q + [false]) && QuietRefutations(op, t, p, q + [true])
    ensures Dups2(op, t, p, q).e == t && QuietRefutations(op, t, p, q)
    decreases Size(t), ChainSize(op, At(op, t, p)), ChainSize(op, At(op, t, q)), 0
  {
    var a := At(op, t, p);
    if p != q && a.Bin? {
      OperandsAreBelow(op, t, p, q);
      PutSame(op, t, p);
      QuietDups2(a.op, a, [], []);
    }
    forall i, j | IsOperand(op, t, i) && IsSlot(op, t, j) && p <= i && q <= j && i != j
      ensures StaysRefuted(op, At(op, t, i), At(op, t, j))
    {
      OperandIsLast(op, t, p, i);
      if j != q {
        if !IsOp(op, At(op, t, q)) {
          OperandIsLast(op, t, q, j);
        }
        Extends(q, j);
      }
    }
  }

  // ----- every chain -----

  /** `c` is `e` or a chain inside it, outside negations. */
  predicate HasChain(e: Expr, c: Expr)
    decreases e, 0
  {
    e.Bin? && c.Bin? && (e == c || HasChainBelow(e.op, e.l, c) || HasChainBelow(e.op, e.r, c))
  }

  /** The same for an operand or a part of an `op` chain. */
  predicate HasChainBelow(op: Op, e: Expr, c: Expr)
    decreases e, 1
  {
    if IsOp(op, e) then HasChainBelow(op, e.l, c) || HasChainBelow(op, e.r, c) else HasChain(e, c)
  }

  /** There is an operand in any slot. */
  lemma {:induction false} SomeOperand(op: Op, t: Expr, p: Path) returns (i: Path)
    requires IsSlot(op, t, p)
    ensures p <= i && IsOperand(op, t, i)
    decreases Size(At(op, t, p))
  {
    if IsOp(op, At(op, t, p)) {
      SlotChild(op, t, p, false);
      i := SomeOperand(op, t, p + [false]);
    } else {
      i := p;
    }
  }

  /** Beside any operand of a chain there is another one. */
  lemma OtherOperand(op: Op, t: Expr, i: Path) returns (j: Path)
    requires IsOp(op, t) && IsOperand(op, t, i)
    ensures IsOperand(op, t, j) && i != j
  {
    var side := [!i[0]];
    assert side[1..] == [];
    j := SomeOperand(op, t, side);
    assert j[0] == side[0];
  }

  /** What a round that rewrites nothing says about the chain. */
  lemma QuietRound(e: Expr)
    requires e.Bin? && Round(e).count == 0
    ensures Round(e).e == e && QuietJoins(e.op, e, [], []) && QuietRefutations(e.op, e, [], [])
  {
    QuietDups1(e.op, e, [], []);
    QuietDups2(e.op, e, [], []);
  }

  /** A round that rewrites nothing rewrites nothing in any operand. */
  lemma OperandIsQuiet(e: Expr, i: Path)
    requires e.Bin? && Round(e).count == 0 && IsOperand(e.op, e, i)
    ensures Round(At(e.op, e, i)).count == 0
  {
    var a := At(e.op, e, i);
    QuietRound(e);
    var j := OtherOperand(e.op, e, i);
    assert [] <= i && [] <= j;
    assert StaysJoined(e.op, a, At(e.op, e, j)) && StaysRefuted(e.op, a, At(e.op, e, j));
    if a.Bin? {
      QuietDups1(a.op, a, [], []);
    }
  }

  lemma {:induction false} ChainIsQuiet(e: Expr, c: Expr)
    requires Round(e).count == 0 && HasChain(e, c)
    ensures Round(c).count == 0
    decreases Size(e), 2
  {
    if e != c {
      var right := HasChainBelow(e.op, e.r, c);
      assert [right][1..] == [];
      ChainBelowIsQuiet(e, [right], c);
    }
  }

  lemma {:induction false} ChainBelowIsQuiet(e: Expr, p: Path, c: Expr)
    requires e.Bin? && Round(e).count == 0 && IsSlot(e.op, e, p) && p != [] && HasChainBelow(e.op, At(e.op, e, p), c)
    ensures Round(c).count == 0
    decreases Size(e), 1, Size(At(e.op, e, p))
  {
    var a := At(e.op, e, p);
    if IsOp(e.op, a) {
      var right := HasChainBelow(e.op, a.r, c);
      SlotChild(e.op, e, p, right);
      ChainBelowIsQuiet(e, p + [right], c);
    } else {
      PutOperand(e.op, e, p, Identity(e.op));
      OperandIsQuiet(e, p);
      ChainIsQuiet(a, c);
    }
  }

  /** Nothing is left to rewrite in a chain: no two operands can be joined, none is refuted by what stands
      beside it, and running the elimination again changes nothing. */
  ghost predicate IsSettled(c: Expr)
    requires c.Bin?
  {
    EliminateDups(c) == c && NothingToJoin(c.op, c) && NothingToRefute(c.op, c)
  }

  lemma QuietIsSettled(c: Expr)
    requires c.Bin? && Round(c).count == 0
    ensures IsSettled(c)
  {
    QuietRound(c);
    var op := c.op;
    forall i, j | IsOperand(op, c, i) && IsOperand(op, c, j) && i != j
      ensures Join(op, At(op, c, i), At(op, c, j)) == None
    {
      assert [] <= i && [] <= j;
    }
    forall i, j | IsOperand(op, c, i) && IsSlot(op, c, j) && i != j && At(op, c, i).Bin?
      ensures !Contradicts(op, At(op, c, i), At(op, c, j))
    {
      assert [] <= i && [] <= j;
    }
  }

  /** The result is one of the rounds that rewrite nothing. */
  lemma {:induction false} ResultIsQuiet(e: Expr)
    ensures Round(EliminateDups(e)).count == 0 && EliminateDups(EliminateDups(e)) == EliminateDups(e)
    decreases Size(e)
  {
    var r := Round(e);
    if r.count > 0 {
      RoundShrinks(e);
      ResultIsQuiet(EliminateYn(r.e));
    } else if e.Bin? {
      QuietRound(e);
    }
  }

  /** In the result every chain is settled, at any depth outside negations, and running the elimination again
      changes nothing. */
  lemma EliminateDupsIsSettled(e: Expr)
    ensures EliminateDups(EliminateDups(e)) == EliminateDups(e)
    ensures forall c :: HasChain(EliminateDups(e), c) ==> c.Bin? && IsSettled(c)
  {
    var r := EliminateDups(e);
    ResultIsQuiet(e);
    forall c | HasChain(r, c) ensures c.Bin? && IsSettled(c) {
      ChainIsQuiet(r, c);
      QuietIsSettled(c);
    }
  }
}

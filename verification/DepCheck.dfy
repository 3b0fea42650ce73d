/** The search for recursive dependencies (scripts/kconfig/symbol.c): a depth-first walk with the flags CHECK
    and CHECKED that stops where it meets a symbol being checked and prints the symbols on its way back. */
module DepCheckModule {
  import opened Common
  import opened KconfigExpr

  datatype PropKind = PROMPT | COMMENT | MENU | DEFAULT | CHOICE | SELECT | RANGE

  datatype Property = Property(kind: PropKind, visible: Option<Expr>, value: Option<Expr>)

  /** The fields of struct symbol that the search reads. */
  datatype Decl = Decl(revDep: Option<Expr>, props: seq<Property>, isChoice: bool)

  type Table = map<Symbol, Decl>

  // ----- the dependency graph -----

  function Leaves(e: Expr): set<Symbol> {
    match e
    case Sym(s) => {s}
    case Equal(a, b) => {a, b}
    case Unequal(a, b) => {a, b}
    case Not(x) => Leaves(x)
    case Bin(_, x, y) => Leaves(x) + Leaves(y)
  }

  function LeavesOpt(e: Option<Expr>): set<Symbol> {
    if e.None? then {} else Leaves(e.value)
  }

  /** Choices and selects are passed over; the value counts only for a default that is not a choice's. */
  function PropertyLeaves(p: Property, isChoice: bool): set<Symbol> {
    if p.kind == CHOICE || p.kind == SELECT then {}
    else LeavesOpt(p.visible) + (if p.kind == DEFAULT && !isChoice then LeavesOpt(p.value) else {})
  }

  function PropertiesLeaves(d: Decl, n: nat): set<Symbol>
    requires n <= |d.props|
  {
    if n == 0 then {} else PropertiesLeaves(d, n - 1) + PropertyLeaves(d.props[n - 1], d.isChoice)
  }

  /** What the declaration of `s` refers to. */
  function Dependencies(t: Table, s: Symbol): set<Symbol>
    requires s in t
  {
    LeavesOpt(t[s].revDep) + PropertiesLeaves(t[s], |t[s].props|)
  }

  /** Every symbol has a declaration, if only an empty one. */
  ghost predicate IsClosed(t: Table) {
    forall s :: s in t ==> Dependencies(t, s) <= t.Keys
  }

  type Graph = map<Symbol, set<Symbol>>

  function GraphOf(t: Table): Graph {
    map s | s in t :: Dependencies(t, s)
  }

  function OccurrencesOpt(e: Option<Expr>): seq<Symbol> {
    if e.None? then [] else Occurrences(e.value)
  }

  /** The symbols a property refers to, in the order in which they are searched. */
  function PropertyOrder(p: Property, isChoice: bool): seq<Symbol> {
    if p.kind == CHOICE || p.kind == SELECT then []
    else OccurrencesOpt(p.visible) + (if p.kind == DEFAULT && !isChoice then OccurrencesOpt(p.value) else [])
  }

  function PropertiesOrder(d: Decl, n: nat): seq<Symbol>
    requires n <= |d.props|
  {
    if n == 0 then [] else PropertiesOrder(d, n - 1) + PropertyOrder(d.props[n - 1], d.isChoice)
  }

  function Order(d: Decl): seq<Symbol> {
    OccurrencesOpt(d.revDep) + PropertiesOrder(d, |d.props|)
  }

  predicate AllIn(targets: seq<Symbol>, done: set<Symbol>) {
    targets == [] || (targets[0] in done && AllIn(targets[1..], done))
  }

  /** The search went through `targets` in order, and stopped at `last`. */
  predicate StopsAt(targets: seq<Symbol>, done: set<Symbol>, last: Symbol) {
    targets != [] && (targets[0] == last || (targets[0] in done && StopsAt(targets[1..], done, last)))
  }

  lemma {:induction false} AllInGrows(targets: seq<Symbol>, before: set<Symbol>, after: set<Symbol>)
    requires AllIn(targets, before) && before <= after
    ensures AllIn(targets, after)
  {
    if targets != [] {
      AllInGrows(targets[1..], before, after);
    }
  }

  lemma {:induction false} AllInBoth(xs: seq<Symbol>, ys: seq<Symbol>, done: set<Symbol>)
    requires AllIn(xs, done) && AllIn(ys, done)
    ensures AllIn(xs + ys, done)
  {
    if xs == [] {
      assert xs + ys == ys;
    } else {
      assert (xs + ys)[1..] == xs[1..] + ys;
      AllInBoth(xs[1..], ys, done);
    }
  }

  lemma {:induction false} StopsInFirst(xs: seq<Symbol>, ys: seq<Symbol>, done: set<Symbol>, last: Symbol)
    requires StopsAt(xs, done, last)
    ensures StopsAt(xs + ys, done, last)
  {
    if xs[0] != last {
      assert (xs + ys)[1..] == xs[1..] + ys;
      StopsInFirst(xs[1..], ys, done, last);
    }
  }

  lemma {:induction false} StopsInSecond(xs: seq<Symbol>, ys: seq<Symbol>, done: set<Symbol>, last: Symbol)
    requires AllIn(xs, done) && StopsAt(ys, done, last)
    ensures StopsAt(xs + ys, done, last)
  {
    if xs == [] {
      assert xs + ys == ys;
    } else {
      assert (xs + ys)[1..] == xs[1..] + ys;
      StopsInSecond(xs[1..], ys, done, last);
    }
  }

  lemma {:induction false} StopsInPart(d: Decl, n: nat, done: set<Symbol>, last: Symbol)
    requires n <= |d.props| && StopsAt(PropertiesOrder(d, n), done, last)
    ensures StopsAt(PropertiesOrder(d, |d.props|), done, last)
    decreases |d.props| - n
  {
    if n < |d.props| {
      StopsInFirst(PropertiesOrder(d, n), PropertyOrder(d.props[n], d.isChoice), done, last);
      StopsInPart(d, n + 1, done, last);
    }
  }

  /** The outcome of a search: without a report all of `targets` are done; with one, which has come to `last`, those
      before it are. */
  predicate IsOrdered(targets: seq<Symbol>, r: Option<Symbol>, done: set<Symbol>, line: seq<Symbol>) {
    if r.None? then AllIn(targets, done) else line != [] && StopsAt(targets, done, line[|line| - 1])
  }

  /** One search after another, the second only if the first reports nothing. */
  lemma InTurn(xs: seq<Symbol>, ys: seq<Symbol>, before: set<Symbol>, r: Option<Symbol>, done: set<Symbol>,
               line: seq<Symbol>)
    requires AllIn(xs, before) && before <= done && IsOrdered(ys, r, done, line)
    ensures IsOrdered(xs + ys, r, done, line)
  {
    AllInGrows(xs, before, done);
    if r.None? {
      AllInBoth(xs, ys, done);
    } else {
      StopsInSecond(xs, ys, done, line[|line| - 1]);
    }
  }

  /** What the searches reach is the same set. */
  lemma {:induction false} OccurrencesExactly(e: Expr, d: Symbol)
    ensures d in Occurrences(e) <==> ContainsSymbol(e, d)
  {
    match e
    case Not(x) => OccurrencesExactly(x, d);
    case Bin(_, x, y) =>
      OccurrencesExactly(x, d);
      OccurrencesExactly(y, d);
    case _ =>
  }

  predicate OccursIn(e: Option<Expr>, d: Symbol) {
    e.Some? && ContainsSymbol(e.value, d)
  }

  /** What a property refers to: the symbols of its condition, unless it is a choice or a select; and for a
      default of a symbol that is not a choice, those of its value. */
  predicate Mentions(p: Property, isChoice: bool, d: Symbol) {
    || (p.kind != CHOICE && p.kind != SELECT && OccursIn(p.visible, d))
    || (p.kind == DEFAULT && !isChoice && OccursIn(p.value, d))
  }

  lemma {:induction false} LeavesExactly(e: Expr, d: Symbol)
    ensures d in Leaves(e) <==> ContainsSymbol(e, d)
  {
    match e
    case Not(x) => LeavesExactly(x, d);
    case Bin(_, x, y) =>
      LeavesExactly(x, d);
      LeavesExactly(y, d);
    case _ =>
  }

  lemma LeavesOptExactly(e: Option<Expr>, d: Symbol)
    ensures d in LeavesOpt(e) <==> OccursIn(e, d)
  {
    if e.Some? {
      LeavesExactly(e.value, d);
    }
  }

  lemma {:induction false} PropertiesExactly(c: Decl, n: nat, d: Symbol)
    requires n <= |c.props|
    ensures d in PropertiesLeaves(c, n) <==> exists k :: 0 <= k < n && Mentions(c.props[k], c.isChoice, d)
  {
    if n > 0 {
      PropertiesExactly(c, n - 1, d);
      LeavesOptExactly(c.props[n - 1].visible, d);
      LeavesOptExactly(c.props[n - 1].value, d);
    }
  }

  /** The edges of the graph: `s` depends on `d` if and only if `d` occurs in the reverse dependencies of `s`, or
      some property of `s` refers to it. */
  lemma EdgeExactlyWhen(t: Table, s: Symbol, d: Symbol)
    requires s in t
    ensures s in GraphOf(t)
    ensures d in GraphOf(t)[s]
            <==> || OccursIn(t[s].revDep, d)
                 || exists k :: 0 <= k < |t[s].props| && Mentions(t[s].props[k], t[s].isChoice, d)
  {
    LeavesOptExactly(t[s].revDep, d);
    PropertiesExactly(t[s], |t[s].props|, d);
  }

  /** Each symbol but the first depends on the one before it. */
  ghost predicate IsChain(g: Graph, c: seq<Symbol>) {
    if |c| < 2 then true
    else c[|c| - 1] in g && c[|c| - 2] in g[c[|c| - 1]] && IsChain(g, c[..|c| - 1])
  }

  ghost predicate IsCycle(g: Graph, c: seq<Symbol>) {
    |c| > 1 && c[0] == c[|c| - 1] && IsChain(g, c)
  }

  /** Every symbol ranks above all it depends on. */
  ghost predicate IsRanking(g: Graph, rank: map<Symbol, nat>) {
    forall s {:trigger RanksAbove(g, rank, s)} :: s in rank && s in g ==> RanksAbove(g, rank, s)
  }

  ghost predicate RanksAbove(g: Graph, rank: map<Symbol, nat>, s: Symbol)
    requires s in rank && s in g
  {
    forall d :: d in g[s] ==> d in rank && rank[d] < rank[s]
  }

  lemma {:induction false} ChainClimbs(g: Graph, rank: map<Symbol, nat>, c: seq<Symbol>)
    requires IsRanking(g, rank) && IsChain(g, c) && |c| > 1 && c[|c| - 1] in rank
    ensures c[0] in rank && rank[c[0]] < rank[c[|c| - 1]]
  {
    assert RanksAbove(g, rank, c[|c| - 1]);
    if |c| > 2 {
      ChainClimbs(g, rank, c[..|c| - 1]);
    }
  }

  /** All symbols that depend on anything are ranked. */
  ghost predicate IsComplete(g: Graph, rank: map<Symbol, nat>) {
    forall s :: s in g && g[s] != {} ==> s in rank
  }

  /** A graph whose symbols can be ranked has no cycle. */
  lemma RankedHasNoCycle(g: Graph, rank: map<Symbol, nat>, c: seq<Symbol>)
    requires IsRanking(g, rank) && IsComplete(g, rank)
    ensures !IsCycle(g, c)
  {
    if IsCycle(g, c) {
      ChainClimbs(g, rank, c);
    }
  }

  ghost predicate AllBelow(rank: map<Symbol, nat>, clock: nat) {
    forall s :: s in rank ==> rank[s] < clock
  }

  lemma RankGrows(g: Graph, rank: map<Symbol, nat>, clock: nat, s: Symbol)
    requires IsRanking(g, rank) && AllBelow(rank, clock) && s !in rank && s in g && g[s] <= rank.Keys
    ensures IsRanking(g, rank[s := clock]) && AllBelow(rank[s := clock], clock + 1)
  {
    var wider := rank[s := clock];
    forall u {:trigger RanksAbove(g, wider, u)} | u in wider && u in g ensures RanksAbove(g, wider, u) {
      assert u != s ==> RanksAbove(g, rank, u);
    }
  }

  // ----- the search -----

  /** What the search has printed of a report on its way back: the symbol `found` again, then the symbols
      left since, the last of which is one of `from`. */
  ghost predicate IsPartial(g: Graph, line: seq<Symbol>, found: Symbol, from: set<Symbol>) {
    line != [] && line[0] == found && line[|line| - 1] in from && IsChain(g, line)
  }

  /** The graph of a closed table; stated so that the declaration of a symbol is looked up on demand only. */
  ghost predicate IsGraphOf(g: Graph, t: Table) {
    g.Keys == t.Keys && forall s {:trigger Refers(g, t, s)} :: s in t ==> Refers(g, t, s)
  }

  ghost predicate Refers(g: Graph, t: Table, s: Symbol)
    requires s in t && s in g
  {
    g[s] == Dependencies(t, s) <= t.Keys
  }

  /** The parts of the state that a step keeps or lets grow. */
  datatype Progress =
    Progress(check: set<Symbol>, unchecked: nat, checked: set<Symbol>, ranked: set<Symbol>, reports: nat)

  class Checker {
    const table: Table
    ghost const graph: Graph

    /** The symbols with the flags CHECK and CHECKED. */
    var check: set<Symbol>
    var checked: set<Symbol>

    /** The reports printed, and the report being printed. */
    var reports: seq<seq<Symbol>>
    var line: seq<Symbol>

    /** While nothing is reported, the symbols that are done, each ranked above what it depends on. */
    ghost var rank: map<Symbol, nat>
    ghost var clock: nat

    constructor (table: Table)
      requires IsClosed(table)
      ensures Valid() && this.table == table && check == {} && checked == {} && reports == [] && line == []
    {
      this.table, graph := table, GraphOf(table);
      check, checked, reports, line, rank, clock := {}, {}, [], [], map[], 0;
    }

    ghost predicate Quiet()
      reads this
    {
      reports == [] && line == []
    }

    ghost predicate Valid()
      reads this
    {
      && IsGraphOf(graph, table)
      && check <= checked <= table.Keys
      && AllCycles(graph, reports)
      && (Quiet() ==> IsRanking(graph, rank) && checked <= rank.Keys + check && AllBelow(rank, clock))
    }

    /** `targets` may be checked now. */
    ghost predicate MayCheck(targets: set<Symbol>)
      reads this
    {
      line == [] && targets <= table.Keys
    }

    /** What a step that looked at `targets` leaves. */
    ghost predicate Looked(targets: set<Symbol>, r: Option<Symbol>)
      reads this
    {
      && (r.Some? ==> r.value in check && IsPartial(graph, line, r.value, targets))
      && (r.None? ==> line == [])
      && (Quiet() ==> targets <= rank.Keys)
    }

    ghost predicate InOrder(targets: seq<Symbol>, r: Option<Symbol>)
      reads this
    {
      IsOrdered(targets, r, checked, line)
    }

    ghost function Unchecked(): nat
      reads this
    {
      |table.Keys - checked|
    }

    ghost function Before(): Progress
      reads this
    {
      Progress(check, Unchecked(), checked, rank.Keys, |reports|)
    }

    /** A step leaves CHECK as it was, and takes nothing back. */
    ghost predicate KeptSince(p: Progress)
      reads this
    {
      && check == p.check && Unchecked() <= p.unchecked && p.checked <= checked
      && p.ranked <= rank.Keys && p.reports <= |reports|
    }

    /** `sym_check_expr_deps`. */
    method CheckExpr(e: Expr) returns (r: Option<Symbol>)
      requires Valid() && MayCheck(Leaves(e))
      modifies this
      ensures Valid() && KeptSince(old(Before())) && Looked(Leaves(e), r) && InOrder(Occurrences(e), r)
      decreases Unchecked(), 1, Size(e)
    {
      match e
      case Bin(_, x, y) =>
        r := CheckExpr(x);
        if r == None {
          ghost var before := checked;
          r := CheckExpr(y);
          InTurn(Occurrences(x), Occurrences(y), before, r, checked, line);
        } else {
          StopsInFirst(Occurrences(x), Occurrences(y), checked, line[|line| - 1]);
        }
      case Not(x) =>
        r := CheckExpr(x);
      case Equal(a, b) =>
        r := CheckPair(a, b);
      case Unequal(a, b) =>
        r := CheckPair(a, b);
      case Sym(s) =>
        r := CheckSymbol(s);
    }

    method CheckPair(a: Symbol, b: Symbol) returns (r: Option<Symbol>)
      requires Valid() && MayCheck({a, b})
      modifies this
      ensures Valid() && KeptSince(old(Before())) && Looked({a, b}, r) && InOrder([a, b], r)
      decreases Unchecked(), 1, 0
    {
      r := CheckSymbol(a);
      if r == None {
        ghost var before := checked;
        r := CheckSymbol(b);
        InTurn([a], [b], before, r, checked, line);
      } else {
        StopsInFirst([a], [b], checked, line[|line| - 1]);
      }
      assert [a] + [b] == [a, b];
    }

    method CheckOpt(e: Option<Expr>) returns (r: Option<Symbol>)
      requires Valid() && MayCheck(LeavesOpt(e))
      modifies this
      ensures Valid() && KeptSince(old(Before())) && Looked(LeavesOpt(e), r) && InOrder(OccurrencesOpt(e), r)
      decreases Unchecked(), 2, 0
    {
      r := None;
      if e.Some? {
        r := CheckExpr(e.value);
      }
    }

    /** `sym_check_deps`. */
    method CheckSymbol(s: Symbol) returns (r: Option<Symbol>)
      requires Valid() && MayCheck({s})
      modifies this
      ensures Valid() && KeptSince(old(Before())) && Looked({s}, r) && InOrder([s], r)
      decreases Unchecked(), 0, 0
    {
      if s in check {
        line := [s];
        return Some(s);
      }
      if s in checked {
        return None;
      }
      Enter(s);
      r := CheckDeclaration(s);
      r := Leave(s, r);
    }

    /** Setting the two flags. */
    method Enter(s: Symbol)
      requires Valid() && MayCheck({s}) && s !in checked
      modifies this`check, this`checked
      ensures Valid() && check == old(check) + {s} && checked == old(checked) + {s} && Unchecked() < old(Unchecked())
    {
      FewerLeft(table.Keys, checked, s);
      check, checked := check + {s}, checked + {s};
    }

    /** The reverse dependencies, then the properties one by one. */
    method CheckDeclaration(s: Symbol) returns (r: Option<Symbol>)
      requires Valid() && line == [] && s in table
      modifies this
      ensures Valid() && KeptSince(old(Before())) && Looked(graph[s], r) && InOrder(Order(table[s]), r)
      decreases Unchecked(), 7, 0
    {
      assert Refers(graph, table, s);
      assert graph[s] == LeavesOpt(table[s].revDep) + PropertiesLeaves(table[s], |table[s].props|);
      ghost var first, second := OccurrencesOpt(table[s].revDep), PropertiesOrder(table[s], |table[s].props|);
      r := CheckOpt(table[s].revDep);
      if r == None {
        ghost var before := checked;
        r := CheckProperties(table[s]);
        InTurn(first, second, before, r, checked, line);
      } else {
        StopsInFirst(first, second, checked, line[|line| - 1]);
      }
    }

    method CheckProperties(d: Decl) returns (r: Option<Symbol>)
      requires Valid() && MayCheck(PropertiesLeaves(d, |d.props|))
      modifies this
      ensures Valid() && KeptSince(old(Before())) && Looked(PropertiesLeaves(d, |d.props|), r)
      ensures InOrder(PropertiesOrder(d, |d.props|), r)
      decreases Unchecked(), 6, 0
    {
      ghost var before := Before();
      r := None;
      var i := 0;
      while i < |d.props|
        invariant 0 <= i <= |d.props| && Valid() && KeptSince(before) && line == [] && r == None
        invariant Quiet() ==> PropertiesLeaves(d, i) <= rank.Keys
        invariant AllIn(PropertiesOrder(d, i), checked)
      {
        r := CheckNext(d, i);
        if r.Some? {
          StopsInPart(d, i + 1, checked, line[|line| - 1]);
          break;
        }
        i := i + 1;
      }
    }

    method CheckNext(d: Decl, i: nat) returns (r: Option<Symbol>)
      requires Valid() && MayCheck(PropertiesLeaves(d, |d.props|)) && i < |d.props|
      requires Quiet() ==> PropertiesLeaves(d, i) <= rank.Keys
      requires AllIn(PropertiesOrder(d, i), checked)
      modifies this
      ensures Valid() && KeptSince(old(Before()))
      ensures r.Some? ==> Looked(PropertiesLeaves(d, |d.props|), r)
      ensures r.None? ==> line == [] && (Quiet() ==> PropertiesLeaves(d, i + 1) <= rank.Keys)
      ensures InOrder(PropertiesOrder(d, i + 1), r)
      decreases Unchecked(), 5, 0
    {
      PropertiesLeavesGrow(d, i + 1);
      ghost var before := checked;
      r := CheckProperty(d.props[i], d.isChoice);
      InTurn(PropertiesOrder(d, i), PropertyOrder(d.props[i], d.isChoice), before, r, checked, line);
    }

    method CheckProperty(p: Property, isChoice: bool) returns (r: Option<Symbol>)
      requires Valid() && MayCheck(PropertyLeaves(p, isChoice))
      modifies this
      ensures Valid() && KeptSince(old(Before())) && Looked(PropertyLeaves(p, isChoice), r)
      ensures InOrder(PropertyOrder(p, isChoice), r)
      decreases Unchecked(), 4, 0
    {
      if p.kind == CHOICE || p.kind == SELECT {
        r := None;
      } else if p.kind == DEFAULT && !isChoice {
        r := CheckDefault(p);
      } else {
        r := CheckOpt(p.visible);
        assert PropertyOrder(p, isChoice) == OccurrencesOpt(p.visible);
        assert PropertyLeaves(p, isChoice) == LeavesOpt(p.visible);
      }
    }

    /** The condition of a default, then its value. */
    method CheckDefault(p: Property) returns (r: Option<Symbol>)
      requires Valid() && MayCheck(LeavesOpt(p.visible) + LeavesOpt(p.value))
      modifies this
      ensures Valid() && KeptSince(old(Before())) && Looked(LeavesOpt(p.visible) + LeavesOpt(p.value), r)
      ensures InOrder(OccurrencesOpt(p.visible) + OccurrencesOpt(p.value), r)
      decreases Unchecked(), 3, 0
    {
      ghost var first, second := OccurrencesOpt(p.visible), OccurrencesOpt(p.value);
      r := CheckOpt(p.visible);
      if r == None {
        ghost var before := checked;
        r := CheckOpt(p.value);
        InTurn(first, second, before, r, checked, line);
      } else {
        StopsInFirst(first, second, checked, line[|line| - 1]);
      }
    }

    /** The loop of `conf_parse` over the symbols of the hash table; the others, the static y, m and n,
        depend on nothing. */
    method CheckAll(all: seq<Symbol>)
      requires Valid() && check == {} && checked == {} && reports == [] && line == []
      requires forall s :: s in all ==> s in table
      requires forall s :: s in table && Dependencies(table, s) != {} ==> s in all
      modifies this
      ensures Valid() && check == {} && line == []
      ensures forall s :: s in all ==> s in checked
      ensures AllCycles(GraphOf(table), reports)
      ensures reports == [] <==> forall c :: !IsCycle(GraphOf(table), c)
    {
      CheckEach(all);
      GraphIsUnique(graph, table);
      ReportsAreExact(graph, reports, rank);
    }

    method CheckEach(all: seq<Symbol>)
      requires Valid() && check == {} && line == []
      requires forall s :: s in all ==> s in table
      modifies this
      ensures Valid() && check == {} && line == []
      ensures forall s :: s in all ==> s in checked
    {
      var i := 0;
      while i < |all|
        invariant 0 <= i <= |all| && Valid() && check == {} && line == []
        invariant forall k :: 0 <= k < i ==> all[k] in checked
      {
        var r := CheckSymbol(all[i]);
        i := i + 1;
      }
    }

    /** The end of `sym_check_deps`: a report is complete when its symbol is reached again. */
    method Leave(s: Symbol, found: Option<Symbol>) returns (r: Option<Symbol>)
      requires Valid() && s in check && Looked(graph[s], found)
      modifies this`check, this`line, this`reports, this`rank, this`clock
      ensures Valid() && Looked({s}, r) && check == old(check) - {s}
      ensures old(rank.Keys) <= rank.Keys && |old(reports)| <= |reports|
    {
      r := found;
      if found.Some? {
        line := line + [s];
        if found.value == s {
          reports, line, r := reports + [line], [], None;
        }
      } else if Quiet() && s !in rank {
        RankGrows(graph, rank, clock, s);
        rank, clock := rank[s := clock], clock + 1;
      }
      check := check - {s};
    }
  }

  lemma GraphIsUnique(g: Graph, t: Table)
    requires IsGraphOf(g, t)
    ensures g == GraphOf(t)
  {
    forall s | s in t ensures g[s] == GraphOf(t)[s] {
      assert Refers(g, t, s);
    }
  }

  lemma ReportsAreExact(g: Graph, reports: seq<seq<Symbol>>, rank: map<Symbol, nat>)
    requires AllCycles(g, reports) && (reports == [] ==> IsRanking(g, rank) && IsComplete(g, rank))
    ensures reports == [] <==> forall c :: !IsCycle(g, c)
  {
    if reports == [] {
      forall c ensures !IsCycle(g, c) {
        RankedHasNoCycle(g, rank, c);
      }
    } else {
      assert IsCycle(g, reports[0]);
    }
  }

  ghost predicate AllCycles(g: Graph, reports: seq<seq<Symbol>>) {
    forall k :: 0 <= k < |reports| ==> IsCycle(g, reports[k])
  }

  lemma FewerLeft(all: set<Symbol>, checked: set<Symbol>, s: Symbol)
    requires s in all && s !in checked
    ensures |all - (checked + {s})| < |all - checked|
  {
    assert all - (checked + {s}) == (all - checked) - {s};
  }

  lemma {:induction false} PropertiesLeavesGrow(d: Decl, i: nat)
    requires i <= |d.props|
    ensures PropertiesLeaves(d, i) <= PropertiesLeaves(d, |d.props|)
    decreases |d.props| - i
  {
    if i < |d.props| {
      PropertiesLeavesGrow(d, i + 1);
    }
  }
}

# Models of the hypervisor's core and of its configuration tool

A Dafny 4.11 project that states, for all inputs, what four parts of the repository do, and proves it. Check it
with `dafny verify dfyconfig.toml`.

**The expression engine of Kconfig** (`scripts/kconfig`). Expressions over a three-valued logic, no < mod < yes,
with minimum, maximum and complement. `KconfigExpr` has the values and environments; `EliminateYn`, `ExprEq`,
`Transform`, `Joins`, `ExtractEq`, `Dups`, `EliminateDups` and `TransCompare` have the rewriters as functions with
their meaning; `ExprEqComplete`, `Implication`, `JoinRules` and `DupsComplete` say what they find, `DupsSettled` and
`DupsForms` what duplicate elimination leaves, `DupsLimit` what it loses; and `ExprNodes` has
folding, normalisation, comparison and cancellation again as they work on heap nodes. Two hypotheses on environments
are used where a lemma says so. Bools are never m (`BooleansNeverMod`), which `sym_calc_value` enforces at
`scripts/kconfig/symbol.c:344`. And bool and tristate symbols compare by the strings n, m, y
(`scripts/kconfig/symbol.c:676-697`), which `StringOf` builds in. `PrintParse` is the printer against the grammar,
`ExprText` the same down to characters and the lexer, `MenuNesting` the implication test of `menu_finalize`,
`DepCheck` the search for recursive dependencies, `SymbolHash` the symbol table, `ConfString` and `ConfLoops` the
string values of `.config`.

**The schedulers** (`core/sched`). `RateMonotonic` is one tick of the rate-monotonic policy,
`RateMonotonicBound` the response-time bound over whole runs, `RateMonotonicScheduler` the code on objects.
`RoundRobin` and `RoundRobinScheduler` are the round-robin policy with the guards around it, and `LinkedList` the
intrusive list under both.

**Stage-2 page tables** (`arch/arm`, `core/vm/vmem.c`). `PageTable` compares the flat layout with the walk of the
hardware (long-descriptor format, section B3.6 of the ARMv7-A Architecture Reference Manual, DDI 0406C); `Vmem` has
the loops and the translation of a whole VM, and `VmIsolation` all VMs in one memory. Addresses are 32 bits wide and
wrap.

**Virtual interrupt delivery** (`drivers/gic-v2.c`, `core/vm`). `VirqDelivery` is the state of a physical CPU with the
ledger of interrupts, compared by the bits a mask selects, `PhysicalCpu` the same with arrays and loops, `Bits` the
bit trick that finds a free slot. A list register counts as usable as section 5.3 of the GICv2 specification
(IHI 0048B) defines GICH_ELSR.

## Where code and comments disagree

The models follow the code.

- `list_is_singular` is true for the empty list too; its comment says exactly one element (`include/lib/list.h:102-108`).
- `sched_vcpu_detach` leaves the state of the entry alone, so a detached vCPU cannot be attached again: every
  attempt returns 254 (`core/sched/scheduler.c:278-280`, `RoundRobinModule.AttachOnlyOnce`), until it is unregistered
  and registered anew (`ReregisteredIsAttached`).
- The second pass of duplicate elimination treats `!x` as the complement of `x`, which it is not for m
  (`DupsLimitModule.EliminateDupsIsExactWhen`).
- `expr_trans_compare` compares a bare symbol as a string, so one that is neither bool nor tristate can be taken for
  set although its value is n (`TransCompareModule.SymbolIsExactWhen`), and `menu_finalize` then nests an entry below
  a parent that is not visible (`MenuNestingModule.UndeclaredIsNoImplication`).
- The test of `menu_finalize` does not find that a condition implies itself unless it is a conjunction, because
  `expr_eliminate_eq` only looks into connectives (`MenuNestingModule.SameConditionIsMissed`).
- The printer writes bare names (`scripts/kconfig/expr.c:1104-1124`), so a quoted constant is read back as a variable
  (`PrintParseModule.QuotedConstantIsLost`).
- `vm_suspend` suspends every vCPU of a VM (`core/vm/vm.c:124-128`), and `vcpu_suspend` saves the live list registers
  into each, so a vCPU that is not running loses what it had saved unless that was the same
  (`VirqDeliveryModule.SuspendConservesExactlyWhen`).
- A comment in `expr_join_and` announces `a='m'` for `(a!='m') && (a!='n')` (`scripts/kconfig/expr.c:528`); the code
  gives `a='y'`, and that is the right value (`JoinsModule.JoinAndKeepsValue`).
- `expr_eq` does not find a conjunction of two quoted constants equal to itself, because the test for y and n at
  `scripts/kconfig/expr.c:151-154` also holds of quoted constants (`ExprEqCompleteModule.ExprEqMissesQuotedPair`).

## Model

| member | source | states |
|---|---|---|
| `KconfigExpr.ConstantStringsDiffer` | scripts/kconfig/symbol.c:676-697 | constant symbols compare equal as strings exactly when they are the same symbol |
| `KconfigExpr.ComparesByValue` | scripts/kconfig/symbol.c:676-697 | a bool or tristate symbol equals y, m or n as a string exactly when it has that value |
| `KconfigExpr.ContainsExactlyWhen` | scripts/kconfig/expr.c:831-854 | expr_contains_symbol finds a symbol if and only if replacing it by another one makes a difference |
| `EliminateYnModule.EliminateYnKeepsValue` | scripts/kconfig/expr.c:245-326 | constant folding keeps the value in every environment |
| `EliminateYnModule.EliminateYnFolds` | scripts/kconfig/expr.c:245-326 | nothing is left to fold; a tree changes exactly when there was something to fold, and then shrinks |
| `ExprEqModule.CancelPairsFactors` | scripts/kconfig/expr.c:139-173 | cancellation takes one common value from both operands: v(e) = v(rest) op C, with one C for both sides |
| `ExprEqModule.EliminateEqIsMonotone` | scripts/kconfig/expr.c:175-196 | after both passes and folding, an order between what is left is an order between the originals, in every environment |
| `ExprEqModule.ExprEqIsSound` | scripts/kconfig/expr.c:201-243 | if expr_eq returns 1 the two expressions have equal value in every environment |
| `ExprEqModule.EliminateEqProvesImplication` | scripts/kconfig/expr.c:175-196 | if the second operand is cancelled to y, the first is nowhere greater than the second |
| `ExprEqCompleteModule.CancelPairsIsDifference` | scripts/kconfig/expr.c:139-173 | what is left of two folded chains: the multiset difference of their operands, both ways, and whatever is not found equal to itself or is a bare quoted constant |
| `ExprEqCompleteModule.ExprEqDecidesShape` | scripts/kconfig/expr.c:201-243 | on folded expressions expr_eq returns 1 if and only if they differ at most in order and grouping of like operands and no chain in them has two bare quoted constants |
| `ExprEqCompleteModule.ExprEqIsReflexiveExactlyWhen` | scripts/kconfig/expr.c:201-243 | a folded expression is found equal to itself if and only if no chain in it has two bare quoted constants |
| `ExprEqCompleteModule.ExprEqIgnoresGrouping` | scripts/kconfig/expr.c:201-243 | so regrouped chains are found equal under that condition |
| `ExprEqCompleteModule.ExprEqIgnoresOrder` | scripts/kconfig/expr.c:201-243 | and commuted operands |
| `ExprEqCompleteModule.ExprEqMissesQuotedPair` | scripts/kconfig/expr.c:151-154 | the failing inputs: no chain of two quoted constants is found equal to itself |
| `ExprEqCompleteModule.ExprEqFoldsOnlyLeftovers` | scripts/kconfig/expr.c:201-243 | why folded: (n || v) && w is found equal to v && w, but n || v not to v, because only what is left of two chains is folded |
| `ImplicationModule.EliminateEqFindsExactly` | scripts/kconfig/expr.c:175-196 | which implications are found: of two folded expressions the second is cancelled to y if and only if it is y, or the first is a conjunction whose operands cancel all conjuncts of the second |
| `ImplicationModule.SecondPassCancels` | scripts/kconfig/expr.c:185-192 | against a chain on the right a single expression on the left is cancelled as well, by the second pass: each side keeps what the other lacks |
| `TransformModule.Transform` | scripts/kconfig/expr.c:691-829 | the weighted size that makes the De Morgan step terminate never grows |
| `TransformModule.DeMorganIsLighter` | scripts/kconfig/expr.c:774-791 | the De Morgan step enlarges the tree but makes it strictly lighter |
| `TransformModule.TransformKeepsValue` | scripts/kconfig/expr.c:691-829 | the value is kept in every environment where bools are never m |
| `TransformModule.TransformKeepsValuesExactlyWhen` | scripts/kconfig/expr.c:691-829 | all values are kept in an environment if and only if no bool is m there |
| `TransformModule.TransformIsNormal` | scripts/kconfig/expr.c:691-829 | negations stand only over symbols other than y, m, n, and no bool is compared with those |
| `TransformModule.NormalIsFixed` | scripts/kconfig/expr.c:691-829 | an expression is left alone if and only if it is in normal form |
| `TransformModule.TransformIsIdempotent` | scripts/kconfig/expr.c:691-829 | a second transformation changes nothing |
| `TransformModule.TransformPushes` | scripts/kconfig/expr.c:691-829 | the rewriting computes the same as one descent that remembers the parity of the negations above: operands keep their order, and booleans compared with y, m or n are settled on the way |
| `JoinsModule.JoinOrKeepsValue` | scripts/kconfig/expr.c:361-433 | every rule of expr_join_or gives the value of the disjunction |
| `JoinsModule.JoinAndKeepsValue` | scripts/kconfig/expr.c:435-549 | every rule of expr_join_and gives the value of the conjunction |
| `JoinsModule.JoinIsSmall` | scripts/kconfig/expr.c:361-549 | a join is smaller than its two operands together and no chain of the connective it was found in |
| `JoinRulesModule.JoinExactlyWhen` | scripts/kconfig/expr.c:361-549 | exactly these pairs are joined, in whatever order: operands found equal; two equations of a tristate under OR; a boolean and its negation under OR; two inequations, or an equation and an inequation with constants, of a tristate under AND; a bool or tristate v with v=y, v!=n or v!=m under AND |
| `JoinRulesModule.SymbolJoins` | scripts/kconfig/expr.c:472-495 | v && v=y gives v=y, v && v!=n gives v, v && v!=m gives v=y, for bool and tristate v, and !v || v gives y for a bool, in both orders |
| `JoinRulesModule.ComparisonsJoin` | scripts/kconfig/expr.c:397-545 | two comparisons of a tristate symbol with different ones of y, m, n become the one that says the same |
| `JoinRulesModule.ConstantsJoin` | scripts/kconfig/expr.c:498-513 | v=c && v!=d gives v=c, or n if c is d, for any two constants, quoted ones included |
| `JoinRulesModule.AndJoinsExactlyWhen` | scripts/kconfig/expr.c:435-549 | of two tests of one tristate symbol under AND: joined if and only if a single test has the value of both in every environment, or they are opposites |
| `JoinRulesModule.AndMissesContradiction` | scripts/kconfig/expr.c:435-549 | the missed constant: v && v=n is n everywhere, but stays |
| `JoinRulesModule.OrJoinsExactlyWhen` | scripts/kconfig/expr.c:361-433 | under OR only equal tests and two equations are joined |
| `JoinRulesModule.OrMissesSymbol` | scripts/kconfig/expr.c:361-433 | a missed pair: v || v=y stays, although v alone has its value |
| `ExtractEqModule.ExtractEqMoves` | scripts/kconfig/expr.c:910-937 | extraction moves one common value from both trees to the common part |
| `ExtractEqModule.ExtractCommonFactors` | scripts/kconfig/expr.c:888-908 | both expressions are their rest combined with the common part, also after folding |
| `DupsProofsModule.Dups1KeepsValue` | scripts/kconfig/expr.c:551-605 | joining duplicates keeps the value exactly, in every environment where bools are never m |
| `DupsProofsModule.JoinGoesToSecond` | scripts/kconfig/expr.c:594-604 | the second operand becomes the join and the first the identity, no other operand changes: of equal operands the last one stays |
| `DupsProofsModule.RefutedIsReplaced` | scripts/kconfig/expr.c:640-659 | a refuted operand becomes the annihilator, and no other one changes |
| `DupsProofsModule.ContradictsExactlyWhen` | scripts/kconfig/expr.c:607-662 | when the test of the second pass succeeds, replacing the pair by n (or y) is right if and only if the two are not both m |
| `DupsProofsModule.Dups2Keeps` | scripts/kconfig/expr.c:607-662 | the second pass changes no value that is y or n |
| `DupsProofsModule.RoundShrinks` | scripts/kconfig/expr.c:672-686 | a round with trans_count > 0 followed by folding makes the tree strictly smaller, so the loop ends |
| `EliminateDupsModule.EliminateDupsKeeps` | scripts/kconfig/expr.c:664-689 | over the whole loop, a value that is y or n is kept in every environment where bools are never m |
| `EliminateDupsModule.EliminateDupsKeepsCrisp` | scripts/kconfig/expr.c:664-689 | the value is kept in every environment where no bare symbol is m |
| `DupsSettledModule.EliminateDupsIsSettled` | scripts/kconfig/expr.c:664-689 | in every chain of the result, at any depth outside negations, no two operands can be joined, none is refuted by what stands beside it, and elimination changes nothing |
| `DupsSettledModule.ResultIsQuiet` | scripts/kconfig/expr.c:672-686 | a further round on the result would rewrite nothing, and running the elimination again gives the same |
| `DupsFormsModule.EliminateDupsIsNormal` | scripts/kconfig/expr.c:664-689 | a normal form, as expr_transform leaves it, stays normal |
| `DupsFormsModule.ResultIsFoldedExactlyWhen` | scripts/kconfig/expr.c:672-686 | the result has no y or n beside a connective if and only if the expression had none, or some round rewrote it |
| `EliminateDupsModule.Rewriter.JoinPass` | scripts/kconfig/expr.c:551-605 | the recursion of the first pass, with the counter raised at each join as it goes, computes the rewrites and their number |
| `EliminateDupsModule.Rewriter.RefutePass` | scripts/kconfig/expr.c:607-662 | the same for the second pass |
| `EliminateDupsModule.Rewriter.RunRound` | scripts/kconfig/expr.c:674-681 | both passes at the root; trans_count grows by the number of rewrites made inside the recursion |
| `EliminateDupsModule.Rewriter.Run` | scripts/kconfig/expr.c:664-689 | the loop over the global counter computes the result and restores the counter |
| `DupsLimitModule.EliminateDupsLosesMod` | scripts/kconfig/expr.c:607-662 | the failing input of the second pass: where a tristate v is m, (v || v="q") && (!v && v!="q") is m and becomes n |
| `DupsLimitModule.EliminateDupsIsExactWhen` | scripts/kconfig/expr.c:664-689 | expr_eliminate_dups keeps the value of every expression over a set of bool and tristate symbols if and only if none of them is m |
| `DupsLimitModule.DependenciesAreExactWhen` | scripts/kconfig/menu.c:77-98 | for dependencies that may mention the constant m, as menu_check_dep and expr_transform leave them, all values are kept if and only if no symbol is m and modules are disabled |
| `DupsLimitModule.DependencyOnMIsLost` | scripts/kconfig/menu.c:77-98 | the failing input: !m && m, where modules are not disabled |
| `DupsLimitModule.MenuCheckDepMeaning` | scripts/kconfig/menu.c:77-98 | menu_check_dep changes no value while modules are enabled; with modules disabled m counts as n |
| `DupsCompleteModule.ExtractEqIsDifference` | scripts/kconfig/expr.c:910-937 | extraction leaves of each folded chain exactly the operands that the other one lacks, or that are not found equal to themselves |
| `DupsCompleteModule.ContradictsFindsExactly` | scripts/kconfig/expr.c:607-662 | the test of the second pass succeeds if and only if all operands of the negation are found among those of the other side |
| `DupsCompleteModule.NoDuplicateLeft` | scripts/kconfig/expr.c:664-689 | from a folded expression: in no chain of the result, at any depth, are two operands equal up to order and grouping, unless two quoted constants in a chain inside them hide it |
| `DupsCompleteModule.NoOverlapLeft` | scripts/kconfig/expr.c:664-689 | in no chain of the result, at any depth, are two operands left that a rule joins: comparisons of a tristate, a bare symbol beside a comparison of it, a boolean beside its negation |
| `DupsCompleteModule.TestsLeftAreNeeded` | scripts/kconfig/expr.c:664-689 | in particular two tests of a tristate left in a conjunction are no opposites, and no single test has their value |
| `DupsCompleteModule.NoRefutationLeft` | scripts/kconfig/expr.c:664-689 | from a folded normal form: in no chain of the result, at any depth, is a chain left beside all operands of its negation |
| `TransCompareModule.TransCompareMeaning` | scripts/kconfig/expr.c:939-1012 | what the result means, for every expression in every environment: the comparison of its rounded value, in which a bare symbol counts as the constant if it has its string and as the opposite constant otherwise |
| `TransCompareModule.TransCompareIsExactWhen` | scripts/kconfig/expr.c:939-1012 | the result is the value of the comparison if and only if rounding does not change whether the expression is the constant |
| `TransCompareModule.SubjectsStay` | scripts/kconfig/expr.c:939-1012 | the same symbols are asked about in the same order |
| `TransCompareModule.SymbolIsExactWhen` | scripts/kconfig/expr.c:1003-1004 | a bare symbol is compared exactly if and only if comparing strings agrees with comparing values: always for y, m, n, bools and tristates; any other symbol fails against n unless its string is "n", and against y only if its string is "y" |
| `TransCompareModule.UndeclaredIsTakenForSet` | scripts/kconfig/symbol.c:306-309 | the failing inputs: an undeclared symbol has value n and its name as string, so it is n, but FOO!=n is y |
| `TransCompareModule.ExactUnlessMisjudged` | scripts/kconfig/expr.c:939-1012 | where bare symbols compare as their values it is exact if and only if the expression is not an m whose rounded value is the constant |
| `TransCompareModule.ExactOnDefiniteTristates` | scripts/kconfig/expr.c:939-1012 | so over bools and tristates it is exact wherever the expression is y or n |
| `TransCompareModule.ExactWithoutNegatedMod` | scripts/kconfig/expr.c:939-1012 | and, where bare symbols compare as their values, wherever no negated part is m |
| `TransCompareModule.NegationIsExactWhen` | scripts/kconfig/expr.c:977-978 | there a negation fails if and only if the operand is an m that rounds away from the constant; without further negations, whenever the operand is m |
| `TransCompareModule.TransCompareOptionalIsExactWhen` | scripts/kconfig/expr.c:943-949 | the condition for a missing expression, standing for y, too: there the comparison is always exact |
| `TransCompareModule.TransCompareModIsExactWhen` | scripts/kconfig/expr.c:950-1004 | asked for m, which drops the rewritten operands: a connective under negations is exact only where the whole is n, a comparison if and only if the negations around it are even in number, a symbol the same unless it does not compare as its value |
| `MenuNestingModule.ConditionMeaning` | scripts/kconfig/menu.c:269-284 | what the rewritten condition means, for every expression in every environment where bools are never m: that its rounded value is not n |
| `MenuNestingModule.ConditionIsVisibilityExactlyWhen` | scripts/kconfig/menu.c:269-284 | the condition is y exactly where the expression is not n, if and only if rounding neither turns it to n there nor away from n |
| `MenuNestingModule.ConditionIsSettled` | scripts/kconfig/menu.c:269-284 | the conditions compared are normal and free of duplicates: in every chain there is nothing to join and nothing to refute |
| `MenuNestingModule.OnlyNegatedModIsOverlooked` | scripts/kconfig/menu.c:269-284 | where bare symbols compare as their values, the first happens only to an m with a negated part that is m, and the second never |
| `MenuNestingModule.NestingIsSound` | scripts/kconfig/menu.c:281-289 | if the test of menu_finalize succeeds, the parent has a rounded value other than n wherever the entry has; so it is visible wherever the entry is, except where rounding turns the entry to n or the parent away from n |
| `MenuNestingModule.NestingIsSoundOnTristates` | scripts/kconfig/menu.c:281-289 | over bools and tristates the one exception is an entry that is m and rounds to n |
| `MenuNestingModule.ImpliesExactlyWhen` | scripts/kconfig/menu.c:281-289 | for folded conditions the test succeeds if and only if the condition of the parent is y, or that of the entry is a conjunction in which each conjunct of the condition of the parent is found |
| `MenuNestingModule.SameConditionIsMissed` | scripts/kconfig/menu.c:281-289 | so a single comparison is not found to imply itself |
| `MenuNestingModule.AcceptsNotAAndB` | scripts/kconfig/menu.c:281-289 | the first exception is needed: the test accepts !a && b as implying a=n ... |
| `MenuNestingModule.NotAAndBIsNoImplication` | scripts/kconfig/menu.c:281-289 | ... which fails where a is m |
| `MenuNestingModule.AcceptsUndeclared` | scripts/kconfig/menu.c:281-289 | so is the second: for an undeclared FOO the test accepts FOO!=n && b as implying FOO ... |
| `MenuNestingModule.UndeclaredIsNoImplication` | scripts/kconfig/menu.c:281-289 | ... but where b is y the first is y and the second n, with no m anywhere |
| `MenuNestingModule.NotContainedIsIrrelevant` | scripts/kconfig/expr.c:831-854 | if expr_contains_symbol is false the value does not depend on the symbol |
| `MenuNestingModule.DependenceIsSound` | scripts/kconfig/expr.c:856-886 | if expr_depends_symbol is true the expression is n wherever the symbol is n: in value if it is a bool or tristate, else in value and as a string |
| `MenuNestingModule.DependsExactlyWhen` | scripts/kconfig/expr.c:856-886 | it is true if and only if one operand of the conjunction is v, v=y, v=m or v!=n |
| `PrintParseModule.PrintThenParse` | scripts/kconfig/zconf.y:437-448 | reading the printed tokens with the precedence of the grammar gives the expression back, like operators grouped to the left and every symbol replaced by the one its name is read as |
| `PrintParseModule.ReadBackExactlyWhen` | scripts/kconfig/expr.c:1094-1160 | the expression itself comes back, up to grouping, if and only if each symbol is the one its name is read as: for declared symbols, if and only if there is no quoted constant |
| `PrintParseModule.QuotedConstantIsLost` | scripts/kconfig/expr.c:1116-1120 | the failing input: FOO="BAR" is read back as FOO=BAR, which turns y into n |
| `PrintParseModule.PrintedAlikeExactlyWhen` | scripts/kconfig/expr.c:1094-1160 | two expressions print alike if and only if they are equal up to regrouping, once symbols are replaced by what their names are read as |
| `PrintParseModule.PrintThenParseKeepsValue` | scripts/kconfig/expr.c:1094-1160 | what is read back has the value of the expression its names stand for, in every environment |
| `ExprTextModule.LexFindsWords` | scripts/kconfig/zconf.l:140-148 | every name the lexer returns is a word: no keyword, no dashes, only word characters |
| `ExprTextModule.TextIsReadExactlyWhen` | scripts/kconfig/zconf.l:122-154 | the lexer finds the printed tokens again in the characters if and only if every name is a word |
| `ExprTextModule.TextReadsBackExactlyWhen` | scripts/kconfig/expr.c:1094-1160 | character for character, an expression is read back, up to grouping, if and only if its names are words and each symbol is the one its name is read as |
| `ExprTextModule.TextKeepsValue` | scripts/kconfig/expr.c:1094-1160 | then it has its value in every environment |
| `PrintParseModule.OnlyChainsNeedParentheses` | scripts/kconfig/expr.c:1056-1092 | parentheses are printed around connectives only |
| `PrintParseModule.ParenthesesExactlyWhen` | scripts/kconfig/expr.c:1094-1160 | exactly: around a connective after !, and around a disjunction in a conjunction |
| `PrintParseModule.DisjunctionNeedsParentheses` | scripts/kconfig/expr.c:1094-1160 | there they are needed: without them (a || b) && c would be printed as a || b && c is |
| `PrintParseModule.NegationNeedsParentheses` | scripts/kconfig/expr.c:1094-1160 | and !(a && b) as !a && b is |
| `PrintParseModule.PrintsInOrder` | scripts/kconfig/expr.c:1094-1160 | the names are printed in the order of the symbols in the expression |
| `ExprTextModule.TextOf` | scripts/kconfig/expr.c:1094-1160 | the text of every kind of expression from the texts of its parts, spaces and parentheses included |
| `ExprTextModule.LexFailsExactlyWhen` | scripts/kconfig/zconf.l:122-175 | the lexer stays inside the expression if and only if there is no quote, #, backslash or end of line |
| `ExprNodesModule.EliminateYnInPlace` | scripts/kconfig/expr.c:245-326 | folding by overwriting nodes computes the folded tree; the root node stays the root and no node is gained |
| `ExprNodesModule.TransformInPlace` | scripts/kconfig/expr.c:691-829 | transformation by overwriting nodes computes the normal form and leaves a tree without sharing |
| `ExprNodesModule.TransformNotInPlace` | scripts/kconfig/expr.c:756-824 | the cases of a negation, node by node |
| `ExprNodesModule.DeMorganInPlace` | scripts/kconfig/expr.c:774-791 | the nodes of the negation and the connective are reused, the right order of assignments included |
| `ExprNodesModule.Copy` | scripts/kconfig/expr.c:69-105 | a copy is a tree of new nodes with the same contents |
| `ExprNodesModule.ExprEqNodes` | scripts/kconfig/expr.c:201-243 | the comparison works on copies: its answer is that of the trees, and no existing node changes |
| `ExprNodesModule.EliminateEqInPlace` | scripts/kconfig/expr.c:175-196 | both trees are rewritten through their own slots and stay separate |
| `ExprNodesModule.CancelPairsInPlace` | scripts/kconfig/expr.c:139-173 | cancellation through pointers to slots computes the cancelled pair |
| `DepCheckModule.ChainClimbs` | scripts/kconfig/symbol.c:868-913 | along a chain of dependencies the finishing rank strictly climbs |
| `DepCheckModule.EdgeExactlyWhen` | scripts/kconfig/symbol.c:882-901 | the graph that is searched: a symbol depends on d if and only if d occurs in its reverse dependencies, in the condition of a property that is neither choice nor select, or in the value of a default of a symbol that is not a choice |
| `DepCheckModule.OccurrencesExactly` | scripts/kconfig/symbol.c:835-866 | the symbols of an expression in the order of the search are those it contains |
| `DepCheckModule.RankedHasNoCycle` | scripts/kconfig/symbol.c:868-913 | a graph whose symbols can be ranked above what they depend on has no cycle |
| `DepCheckModule.ReportsAreExact` | scripts/kconfig/symbol.c:868-913 | reports that are cycles, absent only when the symbols can be ranked: there is a report if and only if there is a cycle |
| `DepCheckModule.Checker.CheckAll` | scripts/kconfig/zconf.y:472-474 | run over all symbols that depend on anything from clear flags, the search ends, leaves no CHECK flag and each of them CHECKED; every report is a cycle of the graph, and there is one if and only if the graph has a cycle |
| `DepCheckModule.Checker.CheckSymbol` | scripts/kconfig/symbol.c:868-913 | the flags of the callers are restored; a symbol is returned only while it is being checked, with the printed names forming a chain that leads to it |
| `DepCheckModule.Checker.CheckExpr` | scripts/kconfig/symbol.c:835-866 | the same for an expression; its symbols are searched from left to right, and when a report stops the search, all symbols before the one it came to have been checked |
| `DepCheckModule.Checker.CheckDeclaration` | scripts/kconfig/symbol.c:881-902 | reverse dependencies first, then the properties in order; without a report every dependency of the declaration is done |
| `DepCheckModule.Checker.CheckProperty` | scripts/kconfig/symbol.c:888-901 | choices and selects are passed over; the value counts only for a default of a symbol that is not a choice |
| `DepCheckModule.Checker.Leave` | scripts/kconfig/symbol.c:903-912 | a report is complete, and a closed cycle, exactly when its first symbol is reached again |
| `SymbolHashModule.SymbolTable.constructor` | scripts/kconfig/symbol.c:704-709 | the empty table |
| `SymbolHashModule.BucketAdds` | scripts/kconfig/symbol.c:722-725 | the bucket is the low byte of the sum of the characters, whatever their order |
| `SymbolHashModule.SymbolTable.AtMostOne` | scripts/kconfig/symbol.c:727-734 | no name is in the table twice with the same constness, in whatever chain, and y, m, n never are |
| `SymbolHashModule.SymbolTable.Lookup` | scripts/kconfig/symbol.c:704-754 | a symbol of the name asked for: for y, m and n the symbols yes, mod and no; else the object the map has for name and constness, or a new one that the map has from then on; without a name a new anonymous one; nothing leaves the table |
| `SymbolHashModule.SymbolTable.LookupAll` | scripts/kconfig/symbol.c:704-754 | over any run of lookups, each returns a symbol of its name, and two return the same object exactly when they ask for the same name and, unless it is reserved, the same constness |
| `SymbolHashModule.SymbolTable.Find` | scripts/kconfig/symbol.c:756-789 | yes, mod and no for y, m and n, else the non-constant symbol of the name, or none; an anonymous symbol is never found |
| `SymbolHashModule.SymbolTable.Search` | scripts/kconfig/symbol.c:727-734 | walking one chain finds what the map has |
| `SymbolHashModule.SymbolTable.HashOf` | scripts/kconfig/symbol.c:722-725 | the loop computes the bucket, never the anonymous one |
| `SymbolHashModule.SymbolTable.Prepend` | scripts/kconfig/symbol.c:741-751 | the new symbol becomes the head of its chain, and no other chain changes |
| `ConfStringModule.UnescapeInverts` | scripts/kconfig/confdata.c:215-225 | unescaping what was escaped gives every string back, whatever follows the closing quote |
| `ConfStringModule.EscapeIsShortest` | scripts/kconfig/confdata.c:526-542 | of all texts with a backslash before each quote and backslash, and perhaps before other characters, the writer chooses the only shortest |
| `ConfStringModule.UnescapeExactlyWhen` | scripts/kconfig/confdata.c:215-229 | the reader accepts exactly those texts, up to the closing quote, also where no writer put the backslash |
| `ConfStringModule.ReadLineExactlyWhen` | scripts/kconfig/confdata.c:172-231 | it takes a value from exactly the lines CONFIG_name="text"..., with no = in the name and no newline in the text; what follows the closing quote is ignored |
| `ConfStringModule.FgetsReads` | scripts/kconfig/confdata.c:139 | what fgets reads: the beginning of the file up to the first newline, as far as it fits with a NUL |
| `ConfStringModule.CutEscapeIsOpen` | scripts/kconfig/confdata.c:226-229 | no proper part of an escaped string is taken for a whole one |
| `ConfStringModule.ReadsBackExactlyWhen` | scripts/kconfig/confdata.c:173-235 | a string written to a file is read back as the value of its symbol if and only if it has no newline and its line fits the buffer |
| `ConfLoopsModule.WriteAssignment` | scripts/kconfig/confdata.c:519-543 | the nested loops write the escaped line |
| `ConfLoopsModule.WriteEscaped` | scripts/kconfig/confdata.c:526-542 | the do loop, also for the empty string |
| `ConfLoopsModule.UnescapeInPlace` | scripts/kconfig/confdata.c:219-229 | moving the tail of the buffer over each backslash leaves the unescaped string, or finds that no quote closes it; nothing before it changes |
| `ConfLoopsModule.MoveLeft` | scripts/kconfig/confdata.c:224 | the overlapping move closes the gap and keeps the final NUL |
| `ConfLoopsModule.ReadLineInPlace` | scripts/kconfig/confdata.c:173-235 | the line in the buffer is cut into name and value as specified |
| `ConfLoopsModule.Gets` | scripts/kconfig/confdata.c:139 | fgets leaves a line in the buffer, as far as it fits, and a NUL |
| `ConfLoopsModule.WriteThenRead` | scripts/kconfig/confdata.c:139-235 | written, read into the buffer and unescaped there, a string comes back if and only if it has no newline and its line fits |
| `RateMonotonicModule.ChooseIsRateMonotonic` | core/sched/rt-rm.c:141-177 | the chosen entry has budget left and minimal period among those; the current entry stays on a tie, else the first in the queue is taken |
| `RateMonotonicModule.AttachKeepsInvariant` | core/sched/rt-rm.c:94-105 | attaching a feasible entry keeps the invariant |
| `RateMonotonicModule.TickNeverUnderflows` | core/sched/rt-rm.c:161-185 | no counter is zero where it is decremented |
| `RateMonotonicModule.NoPeriodWrapsAround` | core/sched/rt-rm.c:146-161 | an entry configured without a period is replenished once and then waits 2^32 ticks |
| `RateMonotonicModule.TickKeepsInvariant` | core/sched/rt-rm.c:124-220 | a tick keeps the invariant |
| `RateMonotonicModule.StuckExactlyWhen` | core/sched/rt-rm.c:135-197 | the endless loops are entered if and only if no entry has budget after replenishment |
| `RateMonotonicModule.IdleGuestSuffices` | core/sched/rt-rm.c:192-197 | a tick never enters them while some entry has its whole period as budget |
| `RateMonotonicBoundModule.RunsKeepInvariant` | core/sched/rt-rm.c:124-220 | the invariant holds after every run of attachments and ticks |
| `RateMonotonicBoundModule.IdleGuestKeepsRunning` | core/sched/rt-rm.c:192-197 | once such an entry is attached, the endless loops are unreachable: no configured continuation of the run ends in one |
| `RateMonotonicBoundModule.CountersTellHistory` | core/sched/rt-rm.c:145-185 | budget_cntdn is the budget less the ticks run since the last replenishment; period_cntdn is a function of the age |
| `RateMonotonicBoundModule.ReplenishedEveryPeriod` | core/sched/rt-rm.c:146-153 | an entry is replenished in every period-th tick and in no other |
| `RateMonotonicBoundModule.MissedExactlyWhen` | core/sched/rt-rm.c:146-149 | after every configured run an entry counts as having missed its deadline if and only if a whole number of periods has passed since it was attached and in the last one it ran for less than its budget |
| `RateMonotonicBoundModule.NoDeadlineMiss` | core/sched/rt-rm.c:145-153 | over all runs: if the budget plus, for all other entries of no longer period, (ceil(P_i/P_j)+1)*B_j fits the period, no deadline is missed, that is, every period that ends has given the entry its whole budget |
| `RateMonotonicBoundModule.DemandOfTwo` | core/sched/rt-rm.c:145-185 | that demand for two entries, spelled out |
| `RateMonotonicBoundModule.ShortestPeriodNeverMisses` | core/sched/rt-rm.c:145-185 | the entry of strictly shortest period never misses |
| `RateMonotonicSchedulerModule.Scheduler.AttachVcpu` | core/sched/rt-rm.c:94-105 | the entry joins the end of the queue with full counters |
| `RateMonotonicSchedulerModule.Scheduler.ScanQueue` | core/sched/rt-rm.c:145-162 | the loop replenishes and counts down every entry, reports exactly the missed deadlines and finds the first entry of shortest period |
| `RateMonotonicSchedulerModule.Scheduler.PickNext` | core/sched/rt-rm.c:164-177 | keeping or preempting the current entry gives the rate-monotonic choice |
| `RateMonotonicSchedulerModule.Scheduler.DoSchedule` | core/sched/rt-rm.c:124-220 | the method on objects does one tick of the model; it reports a miss, for whatever run led here, exactly for the entries whose period has just ended without having given them their budget; the chosen entry is running, one out of budget waiting, and a preempted one untouched |
| `RoundRobinModule.RunsKeepInvariant` | core/sched/rr.c:71-164 | over any run no entry is queued twice or both queued and running, and all of them are attached |
| `RoundRobinModule.RunsKeepStates` | core/sched/rr.c:71-164 | over any run from the start an entry is WAITING exactly while it is queued, and the current one is RUNNING |
| `RoundRobinModule.RunsKeepListed` | core/sched/scheduler.c:206-318 | over any run from the start no entry that is queued or running is off the standby list |
| `RoundRobinModule.MembersAreConserved` | core/sched/rr.c:71-164 | each step changes the members by the entry attached or detached only |
| `RoundRobinModule.MovesForward` | core/sched/rr.c:101-164 | an entry moves one place forward with each decision, whatever attaches and detaches come between |
| `RoundRobinModule.BoundedWait` | core/sched/rr.c:101-164 | the entry at place k runs after exactly the (k+1)-st decision |
| `RoundRobinModule.EachRunsOnce` | core/sched/rr.c:101-164 | n undisturbed decisions run each of n members exactly once, in order |
| `RoundRobinModule.OwnTurn` | core/sched/rr.c:101-164 | the running entry has its next turn after everyone in the queue |
| `RoundRobinModule.AttachOnlyOnce` | core/sched/scheduler.c:266-318 | detaching leaves the state as it is, so every later attempt to attach that vCPU is refused with 254 until it is unregistered |
| `RoundRobinModule.ReregisteredIsAttached` | core/sched/scheduler.c:206-254 | unregistering and registering it anew lets it be attached |
| `RoundRobinSchedulerModule.Scheduler.RegisterVcpu` | core/sched/scheduler.c:206-223 | a detached entry joins the standby list |
| `RoundRobinSchedulerModule.Scheduler.Find` | core/sched/scheduler.c:178-192 | the first standby entry of the vCPU, or none |
| `RoundRobinSchedulerModule.Scheduler.AttachVcpu` | core/sched/scheduler.c:266-289 | 255, 254 or the physical CPU, and the entry in the queue only in the last case |
| `RoundRobinSchedulerModule.Scheduler.DetachCurrent` | core/sched/rr.c:82-96 | detaching the running entry changes nothing else |
| `RoundRobinSchedulerModule.Scheduler.Schedule` | core/sched/rr.c:101-164 | the running entry goes to the end, the first one runs |
| `LinkedListModule.InitHead` | include/lib/list.h:51-55 | a ring of one |
| `LinkedListModule.Add` | include/lib/list.h:57-63 | the item becomes the first |
| `LinkedListModule.AddTail` | include/lib/list.h:65-72 | the item becomes the last |
| `LinkedListModule.Del` | include/lib/list.h:82-87 | the item is out wherever it was, and its links are NULL |
| `LinkedListModule.DelInit` | include/lib/list.h:89-95 | the item is out wherever it was, and linked to itself |
| `LinkedListModule.DelInitTwice` | include/lib/list.h:89-95 | a second list_delinit changes nothing |
| `LinkedListModule.Empty` | include/lib/list.h:97-100 | true exactly for the empty sequence |
| `LinkedListModule.IsSingular` | include/lib/list.h:102-108 | true for one item and, against its comment, for none |
| `LinkedListModule.Length` | include/lib/list.h:110-118 | the length of the sequence |
| `LinkedListModule.PrevAndNextAreInverse` | include/lib/list.h:120-127 | prev and next are mutually inverse on every node |
| `LinkedListModule.RingIsUnique` | include/lib/list.h:46-49 | the links determine the sequence |
| `PageTableModule.LayoutIsFlat` | arch/arm/lpae.c:41-48 | second- and third-level entries lie in page order |
| `PageTableModule.WalkEqualsFlat` | arch/arm/lpae.c:36-68 | following the descriptors as the hardware does ends at base + 0x5000 + 8*page, unless a descriptor on the way is not valid |
| `PageTableModule.LookupIsFlat` | arch/arm/lpae.c:55-68 | a lookup that does not fault is what read_pgentry returns |
| `PageTableModule.SetTablePointsTo` | arch/arm/lpae.c:4-14 | a table descriptor points to its table if and only if that is page aligned |
| `PageTableModule.SetEntryDecodes` | arch/arm/lpae.c:16-34 | a leaf decodes to the page frame and attributes it was given, each cut to its field |
| `PageTableModule.CreateLinks` | arch/arm/paging.c:5-19 | paging_create links all levels |
| `PageTableModule.TableAfterWrites` | arch/arm/lpae.c:36-53 | after any writes the table is linked, each leaf is the last one written, and the upper levels are valid exactly on the paths to mapped pages |
| `PageTableModule.LookupAfterWrites` | arch/arm/lpae.c:36-68 | the hardware finds the last mapping of a page; an unmapped page faults unless a neighbour validated its table, and then shows the word memory held before |
| `PageTableModule.WritesStayInside` | core/vm/vmem.c:13 | every write stays inside the 0x805000 bytes of the table |
| `PageTableModule.CreateStaysInside` | arch/arm/paging.c:5-19 | so does creating the table |
| `PageTableModule.WalkStaysInside` | arch/arm/lpae.c:55-68 | a walk reads its own table only |
| `PageTableModule.TablesAreIsolated` | core/vm/vmem.c:38-50 | creating or filling one table never changes a translation by a disjoint one |
| `PageTableModule.VmsAreIsolated` | core/vm/vmem.c:22-25 | the tables of different VMs are disjoint, so mapping for one VM never changes the translation of another |
| `PageTableModule.TablesAreContiguous` | core/vm/vmem.c:22-25 | the tables lie one after the other from the start of the block on, number 0 first |
| `VmIsolationModule.TableIsOwn` | core/vm/vmem.c:22-55 | after any interleaving of creating and filling tables, the table of a VM is what its own steps make of it |
| `VmIsolationModule.VmsAreIsolatedInRuns` | core/vm/vmem.c:22-55 | so each VM translates every page as its own steps alone would have it |
| `VmemModule.PageTables.PagingCreate` | arch/arm/paging.c:5-19 | both loops |
| `VmemModule.PageTables.WritePgentry` | arch/arm/lpae.c:36-53 | the three writes |
| `VmemModule.PageTables.AddIpaMapping` | arch/arm/paging.c:31-38 | the loop writes one leaf per started page, with 32-bit address wrap-around |
| `VmemModule.PageTables.VmemInit` | core/vm/vmem.c:38-55 | the descriptors in order, then the DRAM window |
| `VmemModule.LastWriterIsLastCovering` | core/vm/vmem.c:42-55 | the last write to a page comes from the last descriptor that covers it |
| `VmemModule.TouchedExactlyWhen` | core/vm/vmem.c:42-55 | the second-level entry of a page is made valid if and only if some descriptor covers a page of its group |
| `VmemModule.VmemTranslation` | core/vm/vmem.c:22-55 | a VM translates every page by the last descriptor that covers it, the DRAM window coming last; an uncovered page shows the old word of memory if a page of its group is covered, and faults otherwise |
| `VmemModule.CoversExactlyWhen` | arch/arm/paging.c:31-38 | a page-aligned window covers exactly the pages in which it has a byte |
| `VmemModule.WindowTranslates` | core/vm/vmem.c:22-55 | byte by byte: every address of a page-aligned window whose page no later window covers is translated to the same offset from the physical address, across the end of the address space as well, with the attributes of the window |
| `VmIsolationModule.VmTranslatesItsOwn` | core/vm/vmem.c:22-55 | in any interleaving in which the steps of a VM are its creation and then its mappings, the hardware in the end finds for it the last of its own descriptors that covers a page; an uncovered page faults, or shows the word from before the first step if its group is covered |
| `BitsModule.IdiomFindsLowestBit` | drivers/gic-v2.c:37-40 | 31 - clz(x & -x) is the index of the lowest set bit |
| `VirqDeliveryModule.FindFreeSlotIsLowest` | drivers/gic-v2.c:25-46 | the slot found is the lowest usable list register of all, over both registers; none is found only if none is usable |
| `VirqDeliveryModule.EntryFor` | drivers/gic-v2.c:299-311 | every entry virq_inject builds is pending, not the empty entry, and makes its register unusable |
| `VirqDeliveryModule.EntryFields` | drivers/gic-v2.c:299-311 | field by field, if the ids fit: bits 0-9 are the virtual id; bits 10-19 the physical id, or for a software interrupt the CPU with bit 9 set; bits 28-29 say pending only; bit 31 whether it is a hardware interrupt; all others are zero |
| `VirqDeliveryModule.VirtualIdExactlyWhen` | drivers/gic-v2.c:299-311 | the virtual id arrives unchanged if and only if it is below 1024 |
| `VirqDeliveryModule.RetiredExactlyWhenHardware` | drivers/gic-v2.c:299-311 | with its state bits cleared the register is usable again if and only if it held a hardware interrupt |
| `VirqDeliveryModule.InjectPlaces` | drivers/gic-v2.c:313-342 | the entry goes to the lowest usable register of a running vCPU that has one, else to the first empty place of the queue; without room nothing changes |
| `VirqDeliveryModule.InjectFailsExactlyWhen` | drivers/gic-v2.c:301-342 | false if and only if the queue is full and the vCPU has no usable register of its own |
| `VirqDeliveryModule.InjectConserves` | drivers/gic-v2.c:301-342 | what a vCPU holds grows by exactly the entry on success and not at all otherwise; other vCPUs keep theirs |
| `VirqDeliveryModule.FlushConserves` | drivers/gic-v2.c:268-288 | a flush moves entries from the queue to the registers without losing or copying any |
| `VirqDeliveryModule.FlushDrains` | drivers/gic-v2.c:268-288 | afterwards the queue is empty or no register is usable |
| `VirqDeliveryModule.FlushIsInOrder` | drivers/gic-v2.c:274-285 | it works through the queue in order: up to some place all is taken out, from there on nothing is touched |
| `VirqDeliveryModule.FlushKeeps` | drivers/gic-v2.c:274-285 | a register that is not usable keeps its entry |
| `VirqDeliveryModule.SaveStores` | core/vm/vcpu.c:139-151 | saving any vCPU leaves the live interrupts in its saved registers, and every other vCPU as it was |
| `VirqDeliveryModule.RestoreConserves` | core/vm/vcpu.c:153-166 | restoring keeps what every vCPU holds |
| `VirqDeliveryModule.RestoreDrains` | core/vm/vcpu.c:164 | after a restore the queue is empty or no register is usable |
| `VirqDeliveryModule.RestoreBringsBack` | core/vm/vcpu.c:153-166 | every register that was in use comes back in its place, and all of them if nothing was queued |
| `VirqDeliveryModule.SwitchConserves` | core/vm/context_switch.c:7-27 | a switch keeps what every vCPU holds |
| `VirqDeliveryModule.SwitchDrains` | core/vm/context_switch.c:7-27 | and drains the queue of the next one as far as there is room |
| `VirqDeliveryModule.SwitchAndBack` | core/vm/context_switch.c:7-27 | switching to another vCPU and back brings every live register in use back to its place, and all of them if nothing was queued |
| `VirqDeliveryModule.SuspendConservesExactlyWhen` | core/vm/vcpu.c:110-121 | suspending a vCPU keeps what it holds if and only if it is running, or had saved just what is live |
| `VirqDeliveryModule.SuspendKeepsOthers` | core/vm/vcpu.c:110-121 | the other vCPUs keep theirs in any case |
| `VirqDeliveryModule.SuspendStops` | core/vm/vcpu.c:110-121 | after suspending a vCPU its interrupts are queued and no register is written for it; suspending one that was not running does not stop the one that is |
| `VirqDeliveryModule.RunsConserve` | drivers/gic-v2.c:268-342 | over any run of injections, switches, suspensions that meet that condition, acknowledgements and retirements, every vCPU holds what it held plus what was injected with success less what it finished, states aside |
| `PhysicalCpuModule.ReadFreeSlot` | drivers/gic-v2.c:25-46 | the two-register search on the live registers |
| `PhysicalCpuModule.FlushQueue` | drivers/gic-v2.c:268-288 | the loop over the queue, with its early exit |
| `PhysicalCpuModule.StoreInQueue` | drivers/gic-v2.c:319-325 | the loop takes the first empty place |
| `PhysicalCpuModule.CopyRegisters` | core/vm/vcpu.c:143-146 | the copy loops of save and restore |
| `PhysicalCpuModule.PhysicalCpu.VirqInject` | drivers/gic-v2.c:301-342 | the method on arrays does the injection of the model: on success the register or queue place that changed carries the virtual id, and the other fields, asked for |
| `PhysicalCpuModule.PhysicalCpu.VcpuSave` | core/vm/vcpu.c:139-151 | saving any vCPU on arrays |
| `PhysicalCpuModule.PhysicalCpu.VcpuSuspend` | core/vm/vcpu.c:110-121 | suspending any vCPU on arrays |
| `PhysicalCpuModule.PhysicalCpu.VcpuRestore` | core/vm/vcpu.c:153-166 | restoring on arrays |
| `PhysicalCpuModule.PhysicalCpu.DoContextSwitch` | core/vm/context_switch.c:7-27 | the switch on arrays |

## Left out

- DupsProofsModule.Dups2Keeps: states that y and n are kept, not m; exactly when one replacement is right is `ContradictsExactlyWhen`, and exactly when all values are kept `EliminateDupsIsExactWhen`.
- EliminateDupsModule.EliminateDupsKeeps: the same for the whole function.
- ExprEqCompleteModule.ExprEqDecidesShape: folded expressions only; on others the answer is sound too (`ExprEqIsSound`), but is no equality of shapes (`ExprEqFoldsOnlyLeftovers`).
- ExprEqCompleteModule.ExprEqIsReflexiveExactlyWhen: likewise.
- DupsCompleteModule.ContradictsFindsExactly: folded normal forms only, which every round after the first works on when `expr_transform` went before.
- TransCompareModule.TransCompareMeaning: y and n, which the callers ask for (`scripts/kconfig/menu.c:270`, `281`); m is `TransCompareModIsExactWhen`.
- DepCheckModule.Checker.CheckAll: flags are sets of symbols, and the printed text is the sequence of names.
- SymbolHashModule.SymbolTable.Lookup: a name is a sequence of characters of any length; the overflow of the int that adds them up is not modelled, as only the low byte counts.
- Expression nodes E_NONE, E_CHOICE and E_RANGE, NULL operands, and the freeing of nodes.
- The duplicate passes on heap nodes: they are modelled on values, with paths for the slots that the code passes as `struct expr **`; `expr_extract_eq`, the joins and `expr_trans_compare` are modelled on values too. What this does not capture is the order in which nodes are overwritten.
- `trans_count` inside `expr_eliminate_eq` and `expr_transform`: only duplicate elimination reads it, and `expr_eq` restores it.
- `expr_trans_bool`, the tree surgery of `menu_finalize`, choices, and the full recursive `sym_calc_value`.
- MenuNestingModule.ImpliesExactlyWhen: conditions that are folded; soundness (`NestingIsSound`) is for all.
- The Bison automaton: the grammar is modelled as a recursive reader with the declared precedences. Of the lexer, quotes, comments, backslashes and line ends; and the text `<choice>` printed for an anonymous symbol.
- The lines of `.config` for other symbol types, and the header file written beside it.
- Detaching in the rate-monotonic policy, which leaves `current` pointing at the detached entry (`core/sched/rt-rm.c:107-119`).
- The deadline policy `core/sched/rt-edf.c`: it keeps the period, not the countdown, as its running minimum (156-158), so it does not compute earliest deadline first.
- RoundRobinSchedulerModule.Scheduler.DetachCurrent: only the running entry is detached; for any other one the code clears `current` all the same (`core/sched/rr.c:91`). Unregistering is modelled on values only, for an entry that is neither queued nor running: the code frees the data of a queued one.
- Run queues are sequences in both schedulers; that the intrusive list stands for one is `LinkedList`. The statistics of CONFIG_SCHED_RM_REPORT and the timer value are not modelled.
- `list_replace`.
- `paging_add_mapping` (the hypervisor's own table, the same loop), mappings of more than 0x7FFFF000 bytes (the signed loop counter would overflow), and the system registers written by `vmem_init`.
- The maintenance interrupt handler, GICH_VMCR, and the other registers saved on a switch.
- Concurrency between physical CPUs: each handler is one atomic step of one CPU.
- Copying and deleting VMs, device models, timers, boot code, and the front ends of the configuration tool.

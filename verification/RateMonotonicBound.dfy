/** Whole runs of the rate-monotonic scheduler: what its counters mean, and when no deadline is missed. */
module RateMonotonicBoundModule {
  import opened ArithmeticModule
  import opened Common
  import opened RateMonotonicModule

  /** What can happen to the scheduler; vCPUs are attached with the configured numbers, never detached. */
  datatype Step = AttachStep(period: nat, budget: nat) | TickStep

  predicate Configured(steps: seq<Step>) {
    forall k :: 0 <= k < |steps| ==> steps[k].AttachStep? ==> Feasible(steps[k].period, steps[k].budget)
  }

  const INIT := State([], None)

  function DoStep(o: Outcome, step: Step): Outcome {
    match o
    case Stuck => Stuck
    case Running(s) =>
      match step
      case AttachStep(p, b) => Running(Attach(s, p, b))
      case TickStep => Tick(s)
  }

  /** The state after a run from the empty queue. */
  function Exec(steps: seq<Step>): Outcome {
    if steps == [] then Running(INIT) else DoStep(Exec(steps[..|steps| - 1]), steps[|steps| - 1])
  }

  /** The invariant holds after every run. */
  lemma {:induction false} RunsKeepInvariant(steps: seq<Step>)
    requires Configured(steps) && Exec(steps).Running?
    ensures Invariant(Exec(steps).s)
  {
    if steps != [] {
      var before := steps[..|steps| - 1];
      RunsKeepInvariant(before);
      match steps[|steps| - 1]
      case AttachStep(p, b) => AttachKeepsInvariant(Exec(before).s, p, b);
      case TickStep => TickKeepsInvariant(Exec(before).s);
    }
  }

  /** Once an entry is attached whose budget is its whole period, no configured continuation of the run ends
      in the endless loop. */
  lemma {:induction false} IdleGuestKeepsRunning(steps: seq<Step>, more: seq<Step>, k: nat)
    requires Configured(steps + more) && Exec(steps).Running? && k < |Exec(steps).s.tasks|
    requires Exec(steps).s.tasks[k].budget == Exec(steps).s.tasks[k].period
    ensures Exec(steps + more).Running?
    ensures k < |Exec(steps + more).s.tasks|
    ensures Exec(steps + more).s.tasks[k].budget == Exec(steps + more).s.tasks[k].period
  {
    if more == [] {
      assert steps + more == steps;
    } else {
      var before := more[..|more| - 1];
      assert (steps + more)[..|steps + more| - 1] == steps + before;
      IdleGuestKeepsRunning(steps, before, k);
      var s := Exec(steps + before).s;
      RunsKeepInvariant(steps + before);
      if more[|more| - 1].TickStep? {
        IdleGuestSuffices(s, k);
        assert Tick(s).s.tasks[k] == AfterTick(Replenish(s.tasks[k]), Some(k) == Tick(s).s.current);
      }
    }
  }

  // ----- the counters, against the history of the run -----

  /** Ticks since entry `k` was attached. */
  function Age(steps: seq<Step>, k: nat): nat {
    if steps == [] then 0
    else
      var before := steps[..|steps| - 1];
      if steps[|steps| - 1].TickStep? && Exec(before).Running? && k < |Exec(before).s.tasks| then Age(before, k) + 1
      else Age(before, k)
  }

  /** A whole number of periods has passed. */
  predicate IsPeriodEnd(age: nat, period: nat) {
    period > 0 && age > 0 && age % period == 0
  }

  /** Ticks in which entry `k` ran in its current period, the first of which begins when it is attached. */
  function Ran(steps: seq<Step>, k: nat): nat {
    if steps == [] then 0
    else
      var before := steps[..|steps| - 1];
      if steps[|steps| - 1].TickStep? && Exec(steps).Running? && k < |Exec(before).s.tasks| then
        (if IsPeriodEnd(Age(before, k), Exec(before).s.tasks[k].period) then 0 else Ran(before, k))
        + (if Exec(steps).s.current == Some(k) then 1 else 0)
      else Ran(before, k)
  }

  lemma {:induction false} NotYetAttached(steps: seq<Step>, k: nat)
    requires Exec(steps).Running? && k >= |Exec(steps).s.tasks|
    ensures Age(steps, k) == 0 && Ran(steps, k) == 0
  {
    if steps != [] {
      NotYetAttached(steps[..|steps| - 1], k);
    }
  }

  /** The period counter as a function of the age. */
  function PeriodLeftAt(period: nat, age: nat): nat
    requires period > 0
  {
    if age == 0 then period else period - 1 - (age - 1) % period
  }

  lemma PeriodLeftNext(period: nat, age: nat)
    requires period > 0
    ensures PeriodLeftAt(period, age) == 0 <==> age > 0 && age % period == 0
    ensures PeriodLeftAt(period, age + 1)
            == (if PeriodLeftAt(period, age) == 0 then period else PeriodLeftAt(period, age)) - 1
  {
    if age > 0 {
      var q, r := (age - 1) / period, (age - 1) % period;
      assert age - 1 == q * period + r;
      if r == period - 1 {
        assert age == (q + 1) * period;
        DivModOf(q + 1, 0, period);
      } else {
        DivModOf(q, r + 1, period);
      }
    }
  }

  /** After every run the budget counter is the budget less the ticks run since the last replenishment,
      and the period counter is a function of the ticks since the entry was attached. */
  lemma {:induction false} CountersTellHistory(steps: seq<Step>, k: nat)
    requires Configured(steps) && Exec(steps).Running? && k < |Exec(steps).s.tasks|
    ensures var t := Exec(steps).s.tasks[k];
            && t.period > 0
            && t.budgetLeft == t.budget - Ran(steps, k)
            && t.periodLeft == PeriodLeftAt(t.period, Age(steps, k))
  {
    var before, last := steps[..|steps| - 1], steps[|steps| - 1];
    var s := Exec(before).s;
    RunsKeepInvariant(before);
    if k >= |s.tasks| {
      NotYetAttached(before, k);
    } else {
      CountersTellHistory(before, k);
      if last.TickStep? {
        var t := s.tasks[k];
        PeriodLeftNext(t.period, Age(before, k));
        assert t.periodLeft == 0 <==> IsPeriodEnd(Age(before, k), t.period);
        TickNeverUnderflows(s);
        assert ReplenishAll(s.tasks)[k] == Replenish(t);
      }
    }
  }

  /** An entry is replenished exactly in every `period`-th tick after the one that followed its attachment. */
  lemma ReplenishedEveryPeriod(steps: seq<Step>, k: nat)
    requires Configured(steps) && Exec(steps).Running? && k < |Exec(steps).s.tasks|
    ensures var t := Exec(steps).s.tasks[k];
            t.period > 0 && (t.periodLeft == 0 <==> Age(steps, k) > 0 && Age(steps, k) % t.period == 0)
  {
    CountersTellHistory(steps, k);
    PeriodLeftNext(Exec(steps).s.tasks[k].period, Age(steps, k));
  }

  /** A period of entry `k` has just ended, and in it the entry ran for less than its budget. */
  predicate EndsShort(steps: seq<Step>, k: nat)
    requires Exec(steps).Running? && k < |Exec(steps).s.tasks|
  {
    var t := Exec(steps).s.tasks[k];
    IsPeriodEnd(Age(steps, k), t.period) && Ran(steps, k) < t.budget
  }

  /** A deadline miss is reported exactly for the entries whose period ends short. */
  lemma MissedExactlyWhen(steps: seq<Step>, k: nat)
    requires Configured(steps) && Exec(steps).Running? && k < |Exec(steps).s.tasks|
    ensures Missed(Exec(steps).s.tasks[k]) <==> EndsShort(steps, k)
  {
    CountersTellHistory(steps, k);
    PeriodLeftNext(Exec(steps).s.tasks[k].period, Age(steps, k));
  }

  // ----- the response-time bound -----

  predicate Tasks(ts: seq<Task>) {
    forall k :: 0 <= k < |ts| ==> TaskInvariant(ts[k])
  }

  predicate Periodic(ts: seq<Task>) {
    forall k :: 0 <= k < |ts| ==> ts[k].period > 0
  }

  function CeilDiv(a: nat, b: nat): nat
    requires b > 0
  {
    (a + b - 1) / b
  }

  /** The most an entry `j` can run while `i` waits for its budget within one of its own periods. */
  function Interference(ts: seq<Task>, i: nat, j: nat): nat
    requires i < |ts| && j < |ts| && ts[j].period > 0
  {
    if j == i then ts[i].budget
    else if ts[j].period <= ts[i].period then (CeilDiv(ts[i].period, ts[j].period) + 1) * ts[j].budget
    else 0
  }

  /** The budget of `i` together with the interference from the first `n` entries. */
  function Demand(ts: seq<Task>, i: nat, n: nat): nat
    requires i < |ts| && n <= |ts| && Periodic(ts)
  {
    if n == 0 then 0 else Demand(ts, i, n - 1) + Interference(ts, i, n - 1)
  }

  /** What an entry can have run at most in the last `e` ticks: its budgets, less what is left of the last one. */
  function Share(t: Task, e: nat): int
    requires t.period > 0
  {
    t.budget * (1 + (e + t.periodLeft) / t.period) - t.budgetLeft
  }

  /** What entry `j` can have run at most, `e` ticks into the current period of entry `i`. */
  function Allowance(ts: seq<Task>, i: nat, j: nat, e: nat): int
    requires i < |ts| && j < |ts| && ts[j].period > 0
  {
    if j == i then ts[i].budget - ts[i].budgetLeft
    else if ts[j].period <= ts[i].period then Share(ts[j], e)
    else 0
  }

  function Allowances(ts: seq<Task>, i: nat, e: nat, n: nat): int
    requires i < |ts| && n <= |ts| && Periodic(ts)
  {
    if n == 0 then 0 else Allowances(ts, i, e, n - 1) + Allowance(ts, i, n - 1, e)
  }

  /** Ticks since the current period of `t` began. */
  function Elapsed(t: Task): nat
    requires TaskInvariant(t)
  {
    t.period - t.periodLeft
  }

  /** While entry `i` has budget left, every tick of its period so far is accounted for by an entry of
      no longer period. */
  predicate Accounted(ts: seq<Task>, i: nat)
    requires i < |ts| && Tasks(ts)
  {
    ts[i].budgetLeft > 0 ==> Elapsed(ts[i]) <= Allowances(ts, i, Elapsed(ts[i]), |ts|)
  }

  lemma MulDistributes(b: nat, q: nat)
    ensures b * (1 + (q + 1)) == b * (1 + q) + b
  {
  }

  lemma MulMonotone(b: nat, x: nat, y: nat)
    requires x <= y
    ensures b * x <= b * y
  {
    assert b * (y - x) >= 0;
  }

  /** A share covers at least what is gone of the current budget. */
  lemma ShareAtLeast(b: nat, x: nat, d: nat)
    requires d > 0
    ensures b * (1 + x / d) >= b
  {
    DivMonotone(0, x, d);
    MulMonotone(b, 1, 1 + x / d);
  }

  /** An allowance is never negative. */
  lemma AllowanceNonNegative(ts: seq<Task>, i: nat, j: nat, e: nat)
    requires i < |ts| && j < |ts| && TaskInvariant(ts[i]) && TaskInvariant(ts[j])
    ensures Allowance(ts, i, j, e) >= 0
  {
    ShareAtLeast(ts[j].budget, e + ts[j].periodLeft, ts[j].period);
  }

  /** Whether running `c` for a tick counts against entry `i`. */
  function Counts(ts: seq<Task>, i: nat, j: nat, c: nat): nat
    requires i < |ts| && j < |ts|
  {
    if j == c && ts[j].period <= ts[i].period then 1 else 0
  }

  /** A share grows by at least the tick the entry runs. */
  lemma ShareGrows(t: Task, e: nat, chosen: bool)
    requires TaskInvariant(t) && (chosen ==> Replenish(t).budgetLeft > 0)
    ensures Share(AfterTick(Replenish(t), chosen), e + 1) >= Share(t, e) + if chosen then 1 else 0
  {
    var t' := AfterTick(Replenish(t), chosen);
    if t.periodLeft == 0 {
      var q := e / t.period;
      assert e + 1 + t'.periodLeft == e + 1 * t.period;
      DivShifts(e, 1, t.period);
      assert (e + 1 + t'.periodLeft) / t.period == q + 1;
      MulDistributes(t.budget, q);
    } else {
      assert e + 1 + t'.periodLeft == e + t.periodLeft;
    }
  }

  /** A new share covers the tick the entry runs. */
  lemma ShareStarts(t: Task, chosen: bool)
    requires TaskInvariant(t) && (chosen ==> Replenish(t).budgetLeft > 0)
    ensures Share(AfterTick(Replenish(t), chosen), 1) >= if chosen then 1 else 0
  {
    var t' := AfterTick(Replenish(t), chosen);
    ShareAtLeast(t.budget, 1 + t'.periodLeft, t.period);
  }

  /** A tick inside the period of `i`. */
  lemma AllowanceGrows(ts: seq<Task>, i: nat, j: nat, e: nat, c: nat)
    requires i < |ts| && j < |ts| && TaskInvariant(ts[i]) && TaskInvariant(ts[j])
    requires ts[i].periodLeft > 0
    requires j == c ==> Replenish(ts[j]).budgetLeft > 0
    ensures Allowance(TickTasks(ts, c), i, j, e + 1) >= Allowance(ts, i, j, e) + Counts(ts, i, j, c)
  {
    ShareGrows(ts[j], e, j == c);
  }

  /** The tick that begins a period of `i`. */
  lemma AllowanceStarts(ts: seq<Task>, i: nat, j: nat, c: nat)
    requires i < |ts| && j < |ts| && TaskInvariant(ts[i]) && TaskInvariant(ts[j])
    requires ts[i].periodLeft == 0
    requires j == c ==> Replenish(ts[j]).budgetLeft > 0
    ensures Allowance(TickTasks(ts, c), i, j, 1) >= Counts(ts, i, j, c)
  {
    ShareStarts(ts[j], j == c);
  }

  lemma {:induction false} AllowancesGrow(ts: seq<Task>, i: nat, e: nat, c: nat, n: nat)
    requires i < |ts| && n <= |ts| && Tasks(ts)
    requires c < |ts| && ts[i].periodLeft > 0 && Replenish(ts[c]).budgetLeft > 0
    requires Periodic(TickTasks(ts, c))
    ensures Allowances(TickTasks(ts, c), i, e + 1, n)
            >= Allowances(ts, i, e, n) + if c < n then Counts(ts, i, c, c) else 0
  {
    if n > 0 {
      AllowancesGrow(ts, i, e, c, n - 1);
      AllowanceGrows(ts, i, n - 1, e, c);
    }
  }

  lemma {:induction false} AllowancesStart(ts: seq<Task>, i: nat, c: nat, n: nat)
    requires i < |ts| && n <= |ts| && Tasks(ts)
    requires c < |ts| && ts[i].periodLeft == 0 && Replenish(ts[c]).budgetLeft > 0
    requires Periodic(TickTasks(ts, c))
    ensures Allowances(TickTasks(ts, c), i, 1, n) >= if c < n then Counts(ts, i, c, c) else 0
  {
    if n > 0 {
      AllowancesStart(ts, i, c, n - 1);
      AllowanceStarts(ts, i, n - 1, c);
    }
  }

  lemma TickKeepsAccounted(s: State, i: nat)
    requires Invariant(s) && i < |s.tasks| && Tick(s).Running? && Accounted(s.tasks, i)
    ensures Invariant(Tick(s).s) && Accounted(Tick(s).s.tasks, i)
  {
    TickKeepsInvariant(s);
    TickNeverUnderflows(s);
    var ts, rs, c := s.tasks, ReplenishAll(s.tasks), Tick(s).s.current.value;
    ChooseIsRateMonotonic(rs, s.current);
    assert rs[i] == Replenish(ts[i]) && rs[c] == Replenish(ts[c]);
    var us := TickTasks(ts, c);
    assert Tick(s).s.tasks == us;
    assert us[i] == AfterTick(Replenish(ts[i]), i == c);
    if us[i].budgetLeft > 0 {
      assert Counts(ts, i, c, c) == 1;
      if ts[i].periodLeft == 0 {
        AllowancesStart(ts, i, c, |ts|);
      } else {
        AllowancesGrow(ts, i, Elapsed(ts[i]), c, |ts|);
      }
    }
  }

  lemma {:induction false} AllowancesOfPrefix(ts: seq<Task>, more: seq<Task>, i: nat, e: nat, n: nat)
    requires i < |ts| && n <= |ts| && Periodic(ts) && Periodic(ts + more)
    ensures Allowances(ts + more, i, e, n) == Allowances(ts, i, e, n)
  {
    if n > 0 {
      AllowancesOfPrefix(ts, more, i, e, n - 1);
    }
  }

  lemma {:induction false} AllowancesNonNegative(ts: seq<Task>, i: nat, e: nat, n: nat)
    requires i < |ts| && n <= |ts| && Tasks(ts)
    ensures Allowances(ts, i, e, n) >= 0
  {
    if n > 0 {
      AllowancesNonNegative(ts, i, e, n - 1);
      AllowanceNonNegative(ts, i, n - 1, e);
    }
  }

  /** Attaching another vCPU in the middle of a period does not disturb the account. */
  lemma AttachKeepsAccounted(s: State, period: nat, budget: nat, i: nat)
    requires Invariant(s) && Feasible(period, budget) && i < |Attach(s, period, budget).tasks|
    requires i < |s.tasks| ==> Accounted(s.tasks, i)
    ensures Invariant(Attach(s, period, budget)) && Accounted(Attach(s, period, budget).tasks, i)
  {
    AttachKeepsInvariant(s, period, budget);
    var ts, t := s.tasks, Task(period, budget, period, budget);
    if i < |ts| {
      var e := Elapsed(ts[i]);
      AllowancesOfPrefix(ts, [t], i, e, |ts|);
      AllowanceNonNegative(ts + [t], i, |ts|, e);
    } else {
      AllowancesNonNegative(ts + [t], i, 0, |ts| + 1);
    }
  }

  lemma {:induction false} RunsKeepAccounted(steps: seq<Step>, i: nat)
    requires Configured(steps) && Exec(steps).Running? && i < |Exec(steps).s.tasks|
    ensures Invariant(Exec(steps).s) && Accounted(Exec(steps).s.tasks, i)
  {
    var before := steps[..|steps| - 1];
    var s := Exec(before).s;
    RunsKeepInvariant(before);
    if i < |s.tasks| {
      RunsKeepAccounted(before, i);
    }
    match steps[|steps| - 1]
    case AttachStep(p, b) => AttachKeepsAccounted(s, p, b, i);
    case TickStep => TickKeepsAccounted(s, i);
  }

  lemma ScaledDivMonotone(b: nat, x: nat, y: nat, d: nat)
    requires d > 0 && x <= y
    ensures b * (1 + x / d) <= (y / d + 1) * b
  {
    DivMonotone(x, y, d);
    MulMonotone(b, 1 + x / d, 1 + y / d);
  }

  lemma ShareOfNewPeriod(t: Task, e: nat)
    requires TaskInvariant(t) && t.periodLeft == t.period
    ensures Share(t, e) == t.budget * (1 + e / t.period)
  {
    DivShifts(e, 1, t.period);
    MulDistributes(t.budget, e / t.period);
  }

  /** No entry runs more than its budget in each of its periods that `e` ticks can touch. */
  lemma ShareIsBounded(t: Task, e: nat)
    requires TaskInvariant(t)
    ensures Share(t, e) <= (CeilDiv(e, t.period) + 1) * t.budget
  {
    if t.periodLeft == t.period {
      ShareOfNewPeriod(t, e);
      ScaledDivMonotone(t.budget, e, e + t.period - 1, t.period);
    } else {
      ScaledDivMonotone(t.budget, e + t.periodLeft, e + t.period - 1, t.period);
    }
  }

  /** At the end of a period of `i` the allowances are within the interference. */
  lemma AllowanceWithinInterference(ts: seq<Task>, i: nat, j: nat)
    requires i < |ts| && j < |ts| && TaskInvariant(ts[i]) && TaskInvariant(ts[j]) && ts[i].budgetLeft > 0
    ensures Allowance(ts, i, j, ts[i].period) <= Interference(ts, i, j) - if j == i then 1 else 0
  {
    ShareIsBounded(ts[j], ts[i].period);
  }

  lemma {:induction false} AllowancesWithinDemand(ts: seq<Task>, i: nat, n: nat)
    requires i < |ts| && n <= |ts| && Tasks(ts)
    requires ts[i].budgetLeft > 0
    ensures Allowances(ts, i, ts[i].period, n) <= Demand(ts, i, n) - if i < n then 1 else 0
  {
    if n > 0 {
      AllowancesWithinDemand(ts, i, n - 1);
      AllowanceWithinInterference(ts, i, n - 1);
    }
  }

  /** After any run, an entry whose demand fits its period does not miss its deadline in the next tick: a period
      that ends has given it its whole budget.
      Other vCPUs may have been attached at any time. */
  lemma NoDeadlineMiss(steps: seq<Step>, i: nat)
    requires Configured(steps) && Exec(steps).Running? && i < |Exec(steps).s.tasks|
    ensures Invariant(Exec(steps).s)
    ensures var ts := Exec(steps).s.tasks;
            Demand(ts, i, |ts|) <= ts[i].period ==> !Missed(ts[i]) && !EndsShort(steps, i)
  {
    MissedExactlyWhen(steps, i);
    RunsKeepAccounted(steps, i);
    var ts := Exec(steps).s.tasks;
    if Missed(ts[i]) {
      AllowancesWithinDemand(ts, i, |ts|);
    }
  }

  /** For two entries, the second of no longer period: the budget of the first, and that of the second as often as
      its period begins within one of the first, and once more. */
  lemma DemandOfTwo(a: Task, b: Task)
    requires 0 < b.period <= a.period
    ensures Demand([a, b], 0, 2) == a.budget + ((a.period + b.period - 1) / b.period + 1) * b.budget
    ensures b.period < a.period ==> Demand([a, b], 1, 2) == b.budget
  {
    assert Demand([a, b], 0, 2) == Demand([a, b], 0, 1) + Interference([a, b], 0, 1);
    assert Demand([a, b], 1, 2) == Demand([a, b], 1, 1) + Interference([a, b], 1, 1);
  }

  lemma {:induction false} DemandOfShortest(ts: seq<Task>, i: nat, n: nat)
    requires i < |ts| && n <= |ts| && Periodic(ts)
    requires forall k :: 0 <= k < |ts| && k != i ==> ts[k].period > ts[i].period
    ensures Demand(ts, i, n) == if i < n then ts[i].budget else 0
  {
    if n > 0 {
      DemandOfShortest(ts, i, n - 1);
    }
  }

  /** The entry of strictly shortest period never misses. */
  lemma ShortestPeriodNeverMisses(steps: seq<Step>, i: nat)
    requires Configured(steps) && Exec(steps).Running? && i < |Exec(steps).s.tasks|
    requires forall k :: 0 <= k < |Exec(steps).s.tasks| && k != i
               ==> Exec(steps).s.tasks[k].period > Exec(steps).s.tasks[i].period
    ensures !Missed(Exec(steps).s.tasks[i]) && !EndsShort(steps, i)
  {
    NoDeadlineMiss(steps, i);
    var ts := Exec(steps).s.tasks;
    DemandOfShortest(ts, i, |ts|);
  }
}

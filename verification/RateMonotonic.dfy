/** The rate-monotonic scheduling decision: sched_rm_do_schedule and sched_rm_vcpu_attach
    (core/sched/rt-rm.c), as a function of the scheduler's state. */
module RateMonotonicModule {
  import opened Common

  const UINT32_MAX: nat := 0xFFFF_FFFF

  /** `x -= 1` on a uint32_t. */
  function Decrement(x: nat): nat {
    if x == 0 then UINT32_MAX else x - 1
  }

  /** struct entry_data_rm. */
  datatype Task = Task(period: nat, budget: nat, periodLeft: nat, budgetLeft: nat)

  /** struct sched_data_rm: the run queue in order, and which of its entries ran last. */
  datatype State = State(tasks: seq<Task>, current: Option<nat>)

  datatype Outcome = Running(s: State) | Stuck

  /** `sched_rm_vcpu_attach`. */
  function Attach(s: State, period: nat, budget: nat): State {
    s.(tasks := s.tasks + [Task(period, budget, period, budget)])
  }

  /** "Deadline miss": the period ends with budget left. */
  predicate Missed(t: Task) {
    t.periodLeft == 0 && t.budgetLeft != 0
  }

  function Replenish(t: Task): Task {
    if t.periodLeft == 0 then t.(periodLeft := t.period, budgetLeft := t.budget) else t
  }

  function ReplenishAll(ts: seq<Task>): (r: seq<Task>)
    ensures |r| == |ts| && forall k :: 0 <= k < |ts| ==> r[k] == Replenish(ts[k])
  {
    seq(|ts|, k requires 0 <= k < |ts| => Replenish(ts[k]))
  }

  /** The first entry of shortest period among those with budget left; `0xFFFFFFFF` counts as no period. */
  function Shortest(ts: seq<Task>): Option<nat> {
    if ts == [] then None
    else
      var n := |ts| - 1;
      var best := Shortest(ts[..n]);
      if ts[n].budgetLeft > 0 && ts[n].period < ShortestPeriod(ts[..n]) then Some(n) else best
  }

  /** `min_period`. */
  function ShortestPeriod(ts: seq<Task>): nat {
    if ts == [] then UINT32_MAX
    else
      var n := |ts| - 1;
      var shortest := ShortestPeriod(ts[..n]);
      if ts[n].budgetLeft > 0 && ts[n].period < shortest then ts[n].period else shortest
  }

  /** The entry to run, given the replenished queue: the current entry is preempted only by a strictly
      shorter period. */
  function Choose(ts: seq<Task>, current: Option<nat>): Option<nat> {
    var next := Shortest(ts);
    if current.Some? && current.value < |ts| && ts[current.value].budgetLeft != 0
       && !(next.Some? && next.value < |ts| && ts[current.value].period > ts[next.value].period)
    then current else next
  }

  /** One entry after a tick in which it was chosen or not. */
  function AfterTick(t: Task, chosen: bool): Task {
    t.(periodLeft := Decrement(t.periodLeft),
       budgetLeft := if chosen then Decrement(t.budgetLeft) else t.budgetLeft)
  }

  function TickTasks(ts: seq<Task>, chosen: nat): (r: seq<Task>)
    ensures |r| == |ts| && forall k :: 0 <= k < |ts| ==> r[k] == AfterTick(Replenish(ts[k]), k == chosen)
  {
    seq(|ts|, k requires 0 <= k < |ts| => AfterTick(Replenish(ts[k]), k == chosen))
  }

  /** `sched_rm_do_schedule`; `Stuck` is either of its endless loops. */
  function Tick(s: State): Outcome {
    match Choose(ReplenishAll(s.tasks), s.current)
    case Some(c) => Running(State(TickTasks(s.tasks, c), Some(c)))
    case None => Stuck
  }

  // ----- what every reachable state keeps -----

  /** The configurations the source expects. */
  predicate Feasible(period: nat, budget: nat) {
    1 <= budget <= period < UINT32_MAX
  }

  predicate TaskInvariant(t: Task) {
    && Feasible(t.period, t.budget)
    && t.periodLeft <= t.period && t.budgetLeft <= t.budget
    && (t.periodLeft == t.period ==> t.budgetLeft == t.budget)
    && (t.budget == t.period ==> t.budgetLeft >= t.periodLeft)
  }

  predicate Invariant(s: State) {
    && (forall k :: 0 <= k < |s.tasks| ==> TaskInvariant(s.tasks[k]))
    && (s.current.Some? ==> s.current.value < |s.tasks|)
  }

  /** What the search over the queue finds. */
  lemma {:induction false} ShortestIsLeast(ts: seq<Task>)
    ensures match Shortest(ts)
            case Some(c) =>
              && c < |ts| && ts[c].budgetLeft > 0 && ts[c].period == ShortestPeriod(ts) < UINT32_MAX
              && (forall k :: 0 <= k < |ts| && ts[k].budgetLeft > 0 ==> ts[c].period <= ts[k].period)
              && (forall k :: 0 <= k < c && ts[k].budgetLeft > 0 ==> ts[c].period < ts[k].period)
            case None =>
              ShortestPeriod(ts) == UINT32_MAX
              && forall k :: 0 <= k < |ts| && ts[k].budgetLeft > 0 ==> ts[k].period >= UINT32_MAX
  {
    if ts != [] {
      ShortestIsLeast(ts[..|ts| - 1]);
    }
  }

  /** The decision is rate monotonic: an entry with budget left and no longer period than any other such
      entry; among equals the current entry stays, otherwise the first one in the queue is taken. */
  lemma ChooseIsRateMonotonic(ts: seq<Task>, current: Option<nat>)
    requires forall k :: 0 <= k < |ts| ==> ts[k].period < UINT32_MAX
    requires current.Some? ==> current.value < |ts|
    ensures match Choose(ts, current)
            case Some(c) =>
              && c < |ts| && ts[c].budgetLeft > 0
              && (forall k :: 0 <= k < |ts| && ts[k].budgetLeft > 0 ==> ts[c].period <= ts[k].period)
              && (current != Some(c) ==>
                   && (forall k :: 0 <= k < c && ts[k].budgetLeft > 0 ==> ts[c].period < ts[k].period)
                   && (current.Some? && ts[current.value].budgetLeft > 0 ==> ts[c].period < ts[current.value].period))
            case None => forall k :: 0 <= k < |ts| ==> ts[k].budgetLeft == 0
  {
    ShortestIsLeast(ts);
  }

  lemma AttachKeepsInvariant(s: State, period: nat, budget: nat)
    requires Invariant(s) && Feasible(period, budget)
    ensures Invariant(Attach(s, period, budget))
  {
  }

  /** No counter underflows in a tick. */
  lemma TickNeverUnderflows(s: State)
    requires Invariant(s) && Tick(s).Running?
    ensures var ts, c := ReplenishAll(s.tasks), Tick(s).s.current.value;
            && c < |ts| && ts[c].budgetLeft > 0
            && forall k :: 0 <= k < |ts| ==> ts[k].periodLeft > 0
  {
    ChooseIsRateMonotonic(ReplenishAll(s.tasks), s.current);
  }

  /** Outside the configurations the counters wrap around: an entry without a period is replenished once, and then
      not before 2^32 ticks have passed. */
  lemma NoPeriodWrapsAround(t: Task, chosen: bool)
    requires t.period == 0 && t.periodLeft == 0
    ensures AfterTick(Replenish(t), chosen).periodLeft == 0xFFFF_FFFF
    ensures chosen && t.budget == 0 ==> AfterTick(Replenish(t), chosen).budgetLeft == 0xFFFF_FFFF
  {
  }

  lemma TickKeepsInvariant(s: State)
    requires Invariant(s) && Tick(s).Running?
    ensures Invariant(Tick(s).s)
  {
    TickNeverUnderflows(s);
    var c := Tick(s).s.current.value;
    forall k | 0 <= k < |s.tasks| ensures TaskInvariant(Tick(s).s.tasks[k]) {
      assert Tick(s).s.tasks[k] == AfterTick(Replenish(s.tasks[k]), k == c);
    }
  }

  /** The endless loop is entered exactly when no entry has budget left once all due entries are replenished. */
  lemma StuckExactlyWhen(s: State)
    requires Invariant(s)
    ensures Tick(s).Stuck? <==> forall k :: 0 <= k < |s.tasks| ==> ReplenishAll(s.tasks)[k].budgetLeft == 0
  {
    ChooseIsRateMonotonic(ReplenishAll(s.tasks), s.current);
  }

  /** With an entry whose budget is its whole period, an idle guest is never missing. */
  lemma IdleGuestSuffices(s: State, k: nat)
    requires Invariant(s) && k < |s.tasks| && s.tasks[k].budget == s.tasks[k].period
    ensures Tick(s).Running?
  {
    StuckExactlyWhen(s);
    assert ReplenishAll(s.tasks)[k] == Replenish(s.tasks[k]);
  }
}

/** sched_rm_do_schedule and sched_rm_vcpu_attach (core/sched/rt-rm.c) on the scheduler's own records. */
module RateMonotonicSchedulerModule {
  import opened Common
  import opened RateMonotonicModule
  import opened RateMonotonicBoundModule

  /** struct entry_data_rm, with the entry it belongs to. */
  class EntryData {
    const vcpuid: nat
    const period: nat
    const budget: nat
    var periodCntdn: nat
    var budgetCntdn: nat
    var state: EntryState

    constructor (vcpuid: nat, period: nat, budget: nat)
      ensures this.vcpuid == vcpuid && this.period == period && this.budget == budget && state == DETACHED
    {
      this.vcpuid, this.period, this.budget := vcpuid, period, budget;
      periodCntdn, budgetCntdn, state := 0, 0, DETACHED;
    }

    ghost function View(): Task
      reads this
    {
      Task(period, budget, periodCntdn, budgetCntdn)
    }

    /** One turn of the loop over the run queue: a new period begins when the last one is over, and budget
        left then is a missed deadline; the entry is compared with the best so far and counted down. */
    method Visit(next: EntryData?, minPeriod: nat) returns (next': EntryData?, minPeriod': nat, missed: bool)
      modifies this`periodCntdn, this`budgetCntdn
      ensures View() == AfterTick(Replenish(old(View())), false) && missed == Missed(old(View()))
      ensures var t := Replenish(old(View()));
              if t.budgetLeft > 0 && t.period < minPeriod then next' == this && minPeriod' == t.period
              else next' == next && minPeriod' == minPeriod
    {
      next', minPeriod', missed := next, minPeriod, false;
      if periodCntdn == 0 {
        missed := budgetCntdn != 0;
        budgetCntdn := budget;
        periodCntdn := period;
      }
      if budgetCntdn > 0 && minPeriod > period {
        next' := this;
        minPeriod' := period;
      }
      periodCntdn := Decrement(periodCntdn);
    }
  }

  /** struct sched_data_rm. */
  class Scheduler {
    var ticks: nat
    var current: EntryData?
    var runqueue: seq<EntryData>

    constructor ()
      ensures Represents(State([], None)) && runqueue == []
    {
      ticks, current, runqueue := 0, null, [];
    }

    ghost predicate Distinct()
      reads this
    {
      forall i, j :: 0 <= i < j < |runqueue| ==> runqueue[i] != runqueue[j]
    }

    /** The records stand for the state `s`. */
    ghost predicate Represents(s: State)
      reads this, runqueue
    {
      && Distinct()
      && |s.tasks| == |runqueue|
      && (forall k :: 0 <= k < |runqueue| ==> runqueue[k].View() == s.tasks[k])
      && (current == null <==> s.current.None?)
      && (s.current.Some? ==> s.current.value < |runqueue| && runqueue[s.current.value] == current)
    }

    /** `sched_rm_vcpu_attach`. */
    method AttachVcpu(ed: EntryData, ghost s: State)
      requires Represents(s) && ed !in runqueue
      modifies this`runqueue, ed
      ensures Represents(Attach(s, ed.period, ed.budget)) && runqueue == old(runqueue) + [ed]
    {
      ed.periodCntdn := ed.period;
      ed.budgetCntdn := ed.budget;
      runqueue := runqueue + [ed];
    }

    ghost function States(): (r: seq<EntryState>)
      reads this, runqueue
      ensures |r| == |runqueue|
    {
      seq(|runqueue|, k requires 0 <= k < |runqueue| reads this, runqueue => runqueue[k].state)
    }

    /** The entry at that place of the queue, or none. */
    ghost predicate IsAt(e: EntryData?, place: Option<nat>)
      reads this
    {
      if e == null then place == None else place.Some? && place.value < |runqueue| && runqueue[place.value] == e
    }

    method VisitEntry(i: nat, next: EntryData?, minPeriod: nat, ghost s: State)
      returns (next': EntryData?, minPeriod': nat, missed: bool)
      requires Distinct() && Scanned(s, i) && i < |runqueue|
      requires BestSoFar(s, i, next, minPeriod)
      modifies runqueue
      ensures Scanned(s, i + 1) && missed == Missed(s.tasks[i])
      ensures BestSoFar(s, i + 1, next', minPeriod')
      ensures States() == old(States())
    {
      ShortestNext(ReplenishAll(s.tasks), i);
      next', minPeriod', missed := runqueue[i].Visit(next, minPeriod);
    }

    /** The search has looked at the first `n` entries. */
    ghost predicate BestSoFar(s: State, n: nat, next: EntryData?, minPeriod: nat)
      requires n <= |s.tasks|
      reads this
    {
      var rs := ReplenishAll(s.tasks)[..n];
      minPeriod == ShortestPeriod(rs) && IsAt(next, Shortest(rs))
    }

    /** The loop over the run queue: replenishes and counts down every entry, reports missed deadlines, and
        finds the entry of shortest period with budget left. */
    method ScanQueue(ghost s: State) returns (next: EntryData?, missed: seq<bool>)
      requires Represents(s)
      modifies runqueue
      ensures Scanned(s, |runqueue|) && IsAt(next, Shortest(ReplenishAll(s.tasks)))
      ensures MissesReported(s, missed) && States() == old(States())
      ensures Distinct() && IsAt(current, s.current)
    {
      ghost var states := States();
      var minPeriod := UINT32_MAX;
      next, missed := null, [];
      for i := 0 to |runqueue|
        invariant Scanned(s, i)
        invariant BestSoFar(s, i, next, minPeriod)
        invariant States() == states
        invariant |missed| == i && forall k :: 0 <= k < i ==> missed[k] == Missed(s.tasks[k])
      {
        var miss;
        next, minPeriod, miss := VisitEntry(i, next, minPeriod, s);
        missed := missed + [miss];
      }
      assert ReplenishAll(s.tasks)[..|runqueue|] == ReplenishAll(s.tasks);
    }

    /** The first `n` entries of the queue have been visited. */
    ghost predicate Scanned(s: State, n: nat)
      reads this, runqueue
    {
      && |s.tasks| == |runqueue|
      && forall k :: 0 <= k < |runqueue| ==>
           runqueue[k].View() == if k < n then AfterTick(Replenish(s.tasks[k]), false) else s.tasks[k]
    }

    /** Whether the current entry goes on, given the best entry of the queue. */
    method PickNext(best: EntryData?, ghost s: State) returns (chosen: EntryData?)
      requires Distinct() && Scanned(s, |runqueue|) && Invariant(s) && IsAt(current, s.current)
      requires IsAt(best, Shortest(ReplenishAll(s.tasks)))
      modifies runqueue
      ensures Scanned(s, |runqueue|) && IsAt(chosen, Choose(ReplenishAll(s.tasks), s.current))
      ensures States() == WithSpent(s, old(States()))
    {
      ghost var rs := ReplenishAll(s.tasks);
      ShortestIsLeast(rs);
      chosen := best;
      if current != null {
        assert current.View() == AfterTick(rs[s.current.value], false);
        assert best != null ==> best.View() == AfterTick(rs[Shortest(rs).value], false);
        if current.budgetCntdn == 0 {
          current.state := WAITING;
        } else if current.period > best.period {
        } else {
          chosen := current;
        }
      }
    }

    /** Runs the chosen entry for the coming tick. */
    method RunEntry(chosen: EntryData, ghost s: State, ghost c: nat)
      requires Distinct() && Scanned(s, |runqueue|) && c < |runqueue| && runqueue[c] == chosen
      modifies this`current, chosen`state, chosen`budgetCntdn
      ensures Represents(State(TickTasks(s.tasks, c), Some(c)))
      ensures current == chosen && chosen.state == RUNNING && runqueue == old(runqueue)
      ensures States() == old(States())[c := RUNNING]
    {
      chosen.state := RUNNING;
      current := chosen;
      chosen.budgetCntdn := Decrement(chosen.budgetCntdn);
    }

    /** What follows the loop: the chosen entry runs, or the source loops for ever. */
    method Dispatch(best: EntryData?, ghost s: State) returns (next: Option<nat>)
      requires Distinct() && Scanned(s, |runqueue|) && Invariant(s) && IsAt(current, s.current)
      requires IsAt(best, Shortest(ReplenishAll(s.tasks)))
      modifies this`current, runqueue
      ensures match Tick(s)
              case Running(s') => Represents(s') && current.state == RUNNING && next == Some(current.vcpuid)
              case Stuck => next == None
      ensures runqueue == old(runqueue) && States() == StatesAfter(s, old(States()))
    {
      var chosen := PickNext(best, s);
      if chosen == null {
        return None;
      }
      RunEntry(chosen, s, Choose(ReplenishAll(s.tasks), s.current).value);
      next := Some(chosen.vcpuid);
    }

    /** `sched_rm_do_schedule`: the vCPU to run next, or none where the source loops for ever. */
    method DoSchedule(ghost s: State) returns (next: Option<nat>, missed: seq<bool>)
      requires Represents(s) && Invariant(s)
      modifies this`ticks, this`current, runqueue
      ensures MissesReported(s, missed) && ticks == old(ticks) + 1
      ensures FollowsHistory(s, missed)
      ensures match Tick(s)
              case Running(s') => Represents(s') && current.state == RUNNING && next == Some(current.vcpuid)
              case Stuck => next == None
      ensures runqueue == old(runqueue) && States() == StatesAfter(s, old(States()))
    {
      ticks := ticks + 1;
      assert Represents(s) && States() == old(States());
      var best;
      best, missed := ScanQueue(s);
      ReportsFollowHistory(s, missed);
      next := Dispatch(best, s);
    }
  }

  /** A running entry without budget left is waiting. */
  function WithSpent(s: State, before: seq<EntryState>): (r: seq<EntryState>)
    requires |before| == |s.tasks| && (s.current.Some? ==> s.current.value < |s.tasks|)
    ensures |r| == |before|
  {
    if s.current.Some? && ReplenishAll(s.tasks)[s.current.value].budgetLeft == 0
    then before[s.current.value := WAITING] else before
  }

  /** The states after a tick: the chosen entry is running; one that is preempted with budget left is not touched. */
  function StatesAfter(s: State, before: seq<EntryState>): (r: seq<EntryState>)
    requires |before| == |s.tasks| && (s.current.Some? ==> s.current.value < |s.tasks|)
    ensures |r| == |before|
  {
    var spent := WithSpent(s, before);
    match Tick(s)
    case Running(t) => if t.current.value < |spent| then spent[t.current.value := RUNNING] else spent
    case Stuck => spent
  }

  lemma ShortestNext(rs: seq<Task>, i: nat)
    requires i < |rs|
    ensures var found := rs[i].budgetLeft > 0 && rs[i].period < ShortestPeriod(rs[..i]);
            && Shortest(rs[..i + 1]) == (if found then Some(i) else Shortest(rs[..i]))
            && ShortestPeriod(rs[..i + 1]) == (if found then rs[i].period else ShortestPeriod(rs[..i]))
  {
    assert rs[..i + 1][..i] == rs[..i];
  }

  /** For every place in the queue, whether a missed deadline was printed for its vCPU. */
  ghost predicate MissesReported(s: State, missed: seq<bool>) {
    |missed| == |s.tasks| && forall k :: 0 <= k < |missed| ==> missed[k] == Missed(s.tasks[k])
  }

  /** After a run, a miss is reported exactly for those entries whose period has just ended without having given
      them their budget. */
  ghost predicate ReportsShortPeriods(steps: seq<Step>, missed: seq<bool>)
    requires Exec(steps).Running?
  {
    && |missed| == |Exec(steps).s.tasks|
    && forall k :: 0 <= k < |missed| ==> (missed[k] <==> EndsShort(steps, k))
  }

  /** Whatever run led to the state. */
  ghost predicate FollowsHistory(s: State, missed: seq<bool>) {
    forall steps :: Configured(steps) && Exec(steps) == Running(s) ==> ReportsShortPeriods(steps, missed)
  }

  lemma ReportsFollowHistory(s: State, missed: seq<bool>)
    requires MissesReported(s, missed)
    ensures FollowsHistory(s, missed)
  {
    forall steps, k | Configured(steps) && Exec(steps) == Running(s) && 0 <= k < |missed|
      ensures missed[k] <==> EndsShort(steps, k)
    {
      MissedExactlyWhen(steps, k);
    }
  }
}

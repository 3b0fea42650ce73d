/** The round-robin policy (core/sched/rr.c) under the guards of core/sched/scheduler.c, as a function
    of the scheduler's state. */
module RoundRobinModule {
  import opened Common

  /** struct sched_entry; `listed` while it is linked in the standby list. */
  datatype Entry = Entry(vcpuid: nat, state: EntryState, listed: bool)

  /** All entries ever registered, in order; the run queue and the running entry are given by places in that list. */
  datatype State = State(standby: seq<Entry>, runqueue: seq<nat>, current: Option<nat>)

  const INIT := State([], [], None)

  function SetState(es: seq<Entry>, k: nat, st: EntryState): (r: seq<Entry>)
    ensures |r| == |es| && forall i :: 0 <= i < |es| ==> r[i] == if i == k then es[i].(state := st) else es[i]
  {
    if k < |es| then es[k := es[k].(state := st)] else es
  }

  /** `sched_vcpu_register`. */
  function Register(s: State, vcpuid: nat): State {
    s.(standby := s.standby + [Entry(vcpuid, DETACHED, true)])
  }

  predicate IsFor(e: Entry, vcpuid: nat) {
    e.listed && e.vcpuid == vcpuid
  }

  /** `find_entry`: the first standby entry with that id. */
  function FindEntry(es: seq<Entry>, vcpuid: nat): (r: Option<nat>)
    ensures match r
            case Some(k) => k < |es| && IsFor(es[k], vcpuid) && forall i :: 0 <= i < k ==> !IsFor(es[i], vcpuid)
            case None => forall i :: 0 <= i < |es| ==> !IsFor(es[i], vcpuid)
  {
    if es == [] then None
    else
      var r := FindEntry(es[..|es| - 1], vcpuid);
      if r.Some? then r else if IsFor(es[|es| - 1], vcpuid) then Some(|es| - 1) else None
  }

  /** The running entry followed by the queue. */
  function Members(s: State): seq<nat> {
    (if s.current.Some? then [s.current.value] else []) + s.runqueue
  }

  /** `sched_vcpu_unregister`: the entry leaves the standby list. Unregistering an entry that is still queued
      or running, or none, is not a step: the source then frees data in use, or follows a null pointer. */
  function Unregister(s: State, vcpuid: nat): State {
    match FindEntry(s.standby, vcpuid)
    case None => s
    case Some(k) => if k in Members(s) then s else s.(standby := s.standby[k := s.standby[k].(listed := false)])
  }

  datatype AttachResult = Attached | NotStandby | AlreadyInflight

  /** The guards of `sched_vcpu_attach`: codes 255 and 254 are the errors. */
  function AttachCheck(s: State, vcpuid: nat): AttachResult {
    match FindEntry(s.standby, vcpuid)
    case None => NotStandby
    case Some(k) => if s.standby[k].state != DETACHED then AlreadyInflight else Attached
  }

  /** `sched_vcpu_attach` with `sched_rr_vcpu_attach`. */
  function Attach(s: State, vcpuid: nat): State {
    if AttachCheck(s, vcpuid) != Attached then s
    else
      var k := FindEntry(s.standby, vcpuid).value;
      State(SetState(s.standby, k, WAITING), s.runqueue + [k], s.current)
  }

  /** `sched_vcpu_detach` with `sched_rr_vcpu_detach` for the running entry: it is in no queue, so taking it
      out of its list changes nothing, and its state is left as it is. */
  function DetachRunning(s: State): State {
    s.(current := None)
  }

  /** `sched_rr_do_schedule`. */
  function DoSchedule(s: State): State {
    var es := if s.current.Some? then SetState(s.standby, s.current.value, WAITING) else s.standby;
    var queue := if s.current.Some? then s.runqueue + [s.current.value] else s.runqueue;
    if queue == [] then s
    else State(SetState(es, queue[0], RUNNING), queue[1..], Some(queue[0]))
  }

  datatype Action =
    | RegisterAction(vcpuid: nat)
    | UnregisterAction(vcpuid: nat)
    | AttachAction(vcpuid: nat)
    | DetachAction
    | ScheduleAction

  function Do(s: State, a: Action): State {
    match a
    case RegisterAction(v) => Register(s, v)
    case UnregisterAction(v) => Unregister(s, v)
    case AttachAction(v) => Attach(s, v)
    case DetachAction => DetachRunning(s)
    case ScheduleAction => DoSchedule(s)
  }

  function Run(s: State, acts: seq<Action>): State {
    if acts == [] then s else Do(Run(s, acts[..|acts| - 1]), acts[|acts| - 1])
  }

  // ----- nothing is lost or duplicated -----

  /** Every member is a standby entry that was attached, and none occurs twice. */
  predicate Invariant(s: State) {
    AreAttached(Members(s), s.standby) && NoRepeats(Members(s))
  }

  predicate AreAttached(q: seq<nat>, es: seq<Entry>) {
    forall i :: 0 <= i < |q| ==> q[i] < |es| && es[q[i]].state != DETACHED
  }

  predicate NoRepeats(q: seq<nat>) {
    forall i, j :: 0 <= i < j < |q| ==> q[i] != q[j]
  }

  lemma AttachKeepsInvariant(s: State, vcpuid: nat)
    requires Invariant(s)
    ensures Invariant(Attach(s, vcpuid))
  {
    if AttachCheck(s, vcpuid) == Attached {
      var k := FindEntry(s.standby, vcpuid).value;
      assert Members(Attach(s, vcpuid)) == Members(s) + [k];
    }
  }

  lemma ScheduleRotates(s: State)
    ensures Members(DoSchedule(s)) == s.runqueue + if s.current.Some? then [s.current.value] else []
  {
  }

  lemma RotatedIsDistinct(q: seq<nat>, x: nat)
    requires NoRepeats([x] + q)
    ensures NoRepeats(q + [x])
  {
    forall i, j | 0 <= i < j < |q + [x]| ensures (q + [x])[i] != (q + [x])[j] {
      assert (q + [x])[i] == ([x] + q)[i + 1];
      assert (q + [x])[j] == if j < |q| then ([x] + q)[j + 1] else ([x] + q)[0];
    }
  }

  /** What was attached stays attached. */
  predicate StayAttached(es: seq<Entry>, fs: seq<Entry>) {
    |fs| == |es| && forall k :: 0 <= k < |es| && es[k].state != DETACHED ==> fs[k].state != DETACHED
  }

  lemma ScheduleKeepsAttached(s: State)
    ensures StayAttached(s.standby, DoSchedule(s).standby)
  {
  }

  lemma RotatedIsAttached(q: seq<nat>, x: seq<nat>, es: seq<Entry>, fs: seq<Entry>)
    requires AreAttached(x + q, es) && StayAttached(es, fs)
    ensures AreAttached(q + x, fs)
  {
    forall i | 0 <= i < |q + x| ensures (q + x)[i] < |fs| && fs[(q + x)[i]].state != DETACHED {
      assert (q + x)[i] == (x + q)[if i < |q| then i + |x| else i - |q|];
    }
  }

  lemma ScheduleKeepsInvariant(s: State)
    requires Invariant(s)
    ensures Invariant(DoSchedule(s))
  {
    var c := if s.current.Some? then [s.current.value] else [];
    ScheduleRotates(s);
    ScheduleKeepsAttached(s);
    RotatedIsAttached(s.runqueue, c, s.standby, DoSchedule(s).standby);
    if s.current.Some? {
      RotatedIsDistinct(s.runqueue, s.current.value);
    } else {
      assert s.runqueue + c == c + s.runqueue;
    }
  }

  lemma DetachKeepsInvariant(s: State)
    requires Invariant(s)
    ensures Invariant(DetachRunning(s))
  {
    var m, m' := Members(s), Members(DetachRunning(s));
    var shift := |m| - |m'|;
    assert forall i :: 0 <= i < |m'| ==> m'[i] == m[i + shift];
  }

  lemma DoKeepsInvariant(s: State, a: Action)
    requires Invariant(s)
    ensures Invariant(Do(s, a))
  {
    match a
    case RegisterAction(v) => assert Members(Register(s, v)) == Members(s);
    case UnregisterAction(v) => assert Members(Unregister(s, v)) == Members(s);
    case AttachAction(v) => AttachKeepsInvariant(s, v);
    case DetachAction => DetachKeepsInvariant(s);
    case ScheduleAction => ScheduleKeepsInvariant(s);
  }

  /** After any run from the initial state, no entry is queued twice or both queued and running. */
  lemma {:induction false} RunsKeepInvariant(s: State, acts: seq<Action>)
    requires Invariant(s)
    ensures Invariant(Run(s, acts))
  {
    if acts != [] {
      RunsKeepInvariant(s, acts[..|acts| - 1]);
      DoKeepsInvariant(Run(s, acts[..|acts| - 1]), acts[|acts| - 1]);
    }
  }

  // ----- what the states say -----

  /** An entry is waiting exactly while it is queued, and the running one is running. */
  predicate StatesFit(s: State) {
    && (forall k :: 0 <= k < |s.standby| ==> (s.standby[k].state == WAITING <==> k in s.runqueue))
    && (s.current.Some? ==> s.current.value < |s.standby| && s.standby[s.current.value].state == RUNNING)
  }

  lemma AttachKeepsStates(s: State, vcpuid: nat)
    requires Invariant(s) && StatesFit(s)
    ensures StatesFit(Attach(s, vcpuid))
  {
    if AttachCheck(s, vcpuid) == Attached {
      var t, k := Attach(s, vcpuid), FindEntry(s.standby, vcpuid).value;
      forall i | 0 <= i < |t.standby| ensures t.standby[i].state == WAITING <==> i in t.runqueue {
        assert i in t.runqueue <==> i in s.runqueue || i == k;
      }
    }
  }

  lemma RegisterKeepsStates(s: State, vcpuid: nat)
    requires Invariant(s) && StatesFit(s)
    ensures StatesFit(Register(s, vcpuid))
  {
    QueuedAreRegistered(s);
  }

  lemma QueuedAreRegistered(s: State)
    requires Invariant(s)
    ensures forall k :: k in s.runqueue ==> k < |s.standby|
  {
    forall i | 0 <= i < |s.runqueue| ensures s.runqueue[i] < |s.standby| {
      assert Members(s)[if s.current.Some? then i + 1 else i] == s.runqueue[i];
    }
  }

  /** The entry that runs leaves the queue, the one that ran joins it. */
  lemma ScheduleKeepsStates(s: State)
    requires Invariant(s) && StatesFit(s)
    ensures StatesFit(DoSchedule(s))
  {
    var t := DoSchedule(s);
    var queue := s.runqueue + if s.current.Some? then [s.current.value] else [];
    ScheduleKeepsInvariant(s);
    if queue != [] {
      ScheduleRotates(s);
      assert Members(t) == queue && queue == [queue[0]] + t.runqueue;
      HeadIsNotInTail(queue);
      var c := queue[0];
      forall i | 0 <= i < |t.standby| ensures t.standby[i].state == WAITING <==> i in t.runqueue {
        assert i in queue <==> i == c || i in t.runqueue;
        assert i in queue <==> i in s.runqueue || s.current == Some(i);
      }
    }
  }

  lemma HeadIsNotInTail(q: seq<nat>)
    requires NoRepeats(q) && q != []
    ensures q[0] !in q[1..]
  {
    assert forall i :: 0 <= i < |q[1..]| ==> q[1..][i] == q[i + 1];
  }

  lemma DoKeepsStates(s: State, a: Action)
    requires Invariant(s) && StatesFit(s)
    ensures StatesFit(Do(s, a))
  {
    match a
    case RegisterAction(v) => RegisterKeepsStates(s, v);
    case AttachAction(v) => AttachKeepsStates(s, v);
    case ScheduleAction => ScheduleKeepsStates(s);
    case _ =>
  }

  /** Every member is on the standby list. */
  predicate AreListed(q: seq<nat>, es: seq<Entry>) {
    forall i :: 0 <= i < |q| ==> q[i] < |es| && es[q[i]].listed
  }

  lemma AttachKeepsListed(s: State, vcpuid: nat)
    requires AreListed(Members(s), s.standby)
    ensures AreListed(Members(Attach(s, vcpuid)), Attach(s, vcpuid).standby)
  {
    if AttachCheck(s, vcpuid) == Attached {
      AttachedIsLast(s, vcpuid, FindEntry(s.standby, vcpuid).value);
    }
  }

  lemma UnregisterKeepsListed(s: State, vcpuid: nat)
    requires AreListed(Members(s), s.standby)
    ensures AreListed(Members(Unregister(s, vcpuid)), Unregister(s, vcpuid).standby)
  {
    StandbyOnly(s, UnregisterAction(vcpuid));
  }

  lemma ScheduleKeepsListed(s: State)
    requires AreListed(Members(s), s.standby)
    ensures AreListed(Members(DoSchedule(s)), DoSchedule(s).standby)
  {
    var c := if s.current.Some? then [s.current.value] else [];
    ScheduleRotates(s);
    ScheduleKeepsLists(s);
    var t := DoSchedule(s);
    forall i | 0 <= i < |Members(t)| ensures Members(t)[i] < |t.standby| && t.standby[Members(t)[i]].listed {
      assert Members(s) == c + s.runqueue && Members(t) == s.runqueue + c;
      assert Members(t)[i] == Members(s)[if i < |s.runqueue| then i + |c| else i - |s.runqueue|];
    }
  }

  lemma ScheduleKeepsLists(s: State)
    ensures var t := DoSchedule(s);
            && |t.standby| == |s.standby|
            && forall k :: 0 <= k < |s.standby| ==> t.standby[k].listed == s.standby[k].listed
  {
  }

  lemma DetachKeepsListed(s: State)
    requires AreListed(Members(s), s.standby)
    ensures AreListed(Members(DetachRunning(s)), DetachRunning(s).standby)
  {
    var m, n := Members(s), Members(DetachRunning(s));
    assert forall i :: 0 <= i < |n| ==> n[i] == m[i + |m| - |n|];
  }

  lemma DoKeepsListed(s: State, a: Action)
    requires AreListed(Members(s), s.standby)
    ensures AreListed(Members(Do(s, a)), Do(s, a).standby)
  {
    match a
    case RegisterAction(v) => StandbyOnly(s, a);
    case UnregisterAction(v) => UnregisterKeepsListed(s, v);
    case AttachAction(v) => AttachKeepsListed(s, v);
    case DetachAction => DetachKeepsListed(s);
    case ScheduleAction => ScheduleKeepsListed(s);
  }

  /** No entry that is queued or running is ever off the standby list. */
  lemma {:induction false} RunsKeepListed(acts: seq<Action>)
    ensures AreListed(Members(Run(INIT, acts)), Run(INIT, acts).standby)
  {
    if acts != [] {
      RunsKeepListed(acts[..|acts| - 1]);
      DoKeepsListed(Run(INIT, acts[..|acts| - 1]), acts[|acts| - 1]);
    }
  }

  /** Over any run from the initial state an entry is waiting exactly while it is queued, and the current one is
      running. */
  lemma {:induction false} RunsKeepStates(acts: seq<Action>)
    ensures StatesFit(Run(INIT, acts)) && Invariant(Run(INIT, acts))
  {
    if acts != [] {
      RunsKeepStates(acts[..|acts| - 1]);
      DoKeepsStates(Run(INIT, acts[..|acts| - 1]), acts[|acts| - 1]);
      DoKeepsInvariant(Run(INIT, acts[..|acts| - 1]), acts[|acts| - 1]);
    }
  }

  lemma AttachedIsLast(s: State, v: nat, k: nat)
    requires AttachCheck(s, v) == Attached && FindEntry(s.standby, v) == Some(k)
    ensures Members(Attach(s, v)) == Members(s) + [k]
  {
    assert Attach(s, v).runqueue == s.runqueue + [k];
  }

  lemma AttachAddsMember(s: State, v: nat)
    ensures multiset(Members(Attach(s, v))) == multiset(Members(s)) + Joined(s, AttachAction(v))
  {
    if AttachCheck(s, v) == Attached {
      var k := FindEntry(s.standby, v).value;
      AttachedIsLast(s, v, k);
      MultisetWithLast(Members(s), k);
    }
  }

  lemma DetachTakesMember(s: State)
    ensures multiset(Members(DetachRunning(s))) + Detached(s, DetachAction) == multiset(Members(s))
  {
    if s.current.Some? {
      assert Members(s) == [s.current.value] + Members(DetachRunning(s));
      MultisetOfBoth([s.current.value], Members(DetachRunning(s)));
    }
  }

  lemma ScheduleConserves(s: State)
    ensures multiset(Members(DoSchedule(s))) == multiset(Members(s))
  {
    ScheduleRotates(s);
    var c := if s.current.Some? then [s.current.value] else [];
    assert Members(s) == c + s.runqueue && Members(DoSchedule(s)) == s.runqueue + c;
    MultisetOfBoth(c, s.runqueue);
    MultisetOfBoth(s.runqueue, c);
  }

  /** The members change only by the entry attached or the running entry detached. */
  lemma MembersAreConserved(s: State, a: Action)
    ensures multiset(Members(Do(s, a))) + Detached(s, a) == multiset(Members(s)) + Joined(s, a)
  {
    match a
    case AttachAction(v) => AttachAddsMember(s, v);
    case DetachAction => DetachTakesMember(s);
    case ScheduleAction => ScheduleConserves(s);
    case _ => StandbyOnly(s, a);
  }

  lemma StandbyOnly(s: State, a: Action)
    requires a.RegisterAction? || a.UnregisterAction?
    ensures Members(Do(s, a)) == Members(s)
  {
  }

  lemma MultisetOfBoth(a: seq<nat>, b: seq<nat>)
    ensures multiset(a + b) == multiset(a) + multiset(b)
  {
  }

  lemma MultisetWithLast(a: seq<nat>, x: nat)
    ensures multiset(a + [x]) == multiset(a) + multiset{x}
  {
  }

  /** The entry that a step attaches, and the one that it detaches. */
  function Joined(s: State, a: Action): multiset<nat> {
    if a.AttachAction? && AttachCheck(s, a.vcpuid) == Attached then multiset{FindEntry(s.standby, a.vcpuid).value}
    else multiset{}
  }

  function Detached(s: State, a: Action): multiset<nat> {
    if a.DetachAction? && s.current.Some? then multiset{s.current.value} else multiset{}
  }

  // ----- bounded waiting -----

  function Decisions(acts: seq<Action>): nat {
    if acts == [] then 0
    else Decisions(acts[..|acts| - 1]) + if acts[|acts| - 1].ScheduleAction? then 1 else 0
  }

  /** An entry moves one place forward with each decision, whatever else happens in between. */
  lemma {:induction false} MovesForward(s: State, acts: seq<Action>, k: nat)
    requires k < |s.runqueue| && Decisions(acts) <= k
    ensures var q := Run(s, acts).runqueue;
            k - Decisions(acts) < |q| && q[k - Decisions(acts)] == s.runqueue[k]
  {
    if acts != [] {
      var before := acts[..|acts| - 1];
      MovesForward(s, before, k);
      StepMovesForward(Run(s, before), acts[|acts| - 1], k - Decisions(before));
    }
  }

  lemma StepMovesForward(s: State, a: Action, i: nat)
    requires i < |s.runqueue| && (a.ScheduleAction? ==> i > 0)
    ensures var j := if a.ScheduleAction? then i - 1 else i;
            j < |Do(s, a).runqueue| && Do(s, a).runqueue[j] == s.runqueue[i]
  {
  }

  lemma QueuedIsNotRunning(s: State, i: nat)
    requires Invariant(s) && i < |s.runqueue|
    ensures s.current != Some(s.runqueue[i])
  {
    if s.current.Some? {
      var m := Members(s);
      assert m[0] == s.current.value && m[1 + i] == s.runqueue[i];
    }
  }

  lemma WaitsUntil(s: State, acts: seq<Action>, k: nat)
    requires Invariant(s) && k < |s.runqueue| && Decisions(acts) <= k
    ensures Run(s, acts).current != Some(s.runqueue[k])
  {
    RunsKeepInvariant(s, acts);
    MovesForward(s, acts, k);
    QueuedIsNotRunning(Run(s, acts), k - Decisions(acts));
  }

  /** The entry at place `k` runs after exactly the `k+1`-st decision: not before, and then for sure. */
  lemma BoundedWait(s: State, acts: seq<Action>, k: nat)
    requires Invariant(s) && k < |s.runqueue|
    ensures Decisions(acts) <= k ==> Run(s, acts).current != Some(s.runqueue[k])
    ensures acts != [] && acts[|acts| - 1].ScheduleAction? && Decisions(acts) == k + 1
            ==> Run(s, acts).current == Some(s.runqueue[k])
  {
    if Decisions(acts) <= k {
      WaitsUntil(s, acts, k);
    } else if acts != [] && acts[|acts| - 1].ScheduleAction? && Decisions(acts) == k + 1 {
      MovesForward(s, acts[..|acts| - 1], k);
      DecisionTakesFirst(Run(s, acts[..|acts| - 1]));
    }
  }

  lemma DecisionTakesFirst(s: State)
    requires s.runqueue != []
    ensures DoSchedule(s).current == Some(s.runqueue[0])
  {
  }

  /** `n` decisions in a row. */
  function Schedules(n: nat): seq<Action> {
    seq(n, i => ScheduleAction)
  }

  lemma {:induction false} SchedulesDecide(n: nat)
    ensures Decisions(Schedules(n)) == n
  {
    if n > 0 {
      assert Schedules(n)[..n - 1] == Schedules(n - 1);
      SchedulesDecide(n - 1);
    }
  }

  /** Undisturbed, the members run in turn: with `n` members, decision `k+1` runs the one that was at
      place `k` (counting the running entry last), so `n` decisions run each member exactly once. */
  lemma EachRunsOnce(s: State, k: nat)
    requires Invariant(s) && k < |Members(DoSchedule(s))|
    ensures Run(s, Schedules(k + 1)).current == Some(Members(DoSchedule(s))[k])
  {
    ScheduleRotates(s);
    var acts := Schedules(k + 1);
    SchedulesDecide(k + 1);
    SchedulesDecide(k);
    assert acts[..k] == Schedules(k);
    if k < |s.runqueue| {
      BoundedWait(s, acts, k);
    } else {
      OwnTurn(s, k);
    }
  }

  /** The running entry has its next turn after everyone in the queue. */
  lemma {:induction false} OwnTurn(s: State, k: nat)
    requires Invariant(s) && s.current.Some? && k == |s.runqueue|
    ensures Run(s, Schedules(k + 1)).current == s.current
  {
    var t := DoSchedule(s);
    ScheduleKeepsInvariant(s);
    RunFromNext(s, k);
    if k > 0 {
      assert t.runqueue[k - 1] == s.current.value;
      SchedulesDecide(k);
      BoundedWait(t, Schedules(k), k - 1);
    }
  }

  lemma {:induction false} RunFromNext(s: State, n: nat)
    ensures Run(s, Schedules(n + 1)) == Run(DoSchedule(s), Schedules(n))
  {
    LastDecision(s, n);
    if n > 0 {
      RunFromNext(s, n - 1);
      LastDecision(DoSchedule(s), n - 1);
    }
  }

  lemma LastDecision(s: State, n: nat)
    ensures Run(s, Schedules(n + 1)) == DoSchedule(Run(s, Schedules(n)))
    ensures n == 0 ==> Run(s, Schedules(n)) == s
  {
    var acts := Schedules(n + 1);
    assert acts[..n] == Schedules(n) && acts[n] == ScheduleAction;
    assert Run(s, acts) == Do(Run(s, acts[..n]), acts[n]);
  }

  // ----- a detached vCPU is not attached again -----

  lemma StepKeepsEntry(s: State, a: Action, v: nat, i: nat)
    requires i < |s.standby| && a != UnregisterAction(v)
    ensures i < |Do(s, a).standby| && (IsFor(Do(s, a).standby[i], v) <==> IsFor(s.standby[i], v))
    ensures s.standby[i].state != DETACHED ==> Do(s, a).standby[i].state != DETACHED
  {
  }

  lemma FoundAgain(es: seq<Entry>, fs: seq<Entry>, v: nat, k: nat)
    requires FindEntry(es, v) == Some(k) && k < |fs|
    requires forall i :: 0 <= i <= k ==> (IsFor(fs[i], v) <==> IsFor(es[i], v))
    ensures FindEntry(fs, v) == Some(k)
  {
  }

  lemma DoKeepsAttachedState(s: State, a: Action, v: nat, k: nat)
    requires FindEntry(s.standby, v) == Some(k) && s.standby[k].state != DETACHED && a != UnregisterAction(v)
    ensures FindEntry(Do(s, a).standby, v) == Some(k) && Do(s, a).standby[k].state != DETACHED
  {
    StepKeepsEntry(s, a, v, k);
    forall i | 0 <= i <= k ensures IsFor(Do(s, a).standby[i], v) <==> IsFor(s.standby[i], v) {
      StepKeepsEntry(s, a, v, i);
    }
    FoundAgain(s.standby, Do(s, a).standby, v, k);
  }

  /** Detaching does not put an entry back to DETACHED, so once it has been attached every later attempt to
      attach that vCPU is refused as already in flight, also after it was detached, until it is unregistered. */
  lemma {:induction false} AttachOnlyOnce(s: State, acts: seq<Action>, vcpuid: nat)
    requires AttachCheck(s, vcpuid) == AlreadyInflight && UnregisterAction(vcpuid) !in acts
    ensures FindEntry(Run(s, acts).standby, vcpuid) == FindEntry(s.standby, vcpuid)
    ensures AttachCheck(Run(s, acts), vcpuid) == AlreadyInflight
  {
    if acts != [] {
      AttachOnlyOnce(s, acts[..|acts| - 1], vcpuid);
      DoKeepsAttachedState(Run(s, acts[..|acts| - 1]), acts[|acts| - 1], vcpuid, FindEntry(s.standby, vcpuid).value);
    }
  }

  /** Unregistering it and registering it anew is the way out, if it was registered just once. */
  lemma ReregisteredIsAttached(s: State, vcpuid: nat, k: nat)
    requires FindEntry(s.standby, vcpuid) == Some(k) && k !in Members(s)
    requires forall i :: 0 <= i < |s.standby| && i != k ==> !IsFor(s.standby[i], vcpuid)
    ensures AttachCheck(Unregister(s, vcpuid), vcpuid) == NotStandby
    ensures AttachCheck(Register(Unregister(s, vcpuid), vcpuid), vcpuid) == Attached
  {
    var t := Unregister(s, vcpuid);
    assert FindEntry(t.standby, vcpuid) == None;
    var u := Register(t, vcpuid);
    assert IsFor(u.standby[|t.standby|], vcpuid);
  }
}

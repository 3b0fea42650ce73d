/** The round-robin policy (core/sched/rr.c) and the functions of core/sched/scheduler.c that call it,
    on the scheduler's own records. */
module RoundRobinSchedulerModule {
  import opened Common
  import opened RoundRobinModule

  /** struct sched_entry with its policy data; entries are not unregistered here. */
  class SchedEntry {
    const vcpuid: nat
    var state: EntryState

    constructor (vcpuid: nat)
      ensures this.vcpuid == vcpuid && state == DETACHED
    {
      this.vcpuid := vcpuid;
      state := DETACHED;
    }

    ghost function View(): Entry
      reads this
    {
      Entry(vcpuid, state, true)
    }
  }

  class Scheduler {
    var standby: seq<SchedEntry>
    var runqueue: seq<SchedEntry>
    var current: SchedEntry?

    constructor ()
      ensures Represents(INIT)
    {
      standby, runqueue, current := [], [], null;
    }

    /** The records stand for the state `s`. */
    ghost predicate Represents(s: State)
      reads this, standby
    {
      && (forall i, j :: 0 <= i < j < |standby| ==> standby[i] != standby[j])
      && |s.standby| == |standby|
      && (forall k :: 0 <= k < |standby| ==> standby[k].View() == s.standby[k])
      && QueueStandsFor(s)
    }

    ghost predicate QueueStandsFor(s: State)
      reads this
    {
      && |s.runqueue| == |runqueue|
      && (forall k :: 0 <= k < |runqueue| ==> IsAt(runqueue[k], s.runqueue[k]))
      && (if current == null then s.current == None else s.current.Some? && IsAt(current, s.current.value))
    }

    ghost predicate IsAt(e: SchedEntry, k: nat)
      reads this
    {
      k < |standby| && standby[k] == e
    }

    /** `sched_vcpu_register` with `sched_rr_vcpu_register`. */
    method RegisterVcpu(vcpuid: nat, ghost s: State)
      requires Represents(s)
      modifies this`standby
      ensures Represents(Register(s, vcpuid))
    {
      var e := new SchedEntry(vcpuid);
      standby := standby + [e];
    }

    /** `find_entry`. */
    method Find(vcpuid: nat, ghost s: State) returns (entry: SchedEntry?)
      requires Represents(s)
      ensures match FindEntry(s.standby, vcpuid)
              case Some(k) => entry != null && IsAt(entry, k)
              case None => entry == null
    {
      for i := 0 to |standby|
        invariant forall k :: 0 <= k < i ==> !IsFor(s.standby[k], vcpuid)
      {
        if standby[i].vcpuid == vcpuid {
          assert IsFor(s.standby[i], vcpuid);
          return standby[i];
        }
      }
      return null;
    }

    /** `sched_vcpu_attach` with `sched_rr_vcpu_attach`: 255, 254, or the number of the physical CPU. */
    method AttachVcpu(vcpuid: nat, pcpu: nat, ghost s: State) returns (code: nat)
      requires Represents(s)
      modifies this`runqueue, standby
      ensures Represents(Attach(s, vcpuid))
      ensures code == match AttachCheck(s, vcpuid)
                      case NotStandby => 255
                      case AlreadyInflight => 254
                      case Attached => pcpu
    {
      var target := Find(vcpuid, s);
      if target == null {
        return 255;
      }
      ghost var k := FindEntry(s.standby, vcpuid).value;
      assert target.View() == s.standby[k];
      if target.state != DETACHED {
        return 254;
      }
      target.state := WAITING;
      runqueue := runqueue + [target];
      return pcpu;
    }

    /** `sched_rr_vcpu_detach` for the running entry. */
    method DetachCurrent(ghost s: State)
      requires Represents(s)
      modifies this`current
      ensures Represents(DetachRunning(s))
    {
      current := null;
    }

    /** The running entry goes to the end of the queue. */
    method PutBack(ghost s: State)
      requires Represents(s) && current != null
      modifies this`current, this`runqueue, standby
      ensures Represents(State(SetState(s.standby, s.current.value, WAITING), s.runqueue + [s.current.value], None))
    {
      runqueue := runqueue + [current];
      current.state := WAITING;
      current := null;
    }

    /** The first entry of the queue becomes the running one. */
    method TakeFirst(ghost s: State)
      requires Represents(s) && current == null && runqueue != []
      modifies this`current, this`runqueue, standby
      ensures Represents(State(SetState(s.standby, s.runqueue[0], RUNNING), s.runqueue[1..], Some(s.runqueue[0])))
    {
      current := runqueue[0];
      runqueue := runqueue[1..];
      current.state := RUNNING;
    }

    /** `sched_rr_do_schedule`: the vCPU to run next, or none (VCPUID_INVALID). */
    method Schedule(ghost s: State) returns (next: Option<nat>)
      requires Represents(s)
      modifies this`current, this`runqueue, standby
      ensures Represents(DoSchedule(s))
      ensures next == if current == null then None else Some(current.vcpuid)
    {
      ghost var t := s;
      if current != null {
        PutBack(s);
        t := State(SetState(s.standby, s.current.value, WAITING), s.runqueue + [s.current.value], None);
      }
      if runqueue != [] {
        TakeFirst(t);
      }
      next := if current == null then None else Some(current.vcpuid);
    }
  }
}

/** The same delivery as the code performs it: list registers and queues are arrays that loops change in
    place (drivers/gic-v2.c, core/vm/vcpu.c, core/vm/context_switch.c). Every method computes the function
    of VirqDelivery.dfy that it is named after. */
module PhysicalCpuModule {
  import opened Common
  import opened VirqDeliveryModule

  const VGIC_NUM_MAX_SLOTS: nat := 64

  /** struct vcpu: `lr` has room for the largest register file; `pending_irqs` is the overflow queue. */
  class VcpuData {
    const lr: array<bv32>
    const pending: array<bv32>

    constructor (lr: array<bv32>, pending: array<bv32>)
      ensures this.lr == lr && this.pending == pending
    {
      this.lr := lr;
      this.pending := pending;
    }
  }

  /** `gic_find_free_slot`. */
  method ReadFreeSlot(live: array<bv32>) returns (slot: Option<nat>)
    requires live.Length <= VGIC_NUM_MAX_SLOTS
    ensures slot == FindFreeSlot(live[..])
    ensures IsLowestUsable(live[..], slot)
  {
    FindFreeSlotIsLowest(live[..]);
    var word, shift := ElsrWord(live[..], 0), 0;
    if word == 0 && live.Length > WORD_BITS {
      word, shift := ElsrWord(live[..], WORD_BITS), WORD_BITS;
    }
    if word != 0 {
      slot := Some(SlotInWord(word) + shift);
    } else {
      slot := None;
    }
  }

  method MoveEntry(live: array<bv32>, q: array<bv32>, k: nat, i: nat)
    requires live != q && k < live.Length && i < q.Length
    modifies live, q
    ensures live[..] == old(live[..])[k := old(q[i])]
    ensures q[..] == old(q[..])[i := NO_ENTRY]
  {
    live[k] := q[i];
    q[i] := NO_ENTRY;
  }

  /** The loop of `gic_inject_pending_irqs`. */
  method FlushQueue(live: array<bv32>, q: array<bv32>)
    requires live != q && live.Length <= VGIC_NUM_MAX_SLOTS
    modifies live, q
    ensures Flushed(live[..], q[..]) == Flush(old(live[..]), old(q[..]), 0)
  {
    ghost var f := Flush(live[..], q[..], 0);
    var i := 0;
    while i < q.Length
      invariant 0 <= i <= q.Length
      invariant Flush(live[..], q[..], i) == f
    {
      ghost var l, p := live[..], q[..];
      FlushStep(l, p, i);
      if q[i] != NO_ENTRY {
        var slot := ReadFreeSlot(live);
        if slot == None {
          break;
        }
        MoveEntry(live, q, slot.value, i);
        assert live[..] == l[slot.value := p[i]] && q[..] == p[i := NO_ENTRY];
      }
      i := i + 1;
    }
  }

  /** The loop of `virq_inject` that looks for an empty place. */
  method StoreInQueue(q: array<bv32>, e: bv32) returns (ok: bool)
    modifies q
    ensures (q[..], ok) == Enqueue(old(q[..]), e)
  {
    var i := 0;
    while i < q.Length
      invariant 0 <= i <= q.Length && q[..] == old(q[..])
      invariant FirstEmpty(q[..], i) == FirstEmpty(q[..], 0)
    {
      if q[i] == NO_ENTRY {
        q[i] := e;
        return true;
      }
      i := i + 1;
    }
    return false;
  }

  /** The loops of `vcpu_save` and `vcpu_restore`: the first `n` registers, one by one. */
  method CopyRegisters(from: array<bv32>, to: array<bv32>, n: nat)
    requires from != to && n <= from.Length && n <= to.Length
    modifies to
    ensures to[..n] == from[..n]
    ensures to[n..] == old(to[n..])
  {
    var i := 0;
    while i < n
      invariant 0 <= i <= n
      invariant to[..i] == from[..i]
      invariant to[n..] == old(to[n..])
    {
      to[i] := from[i];
      i := i + 1;
    }
  }

  class PhysicalCpu {
    const pcpuid: bv32
    const live: array<bv32>
    const vcpus: seq<VcpuData>
    var current: Option<nat>

    /** The state as a value. */
    ghost var state: State

    constructor (pcpuid: bv32, live: array<bv32>, vcpus: seq<VcpuData>)
      requires live.Length <= VGIC_NUM_MAX_SLOTS
      requires AreSeparate(live, vcpus)
      requires forall v :: 0 <= v < |vcpus| ==> IsQueue(vcpus[v].pending[..])
      ensures Valid() && state.live == live[..] && state.current == None
      ensures this.live == live && this.vcpus == vcpus
    {
      this.pcpuid := pcpuid;
      this.live := live;
      this.vcpus := vcpus;
      current := None;
      state := State(live[..], seq(|vcpus|, v requires 0 <= v < |vcpus| && vcpus[v].lr.Length >= live.Length
                                              reads if 0 <= v < |vcpus| then {vcpus[v].lr, vcpus[v].pending} else {}
                                              => Vcpu(vcpus[v].lr[..live.Length], vcpus[v].pending[..])), None);
    }

    ghost predicate Valid()
      reads this, live, Arrays(vcpus)
    {
      && live.Length <= VGIC_NUM_MAX_SLOTS && AreSeparate(live, vcpus)
      && IsState(state) && state.current == current
      && state.live == live[..] && |state.vcpus| == |vcpus|
      && forall v :: 0 <= v < |vcpus| ==> Shows(vcpus[v], state.vcpus[v], live.Length)
    }

    /** `virq_inject`; EntryFor gives software interrupts their physical id. */
    method VirqInject(v: nat, virq: bv32, pirq: bv32, hw: bool) returns (ok: bool)
      requires Valid() && v < |vcpus|
      modifies this`state, live, vcpus[v].pending
      ensures Valid() && (state, ok) == Inject(old(state), v, EntryFor(pcpuid, virq, pirq, hw))
      ensures Arrives(old(state), state, v, pcpuid, virq, pirq, hw, ok)
    {
      var e := EntryFor(pcpuid, virq, pirq, hw);
      InjectionArrives(state, v, pcpuid, virq, pirq, hw);
      if current == Some(v) {
        var slot := ReadFreeSlot(live);
        if slot == None {
          ok := QueueFor(v, e);
        } else {
          WriteRegister(slot.value, e);
          ok := true;
        }
      } else {
        ok := QueueFor(v, e);
      }
    }

    /** `gic_inject_virq`. */
    method WriteRegister(slot: nat, e: bv32)
      requires Valid() && slot < live.Length
      modifies this`state, live
      ensures Valid() && state == WithLive(old(state), old(state).live[slot := e])
    {
      live[slot] := e;
      state := WithLive(state, state.live[slot := e]);
    }

    method QueueFor(v: nat, e: bv32) returns (ok: bool)
      requires Valid() && v < |vcpus| && Holds(e)
      modifies this`state, vcpus[v].pending
      ensures Valid()
      ensures state == WithPending(old(state), v, Enqueue(old(state).vcpus[v].pending, e).0)
      ensures ok == Enqueue(old(state).vcpus[v].pending, e).1
    {
      EnqueueKeepsState(state, v, e);
      assert Shows(vcpus[v], state.vcpus[v], live.Length);
      ok := StoreInQueue(vcpus[v].pending, e);
      state := WithPending(state, v, Enqueue(state.vcpus[v].pending, e).0);
    }

    /** `vcpu_save(v)`, whether or not `v` is running. */
    method VcpuSave(v: nat)
      requires Valid() && v < |vcpus|
      modifies this`state, vcpus[v].lr
      ensures Valid() && state == Save(old(state), v)
    {
      CopyRegisters(live, vcpus[v].lr, live.Length);
      assert live[..live.Length] == live[..];
      state := Save(state, v);
    }

    /** `vcpu_suspend(v)`. */
    method VcpuSuspend(v: nat)
      requires Valid() && v < |vcpus|
      modifies this`state, this`current, vcpus[v].lr
      ensures Valid() && state == Suspend(old(state), v)
    {
      VcpuSave(v);
      if current == Some(v) {
        current := None;
      }
      state := state.(current := current);
    }

    /** `vcpu_restore`, which ends by flushing the queue. */
    method VcpuRestore(next: nat)
      requires Valid() && next < |vcpus|
      modifies this`state, this`current, live, vcpus[next].pending
      ensures Valid() && state == Restore(old(state), next)
    {
      var n := vcpus[next];
      RestoreDrains(state, next);
      CopyRegisters(n.lr, live, live.Length);
      assert live[..live.Length] == live[..];
      FlushQueue(live, n.pending);
      current := Some(next);
      state := Restore(state, next);
    }

    /** `do_context_switch`: nothing is saved when no vCPU was running. */
    method DoContextSwitch(next: nat)
      requires Valid() && next < |vcpus|
      modifies this`state, this`current, live, Arrays(vcpus)
      ensures Valid() && state == Switch(old(state), next)
    {
      if current.Some? {
        VcpuSave(current.value);
      }
      VcpuRestore(next);
    }
  }

  /** All register copies and queues. */
  ghost function Arrays(vcpus: seq<VcpuData>): set<object> {
    (set v | 0 <= v < |vcpus| :: vcpus[v].lr) + (set v | 0 <= v < |vcpus| :: vcpus[v].pending)
  }

  /** No array is used twice, and the arrays have the sizes of the struct fields. */
  ghost predicate AreSeparate(live: array<bv32>, vcpus: seq<VcpuData>) {
    && (forall v :: 0 <= v < |vcpus| ==> HasRoom(vcpus[v]) && vcpus[v].lr != live && vcpus[v].pending != live)
    && (forall v, w :: 0 <= v < |vcpus| && 0 <= w < |vcpus| ==> vcpus[v].lr != vcpus[w].pending)
    && forall v, w :: 0 <= v < w < |vcpus| ==> vcpus[v].lr != vcpus[w].lr && vcpus[v].pending != vcpus[w].pending
  }

  ghost predicate HasRoom(v: VcpuData) {
    v.lr.Length == VGIC_NUM_MAX_SLOTS && v.pending.Length == QUEUE_LENGTH
  }

  ghost predicate Shows(v: VcpuData, s: Vcpu, n: nat)
    requires n <= v.lr.Length
    reads v.lr, v.pending
  {
    s.lr == v.lr[..n] && s.pending == v.pending[..]
  }
}

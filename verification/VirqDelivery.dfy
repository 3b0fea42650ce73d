/** Delivery of virtual interrupts: the list registers of the GIC, the overflow queue of each vCPU, and
    their save and restore on a switch (drivers/gic-v2.c, core/vm/vcpu.c, core/vm/context_switch.c), as a
    function of the state of one physical CPU. */
module VirqDeliveryModule {
  import opened Common
  import opened BitsModule

  const NO_ENTRY: bv32 := 0
  const QUEUE_LENGTH: nat := 64
  const WORD_BITS: nat := 32

  /** The two state bits: the entry is pending or active. */
  predicate Holds(lr: bv32) {
    lr & 0x3000_0000 != 0
  }

  /** Whether GICH_ELSR shows the register as usable (section 5.3 of the GICv2 specification): no valid
      interrupt, and no end-of-interrupt maintenance interrupt outstanding for a software interrupt. */
  predicate Usable(lr: bv32) {
    !Holds(lr) && (lr & 0x8000_0000 != 0 || lr & 0x0008_0000 == 0)
  }

  /** `set_lr_entry`, with the physical id virq_inject uses for software interrupts: the CPU and the
      request for an end-of-interrupt maintenance interrupt. */
  function EntryFor(pcpuid: bv32, virq: bv32, pirq: bv32, hw: bool): (e: bv32)
    ensures Holds(e) && e != NO_ENTRY && !Usable(e)
  {
    var id := if hw then pirq else pcpuid | 0x200;
    var flag: bv32 := if hw then 0x8000_0000 else 0;
    var e := 0x1000_0000 | flag | (id << 10) | virq;
    assert e & 0x1000_0000 != 0;
    e
  }

  /** The fields of a list register: bits 0-9, bits 10-19, bits 28-29 and bit 31. */
  function VirtualId(lr: bv32): bv32 { lr & 0x3FF }
  function PhysicalId(lr: bv32): bv32 { (lr >> 10) & 0x3FF }
  function StateBits(lr: bv32): bv32 { (lr >> 28) & 3 }
  predicate IsHardware(lr: bv32) { (lr >> 31) & 1 == 1 }

  const PENDING: bv32 := 1
  const EOI_REQUEST: bv32 := 0x200

  /** What an entry says, field by field: the virtual id; the physical id, or for a software interrupt the CPU
      and the request for a maintenance interrupt; pending and not active; whether it is a hardware interrupt;
      and nothing else. */
  predicate Announces(e: bv32, pcpuid: bv32, virq: bv32, pirq: bv32, hw: bool) {
    && VirtualId(e) == virq
    && PhysicalId(e) == (if hw then pirq else pcpuid | EOI_REQUEST)
    && StateBits(e) == PENDING && (IsHardware(e) <==> hw)
    && e & 0x4FF0_0000 == 0
  }

  /** The ids fit their fields. */
  predicate AreIds(pcpuid: bv32, virq: bv32, pirq: bv32) {
    virq < 1024 && pirq < 1024 && pcpuid < 8
  }

  lemma EntryFields(pcpuid: bv32, virq: bv32, pirq: bv32, hw: bool)
    requires AreIds(pcpuid, virq, pirq)
    ensures Announces(EntryFor(pcpuid, virq, pirq, hw), pcpuid, virq, pirq, hw)
  {
    var id: bv32 := if hw then pirq else pcpuid | EOI_REQUEST;
    assert id < 1024;
    PackedFields(virq, id, if hw then 0x8000_0000 else 0);
  }

  lemma PackedFields(virq: bv32, id: bv32, flag: bv32)
    requires virq < 1024 && id < 1024 && (flag == 0 || flag == 0x8000_0000)
    ensures var e := 0x1000_0000 | flag | (id << 10) | virq;
            && e & 0x3FF == virq && (e >> 10) & 0x3FF == id && (e >> 28) & 3 == 1
            && ((e >> 31) & 1 == 1 <==> flag != 0) && e & 0x4FF0_0000 == 0
  {
  }

  /** The virtual id is delivered unchanged if and only if it fits its field, whatever the other arguments. */
  lemma VirtualIdExactlyWhen(pcpuid: bv32, virq: bv32, pirq: bv32, hw: bool)
    ensures VirtualId(EntryFor(pcpuid, virq, pirq, hw)) == virq <==> virq < 1024
  {
    LowBits(0x1000_0000 | (if hw then 0x8000_0000 else 0), if hw then pirq else pcpuid | EOI_REQUEST, virq);
  }

  lemma LowBits(high: bv32, id: bv32, virq: bv32)
    requires high & 0x3FF == 0
    ensures (high | (id << 10) | virq) & 0x3FF == virq <==> virq < 1024
  {
  }

  /** Once its state bits are cleared, the register of a hardware interrupt is usable again; that of a software
      interrupt is not, until the maintenance interrupt it asked for has been handled. */
  lemma RetiredExactlyWhenHardware(pcpuid: bv32, virq: bv32, pirq: bv32, hw: bool)
    requires AreIds(pcpuid, virq, pirq)
    ensures Usable(EntryFor(pcpuid, virq, pirq, hw) & 0xCFFF_FFFF) <==> hw
  {
    var id := if hw then pirq else pcpuid | EOI_REQUEST;
    var flag: bv32 := if hw then 0x8000_0000 else 0;
    ClearedState(flag, id, virq);
  }

  lemma ClearedState(flag: bv32, id: bv32, virq: bv32)
    requires flag == 0x8000_0000 || (flag == 0 && id & 0x200 != 0 && id < 1024 && virq < 1024)
    ensures var e := (0x1000_0000 | flag | (id << 10) | virq) & 0xCFFF_FFFF;
            e & 0x3000_0000 == 0 && (e & 0x8000_0000 != 0 || e & 0x0008_0000 == 0 <==> flag != 0)
  {
  }

  /** `n` bits of GICH_ELSR for the registers from `from` on; bits of registers that do not exist are zero. */
  function Elsr(lrs: seq<bv32>, from: nat, n: nat): nat
    decreases n
  {
    if n == 0 then 0
    else (if from < |lrs| && Usable(lrs[from]) then 1 else 0) + 2 * Elsr(lrs, from + 1, n - 1)
  }

  lemma {:induction false} ElsrBits(lrs: seq<bv32>, from: nat, n: nat, i: nat)
    ensures Bit(Elsr(lrs, from, n), i) <==> i < n && from + i < |lrs| && Usable(lrs[from + i])
    ensures Elsr(lrs, from, n) < Pow2(n)
    decreases n
  {
    if n > 0 {
      ElsrBits(lrs, from + 1, n - 1, if i > 0 then i - 1 else 0);
    } else {
      NoBits(i);
    }
  }

  lemma {:induction false} NoBits(i: nat)
    ensures !Bit(0, i)
  {
    if i > 0 {
      NoBits(i - 1);
    }
  }

  /** The lowest list register that is usable. */
  predicate IsLowestUsable(lrs: seq<bv32>, slot: Option<nat>) {
    match slot
    case Some(k) => k < |lrs| && Usable(lrs[k]) && NoneUsable(lrs, 0, k)
    case None => NoneUsable(lrs, 0, |lrs|)
  }

  /** `31 - clz(x & -x)` of a register word that is not zero. */
  function SlotInWord(x: nat): (k: nat)
    requires 0 < x < Pow2(WORD_BITS)
    ensures k == LowestBit(x)
  {
    IdiomFindsLowestBit(x, WORD_BITS);
    WORD_BITS - 1 - Clz(And(x, Negated(x, WORD_BITS)), WORD_BITS)
  }

  function ElsrWord(lrs: seq<bv32>, from: nat): (x: nat)
    ensures x < Pow2(WORD_BITS)
  {
    ElsrBits(lrs, from, WORD_BITS, 0);
    Elsr(lrs, from, WORD_BITS)
  }

  /** `gic_find_free_slot`: the second register is read only if the first one shows nothing. */
  function FindFreeSlot(lrs: seq<bv32>): Option<nat> {
    var first := ElsrWord(lrs, 0);
    var late := first == 0 && |lrs| > WORD_BITS;
    var slot := if late then ElsrWord(lrs, WORD_BITS) else first;
    if slot == 0 then None else Some(SlotInWord(slot) + if late then WORD_BITS else 0)
  }

  /** What a register word says about its list registers: none is usable, or the lowest set bit shows the
      lowest usable one. */
  predicate WordShows(lrs: seq<bv32>, from: nat, n: nat, x: nat) {
    if x == 0 then NoneUsable(lrs, from, from + n)
    else from + LowestBit(x) < |lrs| && Usable(lrs[from + LowestBit(x)]) && NoneUsable(lrs, from, from + LowestBit(x))
  }

  predicate NoneUsable(lrs: seq<bv32>, from: nat, upto: nat) {
    forall i :: from <= i < upto && i < |lrs| ==> !Usable(lrs[i])
  }

  lemma ElsrFinds(lrs: seq<bv32>, from: nat, w: nat)
    ensures WordShows(lrs, from, w, Elsr(lrs, from, w))
  {
    var x := Elsr(lrs, from, w);
    if x == 0 {
      forall i | from <= i < from + w && i < |lrs| ensures !Usable(lrs[i]) {
        ElsrBits(lrs, from, w, i - from);
        NoBits(i - from);
      }
    } else {
      LowestBitIsLowest(x, 0);
      ElsrBits(lrs, from, w, LowestBit(x));
      forall i | from <= i < from + LowestBit(x) && i < |lrs| ensures !Usable(lrs[i]) {
        LowestBitIsLowest(x, i - from);
        ElsrBits(lrs, from, w, i - from);
      }
    }
  }

  /** The slot found is the lowest usable register of all; none is found only if none is usable. */
  lemma FindFreeSlotIsLowest(lrs: seq<bv32>)
    requires |lrs| <= 64
    ensures IsLowestUsable(lrs, FindFreeSlot(lrs))
  {
    var first := ElsrWord(lrs, 0);
    ElsrFinds(lrs, 0, WORD_BITS);
    if first == 0 && |lrs| > WORD_BITS {
      ElsrFinds(lrs, WORD_BITS, WORD_BITS);
      assert NoneUsable(lrs, 0, WORD_BITS);
      assert WordShows(lrs, WORD_BITS, WORD_BITS, ElsrWord(lrs, WORD_BITS));
    }
  }

  // ----- the state of one physical CPU -----

  /** struct vcpu: the saved list registers and the queue of entries that found no register. */
  datatype Vcpu = Vcpu(lr: seq<bv32>, pending: seq<bv32>)

  /** The live list registers and the vCPU they belong to. */
  datatype State = State(live: seq<bv32>, vcpus: seq<Vcpu>, current: Option<nat>)

  /** Register files of one size, queues of 64 entries, and only entries that hold an interrupt in the queues. */
  predicate IsState(s: State) {
    && |s.live| <= 64
    && (s.current.Some? ==> s.current.value < |s.vcpus|)
    && forall v :: 0 <= v < |s.vcpus| ==> IsVcpu(s.vcpus[v], |s.live|)
  }

  predicate IsVcpu(v: Vcpu, n: nat) {
    |v.lr| == n && IsQueue(v.pending)
  }

  predicate IsQueue(q: seq<bv32>) {
    |q| == QUEUE_LENGTH && forall i :: 0 <= i < |q| ==> q[i] == NO_ENTRY || Holds(q[i])
  }

  /** The first empty place of the queue. */
  function FirstEmpty(q: seq<bv32>, from: nat): (r: Option<nat>)
    requires from <= |q|
    ensures match r
            case Some(k) => from <= k < |q| && q[k] == NO_ENTRY && forall i :: from <= i < k ==> q[i] != NO_ENTRY
            case None => forall i :: from <= i < |q| ==> q[i] != NO_ENTRY
    decreases |q| - from
  {
    if from == |q| then None else if q[from] == NO_ENTRY then Some(from) else FirstEmpty(q, from + 1)
  }

  /** The loop that stores an entry in the queue. */
  function Enqueue(q: seq<bv32>, e: bv32): (seq<bv32>, bool) {
    match FirstEmpty(q, 0)
    case Some(k) => (q[k := e], true)
    case None => (q, false)
  }

  /** The state with another register file, or another queue of one vCPU. */
  function WithLive(s: State, lrs: seq<bv32>): State {
    s.(live := lrs)
  }

  function WithPending(s: State, v: nat, q: seq<bv32>): State
    requires v < |s.vcpus|
  {
    s.(vcpus := s.vcpus[v := s.vcpus[v].(pending := q)])
  }

  /** `virq_inject`: a list register if the vCPU is the current one and a register is usable, else the queue. */
  function Inject(s: State, v: nat, e: bv32): (State, bool)
    requires IsState(s) && v < |s.vcpus|
  {
    FindFreeSlotIsLowest(s.live);
    var slot := FindFreeSlot(s.live);
    if s.current == Some(v) && slot.Some? then (WithLive(s, s.live[slot.value := e]), true)
    else
      var (q, ok) := Enqueue(s.vcpus[v].pending, e);
      (WithPending(s, v, q), ok)
  }

  datatype Flushed = Flushed(live: seq<bv32>, pending: seq<bv32>)

  /** `gic_inject_pending_irqs` from place `i` of the queue on. */
  function Flush(live: seq<bv32>, q: seq<bv32>, i: nat): (f: Flushed)
    requires |live| <= 64 && i <= |q|
    ensures |f.live| == |live| && |f.pending| == |q|
    decreases |q| - i
  {
    if i == |q| then Flushed(live, q)
    else if q[i] == NO_ENTRY then Flush(live, q, i + 1)
    else
      FindFreeSlotIsLowest(live);
      match FindFreeSlot(live)
      case None => Flushed(live, q)
      case Some(k) => Flush(live[k := q[i]], q[i := NO_ENTRY], i + 1)
  }

  /** `vcpu_save(v)`: the live registers are stored, whether or not they are those of `v`. */
  function Save(s: State, v: nat): State
    requires IsState(s) && v < |s.vcpus|
  {
    s.(vcpus := s.vcpus[v := s.vcpus[v].(lr := s.live)])
  }

  /** `vcpu_restore`: the saved registers become the live ones, then the queue is flushed into them. */
  function Restore(s: State, next: nat): State
    requires IsState(s) && next < |s.vcpus|
  {
    var f := Flush(s.vcpus[next].lr, s.vcpus[next].pending, 0);
    State(f.live, s.vcpus[next := s.vcpus[next].(pending := f.pending)], Some(next))
  }

  /** `do_context_switch`: nothing is saved when no vCPU was running. */
  function Switch(s: State, next: nat): State
    requires IsState(s) && next < |s.vcpus|
  {
    Restore(if s.current.Some? then Save(s, s.current.value) else s, next)
  }

  /** `vcpu_suspend(v)`, running or not: after it `v` is not current. */
  function Suspend(s: State, v: nat): State
    requires IsState(s) && v < |s.vcpus|
  {
    Save(s, v).(current := if s.current == Some(v) then None else s.current)
  }

  // ----- what a vCPU holds -----

  /** The interrupts in a list of entries, reduced to the bits of `mask`. */
  function HeldIn(lrs: seq<bv32>, mask: bv32): multiset<bv32> {
    if lrs == [] then multiset{}
    else HeldIn(lrs[..|lrs| - 1], mask) + One(lrs[|lrs| - 1], mask)
  }

  function One(e: bv32, mask: bv32): multiset<bv32> {
    if Holds(e) then multiset{e & mask} else multiset{}
  }

  /** The interrupts of a vCPU: in the live registers if it is running, else in its saved ones, and in its queue. */
  function Holdings(s: State, v: nat, mask: bv32): multiset<bv32>
    requires IsState(s) && v < |s.vcpus|
  {
    HeldIn(Registers(s, v), mask) + HeldIn(s.vcpus[v].pending, mask)
  }

  function Registers(s: State, v: nat): seq<bv32>
    requires v < |s.vcpus|
  {
    if s.current == Some(v) then s.live else s.vcpus[v].lr
  }

  lemma LiveReplaced(s: State, lrs: seq<bv32>, u: nat, mask: bv32)
    requires IsState(s) && |lrs| == |s.live| && u < |s.vcpus|
    ensures IsState(WithLive(s, lrs))
    ensures Holdings(WithLive(s, lrs), u, mask)
            == HeldIn(if s.current == Some(u) then lrs else Registers(s, u), mask) + HeldIn(s.vcpus[u].pending, mask)
  {
  }

  lemma PendingReplaced(s: State, v: nat, q: seq<bv32>, u: nat, mask: bv32)
    requires IsState(s) && v < |s.vcpus| && IsQueue(q) && u < |s.vcpus|
    ensures IsState(WithPending(s, v, q))
    ensures Holdings(WithPending(s, v, q), u, mask)
            == HeldIn(Registers(s, u), mask) + HeldIn(if u == v then q else s.vcpus[u].pending, mask)
  {
  }

  lemma SameOnBothSides(a: multiset<bv32>, x: multiset<bv32>, b: multiset<bv32>, y: multiset<bv32>, c: multiset<bv32>)
    requires a + x == b + y
    ensures (a + c) + x == (b + c) + y && (c + a) + x == (c + b) + y
  {
    assert (a + c) + x == (a + x) + c && (b + c) + y == (b + y) + c;
    assert (c + a) + x == (a + x) + c && (c + b) + y == (b + y) + c;
  }

  lemma AddedInTurn(a: multiset<bv32>, x: multiset<bv32>, y: multiset<bv32>)
    ensures (a + x) + y == (a + y) + x
  {
  }

  lemma AddedLast(a: multiset<bv32>, x: multiset<bv32>, y: multiset<bv32>)
    ensures a + (x + y) == (a + x) + y
  {
  }

  lemma LastReplaced(lrs: seq<bv32>, e: bv32, mask: bv32)
    requires lrs != []
    ensures HeldIn(lrs[|lrs| - 1 := e], mask) == HeldIn(lrs[..|lrs| - 1], mask) + One(e, mask)
  {
    assert lrs[|lrs| - 1 := e][..|lrs| - 1] == lrs[..|lrs| - 1];
  }

  lemma EarlierReplaced(lrs: seq<bv32>, k: nat, e: bv32, mask: bv32)
    requires k < |lrs| - 1
    ensures HeldIn(lrs[k := e], mask) == HeldIn(lrs[..|lrs| - 1][k := e], mask) + One(lrs[|lrs| - 1], mask)
  {
    assert lrs[k := e][..|lrs| - 1] == lrs[..|lrs| - 1][k := e];
  }

  lemma {:induction false} HeldInUpdate(lrs: seq<bv32>, k: nat, e: bv32, mask: bv32)
    requires k < |lrs|
    ensures HeldIn(lrs[k := e], mask) + One(lrs[k], mask) == HeldIn(lrs, mask) + One(e, mask)
  {
    var rest, last := lrs[..|lrs| - 1], lrs[|lrs| - 1];
    if k == |lrs| - 1 {
      LastReplaced(lrs, e, mask);
      AddedInTurn(HeldIn(rest, mask), One(e, mask), One(last, mask));
    } else {
      EarlierReplaced(lrs, k, e, mask);
      HeldInUpdate(rest, k, e, mask);
      SameOnBothSides(HeldIn(rest[k := e], mask), One(lrs[k], mask), HeldIn(rest, mask), One(e, mask), One(last, mask));
    }
  }

  lemma EnqueueHolds(q: seq<bv32>, e: bv32, mask: bv32)
    requires IsQueue(q) && Holds(e)
    ensures var (r, ok) := Enqueue(q, e);
            && IsQueue(r)
            && HeldIn(r, mask) == HeldIn(q, mask) + (if ok then multiset{e & mask} else multiset{})
            && (ok <==> exists i :: 0 <= i < |q| && q[i] == NO_ENTRY)
  {
    var k := FirstEmpty(q, 0);
    if k.Some? {
      HeldInUpdate(q, k.value, e, mask);
    }
  }

  lemma EnqueueKeepsState(s: State, v: nat, e: bv32)
    requires IsState(s) && v < |s.vcpus| && Holds(e)
    ensures IsState(WithPending(s, v, Enqueue(s.vcpus[v].pending, e).0))
  {
    assert IsVcpu(s.vcpus[v], |s.live|);
    EnqueueHolds(s.vcpus[v].pending, e, 0);
  }

  /** What an injection fails on: no place in the queue, and no usable list register of the vCPU's own. */
  predicate NoRoom(s: State, v: nat)
    requires IsState(s) && v < |s.vcpus|
  {
    && (forall i :: 0 <= i < QUEUE_LENGTH ==> s.vcpus[v].pending[i] != NO_ENTRY)
    && (s.current == Some(v) ==> NoneUsable(s.live, 0, |s.live|))
  }

  /** It fails exactly when there is no room. */
  lemma InjectFailsExactlyWhen(s: State, v: nat, e: bv32)
    requires IsState(s) && v < |s.vcpus| && Holds(e)
    ensures !Inject(s, v, e).1 <==> NoRoom(s, v)
  {
    FindFreeSlotIsLowest(s.live);
    assert IsVcpu(s.vcpus[v], |s.live|);
    EnqueueHolds(s.vcpus[v].pending, e, 0);
  }

  predicate IsFirstEmpty(q: seq<bv32>, k: nat) {
    k < |q| && q[k] == NO_ENTRY && forall i :: 0 <= i < k ==> q[i] != NO_ENTRY
  }

  /** `e` went to the lowest usable register if `v` is running and has one, else to the first empty place of the
      queue of `v`; nothing else changed. */
  ghost predicate Delivered(s: State, t: State, v: nat, e: bv32)
    requires v < |s.vcpus|
  {
    if s.current == Some(v) && !NoneUsable(s.live, 0, |s.live|) then
      exists k: nat :: IsLowestUsable(s.live, Some(k)) && t == WithLive(s, s.live[k := e])
    else
      exists k: nat :: IsFirstEmpty(s.vcpus[v].pending, k) && t == WithPending(s, v, s.vcpus[v].pending[k := e])
  }

  /** Where an injection puts its entry; without room it changes nothing. */
  lemma InjectPlaces(s: State, v: nat, e: bv32)
    requires IsState(s) && v < |s.vcpus| && Holds(e)
    ensures var (t, ok) := Inject(s, v, e); if ok then Delivered(s, t, v, e) else t == s
  {
    var (t, ok) := Inject(s, v, e);
    var q := s.vcpus[v].pending;
    FindFreeSlotIsLowest(s.live);
    if s.current == Some(v) && FindFreeSlot(s.live).Some? {
      assert IsLowestUsable(s.live, Some(FindFreeSlot(s.live).value));
    } else if ok {
      assert IsFirstEmpty(q, FirstEmpty(q, 0).value);
      assert t == WithPending(s, v, q[FirstEmpty(q, 0).value := e]);
    } else {
      assert s.vcpus[v := s.vcpus[v].(pending := q)] == s.vcpus;
    }
  }

  /** What an injection does: with success, and ids that fit their fields, an entry that announces just that
      interrupt is delivered; without, nothing changes. */
  ghost predicate Arrives(s: State, t: State, v: nat, pcpuid: bv32, virq: bv32, pirq: bv32, hw: bool, ok: bool)
    requires v < |s.vcpus|
  {
    if !ok then t == s
    else AreIds(pcpuid, virq, pirq) ==> exists e :: Announces(e, pcpuid, virq, pirq, hw) && Delivered(s, t, v, e)
  }

  lemma InjectionArrives(s: State, v: nat, pcpuid: bv32, virq: bv32, pirq: bv32, hw: bool)
    requires IsState(s) && v < |s.vcpus|
    ensures var (t, ok) := Inject(s, v, EntryFor(pcpuid, virq, pirq, hw));
            Arrives(s, t, v, pcpuid, virq, pirq, hw, ok)
  {
    InjectPlaces(s, v, EntryFor(pcpuid, virq, pirq, hw));
    if AreIds(pcpuid, virq, pirq) {
      EntryFields(pcpuid, virq, pirq, hw);
    }
  }

  lemma FillSlot(s: State, k: nat, e: bv32, u: nat, mask: bv32)
    requires IsState(s) && u < |s.vcpus| && k < |s.live| && Usable(s.live[k]) && Holds(e)
    ensures IsState(WithLive(s, s.live[k := e]))
    ensures Holdings(WithLive(s, s.live[k := e]), u, mask)
            == Holdings(s, u, mask) + (if s.current == Some(u) then multiset{e & mask} else multiset{})
  {
    HeldInUpdate(s.live, k, e, mask);
    LiveReplaced(s, s.live[k := e], u, mask);
    assert HeldIn(s.live[k := e], mask) == HeldIn(s.live, mask) + multiset{e & mask};
  }

  lemma InjectLive(s: State, v: nat, e: bv32, u: nat, mask: bv32)
    requires IsState(s) && v < |s.vcpus| && Holds(e) && u < |s.vcpus|
    requires s.current == Some(v) && FindFreeSlot(s.live).Some?
    ensures var (t, ok) := Inject(s, v, e);
            ok && IsState(t) && |t.vcpus| == |s.vcpus|
            && Holdings(t, u, mask) == Holdings(s, u, mask) + (if u == v then multiset{e & mask} else multiset{})
  {
    FindFreeSlotIsLowest(s.live);
    FillSlot(s, FindFreeSlot(s.live).value, e, u, mask);
  }

  lemma InjectQueued(s: State, v: nat, e: bv32, u: nat, mask: bv32)
    requires IsState(s) && v < |s.vcpus| && Holds(e) && u < |s.vcpus|
    requires !(s.current == Some(v) && FindFreeSlot(s.live).Some?)
    ensures var (t, ok) := Inject(s, v, e);
            IsState(t) && |t.vcpus| == |s.vcpus|
            && Holdings(t, u, mask) == Holdings(s, u, mask) + (if ok && u == v then multiset{e & mask} else multiset{})
  {
    var q := s.vcpus[v].pending;
    assert IsVcpu(s.vcpus[v], |s.live|);
    EnqueueHolds(q, e, mask);
    var (r, ok) := Enqueue(q, e);
    assert Inject(s, v, e) == (WithPending(s, v, r), ok);
    PendingReplaced(s, v, r, u, mask);
    AddedLast(HeldIn(Registers(s, u), mask), HeldIn(q, mask), if ok then multiset{e & mask} else multiset{});
  }

  /** Injecting adds exactly the entry to what the vCPU holds when it reports success, and nothing otherwise. */
  lemma InjectConserves(s: State, v: nat, e: bv32, u: nat, mask: bv32)
    requires IsState(s) && v < |s.vcpus| && Holds(e) && u < |s.vcpus|
    ensures var (t, ok) := Inject(s, v, e);
            IsState(t) && |t.vcpus| == |s.vcpus|
            && Holdings(t, u, mask) == Holdings(s, u, mask) + (if ok && u == v then multiset{e & mask} else multiset{})
  {
    if s.current == Some(v) && FindFreeSlot(s.live).Some? {
      InjectLive(s, v, e, u, mask);
    } else {
      InjectQueued(s, v, e, u, mask);
    }
  }

  /** What a flush from place `i` on leaves of registers and queue: nothing is queued from there on, or no
      register is usable. */
  predicate FlushedFrom(live: seq<bv32>, q: seq<bv32>, i: nat, f: Flushed) {
    && |f.live| == |live| && |f.pending| == |q| && i <= |q| && IsQueue(f.pending)
    && f.pending[..i] == q[..i]
    && (EmptyFrom(f.pending, i) || NoneUsable(f.live, 0, |f.live|))
  }

  predicate EmptyFrom(q: seq<bv32>, i: nat) {
    forall k :: i <= k < |q| ==> q[k] == NO_ENTRY
  }

  /** One place earlier: that place is empty after the step, and those before it are as they were. */
  lemma FlushedFromNext(live: seq<bv32>, q: seq<bv32>, i: nat, r: seq<bv32>, f: Flushed)
    requires i < |q| == |r| && r[..i] == q[..i] && r[i] == NO_ENTRY && FlushedFrom(live, r, i + 1, f)
    ensures FlushedFrom(live, q, i, f)
  {
    OnePlaceEarlier(q, i, r, f.pending);
  }

  /** What the next step of a flush does: go on past an empty place, move an entry, or stop. */
  lemma FlushStep(live: seq<bv32>, q: seq<bv32>, i: nat)
    requires |live| <= 64 && i < |q|
    ensures q[i] == NO_ENTRY ==> Flush(live, q, i) == Flush(live, q, i + 1)
    ensures q[i] != NO_ENTRY && FindFreeSlot(live).Some? ==>
              var k := FindFreeSlot(live).value;
              && k < |live| && Usable(live[k]) && (IsQueue(q) ==> Holds(q[i]) && IsQueue(q[i := NO_ENTRY]))
              && Flush(live, q, i) == Flush(live[k := q[i]], q[i := NO_ENTRY], i + 1)
    ensures q[i] != NO_ENTRY && FindFreeSlot(live).None? ==> Flush(live, q, i) == Flushed(live, q)
  {
    FindFreeSlotIsLowest(live);
  }

  /** After a flush nothing is queued from place `i` on, or no register is usable. */
  lemma {:induction false} FlushDrains(live: seq<bv32>, q: seq<bv32>, i: nat)
    requires |live| <= 64 && IsQueue(q) && i <= |q|
    ensures FlushedFrom(live, q, i, Flush(live, q, i))
    decreases |q| - i
  {
    if i < |q| {
      FlushStep(live, q, i);
      if q[i] == NO_ENTRY {
        FlushDrains(live, q, i + 1);
        FlushedFromNext(live, q, i, q, Flush(live, q, i + 1));
      } else if FindFreeSlot(live).Some? {
        var live', q' := live[FindFreeSlot(live).value := q[i]], q[i := NO_ENTRY];
        assert q'[..i] == q[..i];
        FlushDrains(live', q', i + 1);
        FlushedFromNext(live', q, i, q', Flush(live', q', i + 1));
      } else {
        FindFreeSlotIsLowest(live);
      }
    }
  }

  /** A flush moves entries from the queue to registers without losing or copying any. */
  lemma {:induction false} FlushConserves(live: seq<bv32>, q: seq<bv32>, i: nat, mask: bv32)
    requires |live| <= 64 && IsQueue(q) && i <= |q|
    ensures var f := Flush(live, q, i);
            HeldIn(f.live, mask) + HeldIn(f.pending, mask) == HeldIn(live, mask) + HeldIn(q, mask)
    decreases |q| - i
  {
    if i < |q| {
      FlushStep(live, q, i);
      if q[i] == NO_ENTRY {
        FlushConserves(live, q, i + 1, mask);
      } else if FindFreeSlot(live).Some? {
        var k := FindFreeSlot(live).value;
        FlushConserves(live[k := q[i]], q[i := NO_ENTRY], i + 1, mask);
        MoveConserves(live, q, k, i, mask);
      }
    }
  }

  /** From place `i` up to `n` the queue has been emptied, and elsewhere it is as it was. */
  predicate IsEmptiedUpTo(q: seq<bv32>, p: seq<bv32>, i: nat, n: nat) {
    && i <= n <= |q| == |p| && p[..i] == q[..i] && p[n..] == q[n..]
    && forall k :: i <= k < n ==> p[k] == NO_ENTRY
  }

  lemma OneMoreEmptied(q: seq<bv32>, r: seq<bv32>, p: seq<bv32>, i: nat, n: nat)
    requires i < |q| == |r| && r[..i] == q[..i] && r[i] == NO_ENTRY && r[i + 1..] == q[i + 1..]
    requires IsEmptiedUpTo(r, p, i + 1, n)
    ensures IsEmptiedUpTo(q, p, i, n)
  {
    OnePlaceEarlier(q, i, r, p);
    assert r[n..] == r[i + 1..][n - i - 1..] == q[i + 1..][n - i - 1..] == q[n..];
  }

  /** A flush works through the queue in order: up to some place everything has been taken out, from there on
      nothing was touched. */
  lemma {:induction false} FlushIsInOrder(live: seq<bv32>, q: seq<bv32>, i: nat) returns (n: nat)
    requires |live| <= 64 && i <= |q|
    ensures IsEmptiedUpTo(q, Flush(live, q, i).pending, i, n)
    decreases |q| - i
  {
    n := i;
    if i < |q| {
      FlushStep(live, q, i);
      if q[i] == NO_ENTRY {
        n := FlushIsInOrder(live, q, i + 1);
        OneMoreEmptied(q, q, Flush(live, q, i + 1).pending, i, n);
      } else if FindFreeSlot(live).Some? {
        var live', q' := live[FindFreeSlot(live).value := q[i]], q[i := NO_ENTRY];
        n := FlushIsInOrder(live', q', i + 1);
        OneMoreEmptied(q, q', Flush(live', q', i + 1).pending, i, n);
      }
    }
  }

  /** Registers that are not usable are not written. */
  predicate Keeps(before: seq<bv32>, after: seq<bv32>) {
    |after| == |before| && forall k :: 0 <= k < |before| && !Usable(before[k]) ==> after[k] == before[k]
  }

  lemma {:induction false} FlushKeeps(live: seq<bv32>, q: seq<bv32>, i: nat)
    requires |live| <= 64 && IsQueue(q) && i <= |q|
    ensures Keeps(live, Flush(live, q, i).live)
    decreases |q| - i
  {
    if i < |q| {
      FlushStep(live, q, i);
      if q[i] == NO_ENTRY {
        FlushKeeps(live, q, i + 1);
      } else if FindFreeSlot(live).Some? {
        var k := FindFreeSlot(live).value;
        FlushKeeps(live[k := q[i]], q[i := NO_ENTRY], i + 1);
        KeepsInTurn(live, k, q[i], Flush(live, q, i).live);
      }
    }
  }

  lemma KeepsInTurn(live: seq<bv32>, k: nat, e: bv32, after: seq<bv32>)
    requires k < |live| && Usable(live[k]) && Keeps(live[k := e], after)
    ensures Keeps(live, after)
  {
  }

  lemma OnePlaceEarlier(q: seq<bv32>, i: nat, r: seq<bv32>, p: seq<bv32>)
    requires i < |q| == |r| == |p| && r[..i] == q[..i] && r[i] == NO_ENTRY && p[..i + 1] == r[..i + 1]
    ensures p[i] == NO_ENTRY && p[..i] == q[..i]
  {
    assert p[i] == p[..i + 1][i] == r[..i + 1][i];
    assert p[..i] == p[..i + 1][..i] == r[..i];
  }

  /** One entry moves from the queue to a usable register. */
  lemma MoveConserves(live: seq<bv32>, q: seq<bv32>, k: nat, i: nat, mask: bv32)
    requires k < |live| && Usable(live[k]) && i < |q| && Holds(q[i])
    ensures HeldIn(live[k := q[i]], mask) + HeldIn(q[i := NO_ENTRY], mask) == HeldIn(live, mask) + HeldIn(q, mask)
  {
    var e, now, left := q[i], HeldIn(live[k := q[i]], mask), HeldIn(q[i := NO_ENTRY], mask);
    HeldInUpdate(live, k, e, mask);
    HeldInUpdate(q, i, NO_ENTRY, mask);
    assert One(live[k], mask) == One(NO_ENTRY, mask) == multiset{};
    assert now == HeldIn(live, mask) + multiset{e & mask} && left + multiset{e & mask} == HeldIn(q, mask);
    assert now + left == HeldIn(live, mask) + (left + multiset{e & mask});
  }

  /** Saving leaves in the saved registers of `v` what is live, and everything else as it was. */
  lemma SaveStores(s: State, v: nat, u: nat, mask: bv32)
    requires IsState(s) && v < |s.vcpus| && u < |s.vcpus|
    ensures IsState(Save(s, v)) && |Save(s, v).vcpus| == |s.vcpus|
    ensures Stored(Save(s, v), u, mask)
            == HeldIn(if u == v then s.live else s.vcpus[u].lr, mask) + HeldIn(s.vcpus[u].pending, mask)
  {
  }

  /** What the saved registers and the queue of a vCPU hold. */
  function Stored(s: State, v: nat, mask: bv32): multiset<bv32>
    requires v < |s.vcpus|
  {
    HeldIn(s.vcpus[v].lr, mask) + HeldIn(s.vcpus[v].pending, mask)
  }

  /** Nothing is queued for the running vCPU, or it has no register to put it in. */
  predicate Drained(s: State) {
    && s.current.Some? && s.current.value < |s.vcpus|
    && (EmptyFrom(s.vcpus[s.current.value].pending, 0) || NoneUsable(s.live, 0, |s.live|))
  }

  lemma RestoreDrains(s: State, next: nat)
    requires IsState(s) && next < |s.vcpus|
    ensures Drained(Restore(s, next))
    ensures IsState(Restore(s, next)) && |Restore(s, next).vcpus| == |s.vcpus|
  {
    assert IsVcpu(s.vcpus[next], |s.live|);
    FlushDrains(s.vcpus[next].lr, s.vcpus[next].pending, 0);
  }

  lemma RestoreConserves(s: State, next: nat, v: nat, mask: bv32)
    requires IsState(s) && next < |s.vcpus| && v < |s.vcpus|
    requires IsState(Restore(s, next))
    ensures Holdings(Restore(s, next), v, mask) == Stored(s, v, mask)
  {
    if v == next {
      assert IsVcpu(s.vcpus[next], |s.live|);
      FlushConserves(s.vcpus[next].lr, s.vcpus[next].pending, 0, mask);
    }
  }

  lemma {:induction false} FlushOfNothing(live: seq<bv32>, q: seq<bv32>, i: nat)
    requires |live| <= 64 && i <= |q| && EmptyFrom(q, i)
    ensures Flush(live, q, i) == Flushed(live, q)
    decreases |q| - i
  {
    if i < |q| {
      FlushOfNothing(live, q, i + 1);
    }
  }

  /** A restored vCPU finds every register that was in use as it was saved, and all of them if nothing was
      queued. */
  lemma RestoreBringsBack(s: State, next: nat)
    requires IsState(s) && next < |s.vcpus|
    ensures Keeps(s.vcpus[next].lr, Restore(s, next).live)
    ensures EmptyFrom(s.vcpus[next].pending, 0) ==> Restore(s, next).live == s.vcpus[next].lr
  {
    assert IsVcpu(s.vcpus[next], |s.live|);
    FlushKeeps(s.vcpus[next].lr, s.vcpus[next].pending, 0);
    if EmptyFrom(s.vcpus[next].pending, 0) {
      FlushOfNothing(s.vcpus[next].lr, s.vcpus[next].pending, 0);
    }
  }

  /** Switching to another vCPU and back brings every live register in use back to its place, and all of them
      if nothing was queued. */
  lemma SwitchAndBack(s: State, v: nat, next: nat)
    requires IsState(s) && s.current == Some(v) && next < |s.vcpus| && next != v
    ensures IsState(Switch(s, next)) && v < |Switch(s, next).vcpus|
    ensures var t := Switch(Switch(s, next), v);
            && t.current == Some(v) && Keeps(s.live, t.live)
            && (EmptyFrom(s.vcpus[v].pending, 0) ==> t.live == s.live)
  {
    var saved := Save(s, v);
    SaveStores(s, v, v, 0);
    RestoreDrains(saved, next);
    var t := Switch(s, next);
    assert t.vcpus[v] == saved.vcpus[v] && saved.vcpus[v].lr == s.live;
    SaveStores(t, next, v, 0);
    RestoreBringsBack(Save(t, next), v);
  }

  /** After a switch the queue of the vCPU that runs now is empty, or no list register is usable. */
  lemma SwitchDrains(s: State, next: nat)
    requires IsState(s) && next < |s.vcpus|
    ensures Switch(s, next).current == Some(next) && Drained(Switch(s, next))
  {
    if s.current.Some? {
      SaveStores(s, s.current.value, next, 0);
    }
    RestoreDrains(if s.current.Some? then Save(s, s.current.value) else s, next);
  }

  /** A switch keeps what every vCPU holds. */
  lemma SwitchConserves(s: State, next: nat, v: nat, mask: bv32)
    requires IsState(s) && next < |s.vcpus| && v < |s.vcpus|
    ensures IsState(Switch(s, next)) && |Switch(s, next).vcpus| == |s.vcpus|
    ensures Holdings(Switch(s, next), v, mask) == Holdings(s, v, mask)
  {
    var t := if s.current.Some? then Save(s, s.current.value) else s;
    if s.current.Some? {
      SaveStores(s, s.current.value, v, mask);
    }
    RestoreDrains(t, next);
    RestoreConserves(t, next, v, mask);
  }

  /** Suspending overwrites the saved registers of `v` with the live ones. */
  predicate SuspendIsSafe(s: State, v: nat, mask: bv32)
    requires IsState(s) && v < |s.vcpus|
  {
    s.current == Some(v) || HeldIn(s.live, mask) == HeldIn(s.vcpus[v].lr, mask)
  }

  /** So it keeps what `v` holds if and only if `v` is running, or had saved just what is live. */
  lemma SuspendConservesExactlyWhen(s: State, v: nat, mask: bv32)
    requires IsState(s) && v < |s.vcpus|
    ensures IsState(Suspend(s, v)) && |Suspend(s, v).vcpus| == |s.vcpus|
    ensures Holdings(Suspend(s, v), v, mask) == Holdings(s, v, mask) <==> SuspendIsSafe(s, v, mask)
  {
    SaveStores(s, v, v, mask);
    CancelRight(HeldIn(s.live, mask), HeldIn(s.vcpus[v].lr, mask), HeldIn(s.vcpus[v].pending, mask));
  }

  lemma CancelRight(a: multiset<bv32>, b: multiset<bv32>, c: multiset<bv32>)
    ensures a + c == b + c <==> a == b
  {
    assert (a + c) - c == a && (b + c) - c == b;
  }

  /** The other vCPUs keep what they hold in any case. */
  lemma SuspendKeepsOthers(s: State, v: nat, u: nat, mask: bv32)
    requires IsState(s) && v < |s.vcpus| && u < |s.vcpus| && u != v
    ensures IsState(Suspend(s, v)) && Holdings(Suspend(s, v), u, mask) == Holdings(s, u, mask)
  {
    SaveStores(s, v, u, mask);
  }

  /** A suspended vCPU is not running: its interrupts are queued from then on, and no register is written for
      it. Suspending one that was not running does not stop the one that is. */
  lemma SuspendStops(s: State, v: nat, e: bv32)
    requires IsState(s) && v < |s.vcpus|
    ensures IsState(Suspend(s, v)) && v < |Suspend(s, v).vcpus|
    ensures Inject(Suspend(s, v), v, e).0.live == s.live
    ensures s.current != Some(v) ==> Suspend(s, v).current == s.current
  {
    SaveStores(s, v, v, 0);
  }

  // ----- whole runs -----

  /** All bits of an entry but the two that say whether it is pending or active. */
  const STATELESS: bv32 := 0xCFFF_FFFF

  /** Hypervisor steps; a guest acknowledging an interrupt in a live register, and finishing it. */
  datatype Action =
    | InjectAction(v: nat, e: bv32)
    | SwitchAction(next: nat)
    | SuspendAction(v: nat)
    | AcknowledgeAction(slot: nat, to: bv32)
    | RetireAction(slot: nat, left: bv32)

  predicate Enabled(s: State, a: Action)
    requires IsState(s)
  {
    match a
    case InjectAction(v, e) => v < |s.vcpus| && Holds(e)
    case SwitchAction(next) => next < |s.vcpus|
    case SuspendAction(v) => v < |s.vcpus| && SuspendIsSafe(s, v, STATELESS)
    case AcknowledgeAction(slot, to) =>
      slot < |s.live| && Holds(s.live[slot]) && Holds(to) && s.live[slot] & STATELESS == to & STATELESS
    case RetireAction(slot, left) => slot < |s.live| && !Holds(left)
  }

  function Do(s: State, a: Action): State
    requires IsState(s) && Enabled(s, a)
  {
    match a
    case InjectAction(v, e) => Inject(s, v, e).0
    case SwitchAction(next) => Switch(s, next)
    case SuspendAction(v) => Suspend(s, v)
    case AcknowledgeAction(slot, to) => WithLive(s, s.live[slot := to])
    case RetireAction(slot, left) => WithLive(s, s.live[slot := left])
  }

  /** What a step adds to the interrupts of `v`, and what it takes away. */
  function Added(s: State, a: Action, v: nat): multiset<bv32>
    requires IsState(s) && Enabled(s, a)
  {
    if a.InjectAction? && a.v == v && Inject(s, v, a.e).1 then multiset{a.e & STATELESS} else multiset{}
  }

  function Removed(s: State, a: Action, v: nat): multiset<bv32>
    requires IsState(s) && Enabled(s, a)
  {
    if a.RetireAction? && s.current == Some(v) then One(s.live[a.slot], STATELESS) else multiset{}
  }

  /** Overwriting a live register takes its interrupt from the running vCPU and gives it the new one. */
  lemma OverwriteConserves(s: State, slot: nat, e: bv32, v: nat, mask: bv32)
    requires IsState(s) && slot < |s.live| && v < |s.vcpus|
    ensures IsState(WithLive(s, s.live[slot := e]))
    ensures Holdings(WithLive(s, s.live[slot := e]), v, mask)
            + (if s.current == Some(v) then One(s.live[slot], mask) else multiset{})
            == Holdings(s, v, mask) + (if s.current == Some(v) then One(e, mask) else multiset{})
  {
    var lrs := s.live[slot := e];
    LiveReplaced(s, lrs, v, mask);
    HeldInUpdate(s.live, slot, e, mask);
    SameOnBothSides(HeldIn(lrs, mask), One(s.live[slot], mask), HeldIn(s.live, mask), One(e, mask),
                    HeldIn(s.vcpus[v].pending, mask));
  }

  /** An interrupt that only changes its state is still the same one. */
  lemma AcknowledgeConserves(s: State, slot: nat, to: bv32, v: nat)
    requires IsState(s) && slot < |s.live| && v < |s.vcpus|
    requires Holds(s.live[slot]) && Holds(to) && s.live[slot] & STATELESS == to & STATELESS
    ensures IsState(WithLive(s, s.live[slot := to]))
    ensures Holdings(WithLive(s, s.live[slot := to]), v, STATELESS) == Holdings(s, v, STATELESS)
  {
    OverwriteConserves(s, slot, to, v, STATELESS);
    CancelRight(Holdings(WithLive(s, s.live[slot := to]), v, STATELESS), Holdings(s, v, STATELESS),
                if s.current == Some(v) then One(to, STATELESS) else multiset{});
  }

  /** A suspend that is safe keeps what any vCPU holds. */
  lemma SafeSuspendConserves(s: State, u: nat, v: nat, mask: bv32)
    requires IsState(s) && u < |s.vcpus| && v < |s.vcpus| && SuspendIsSafe(s, u, mask)
    ensures IsState(Suspend(s, u)) && |Suspend(s, u).vcpus| == |s.vcpus|
    ensures Holdings(Suspend(s, u), v, mask) == Holdings(s, v, mask)
  {
    SuspendConservesExactlyWhen(s, u, mask);
    if u != v {
      SuspendKeepsOthers(s, u, v, mask);
    }
  }

  lemma DoConserves(s: State, a: Action, v: nat)
    requires IsState(s) && Enabled(s, a) && v < |s.vcpus|
    ensures IsState(Do(s, a)) && |Do(s, a).vcpus| == |s.vcpus|
    ensures Holdings(Do(s, a), v, STATELESS) + Removed(s, a, v) == Holdings(s, v, STATELESS) + Added(s, a, v)
  {
    match a
    case InjectAction(u, e) => InjectConserves(s, u, e, v, STATELESS);
    case SwitchAction(next) => SwitchConserves(s, next, v, STATELESS);
    case SuspendAction(u) => SafeSuspendConserves(s, u, v, STATELESS);
    case AcknowledgeAction(slot, to) => AcknowledgeConserves(s, slot, to, v);
    case RetireAction(slot, left) => OverwriteConserves(s, slot, left, v, STATELESS);
  }

  /** The state after a run with the entries that were injected and retired for `v`; steps that are not
      possible in their state are skipped. */
  datatype Ledger = Ledger(s: State, added: multiset<bv32>, removed: multiset<bv32>)

  function Run(s: State, acts: seq<Action>, v: nat): (r: Ledger)
    requires IsState(s) && v < |s.vcpus|
    ensures IsState(r.s) && |r.s.vcpus| == |s.vcpus|
  {
    if acts == [] then Ledger(s, multiset{}, multiset{})
    else
      var r := Run(s, acts[..|acts| - 1], v);
      var a := acts[|acts| - 1];
      if !Enabled(r.s, a) then r
      else
        DoConserves(r.s, a, v);
        Ledger(Do(r.s, a), r.added + Added(r.s, a, v), r.removed + Removed(r.s, a, v))
  }

  /** Over any run, every vCPU holds what it held, plus what was injected for it with success, less what
      it finished: no interrupt is lost or duplicated. */
  lemma {:induction false} RunsConserve(s: State, acts: seq<Action>, v: nat)
    requires IsState(s) && v < |s.vcpus|
    ensures var r := Run(s, acts, v); Holdings(r.s, v, STATELESS) + r.removed == Holdings(s, v, STATELESS) + r.added
  {
    if acts != [] {
      var r := Run(s, acts[..|acts| - 1], v);
      var a := acts[|acts| - 1];
      RunsConserve(s, acts[..|acts| - 1], v);
      if Enabled(r.s, a) {
        DoConserves(r.s, a, v);
        var t := Do(r.s, a);
        AddUp(Holdings(s, v, STATELESS), r.added, r.removed, Holdings(r.s, v, STATELESS),
              Added(r.s, a, v), Removed(r.s, a, v), Holdings(t, v, STATELESS));
      }
    }
  }

  lemma AddUp(h0: multiset<bv32>, a: multiset<bv32>, r: multiset<bv32>, h1: multiset<bv32>,
              a': multiset<bv32>, r': multiset<bv32>, h2: multiset<bv32>)
    requires h1 + r == h0 + a && h2 + r' == h1 + a'
    ensures h2 + (r + r') == h0 + (a + a')
  {
    assert h2 + (r + r') == (h2 + r') + r == (h1 + a') + r == (h1 + r) + a' == (h0 + a) + a';
  }
}

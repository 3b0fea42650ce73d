/** The tables of all VMs in one memory (core/vm/vmem.c): creating and filling them in any order, each VM
    translates as if it were alone. */
module VmIsolationModule {
  import opened ArithmeticModule
  import opened Common
  import opened PageTableModule
  import opened VmemModule

  datatype VmAction = CreateAction(vmid: nat) | MapAction(vmid: nat, w: Mapping)

  function Do(m: Memory, start: nat, a: VmAction): Memory {
    match a
    case CreateAction(v) => Create(m, VmBase(start, v))
    case MapAction(v, w) => WriteEntry(m, VmBase(start, v), w)
  }

  function Run(m: Memory, start: nat, acts: seq<VmAction>): Memory {
    if acts == [] then m else Do(Run(m, start, acts[..|acts| - 1]), start, acts[|acts| - 1])
  }

  /** The steps for one VM. */
  function OnlyOf(acts: seq<VmAction>, v: nat): seq<VmAction> {
    if acts == [] then []
    else
      var before := OnlyOf(acts[..|acts| - 1], v);
      if acts[|acts| - 1].vmid == v then before + [acts[|acts| - 1]] else before
  }

  predicate AreInRange(acts: seq<VmAction>) {
    forall k :: 0 <= k < |acts| ==> acts[k].MapAction? ==> acts[k].w.page < PAGES
  }

  /** The two memories agree on the table at `base`. */
  ghost predicate AgreeOn(m: Memory, n: Memory, base: nat) {
    forall a :: base <= a < base + TABLE_SIZE ==> Read(m, a) == Read(n, a)
  }

  /** A step of another VM leaves the table as it is. */
  lemma OthersStayOutside(m: Memory, start: nat, a: VmAction, v: nat)
    requires a.vmid != v && (a.MapAction? ==> a.w.page < PAGES)
    ensures AgreeOn(Do(m, start, a), m, VmBase(start, v))
  {
    MultipleIsFar(v - a.vmid, TABLE_SIZE);
    forall x | VmBase(start, v) <= x < VmBase(start, v) + TABLE_SIZE ensures Read(Do(m, start, a), x) == Read(m, x) {
      match a
      case CreateAction(u) => CreateStaysInside(m, VmBase(start, u), x);
      case MapAction(u, w) =>
        assert WriteAll(m, VmBase(start, u), [w]) == WriteEntry(m, VmBase(start, u), w);
        WritesStayInside(m, VmBase(start, u), [w], x);
    }
  }

  /** A step of the VM itself does the same to both memories. */
  lemma OwnStepAgrees(m: Memory, n: Memory, start: nat, a: VmAction)
    requires AgreeOn(m, n, VmBase(start, a.vmid)) && (a.MapAction? ==> a.w.page < PAGES)
    ensures AgreeOn(Do(m, start, a), Do(n, start, a), VmBase(start, a.vmid))
  {
    var base := VmBase(start, a.vmid);
    match a
    case CreateAction(_) =>
      forall x | base <= x < base + TABLE_SIZE ensures Read(Create(m, base), x) == Read(Create(n, base), x) {
        CreateAgrees(m, n, base, x);
      }
    case MapAction(_, w) =>
      LayoutIsFlat(base, w.page);
      WordAgrees(m, n, base, L1Address(base, w.page), w.entry);
      var m1, n1 := m[L1Address(base, w.page) := SetValid(Read(m, L1Address(base, w.page)))],
                    n[L1Address(base, w.page) := SetValid(Read(n, L1Address(base, w.page)))];
      WordAgrees(m1, n1, base, L2Address(base, w.page), w.entry);
      var m2, n2 := m1[L2Address(base, w.page) := SetValid(Read(m1, L2Address(base, w.page)))],
                    n1[L2Address(base, w.page) := SetValid(Read(n1, L2Address(base, w.page)))];
      WordAgrees(m2, n2, base, L3Address(base, w.page), w.entry);
  }

  /** Validating a word of the table, or storing a new one. */
  lemma WordAgrees(m: Memory, n: Memory, base: nat, x: nat, e: nat)
    requires AgreeOn(m, n, base) && base <= x < base + TABLE_SIZE
    ensures AgreeOn(m[x := SetValid(Read(m, x))], n[x := SetValid(Read(n, x))], base)
    ensures AgreeOn(m[x := e], n[x := e], base)
  {
    var m1, n1 := m[x := SetValid(Read(m, x))], n[x := SetValid(Read(n, x))];
    var m2, n2 := m[x := e], n[x := e];
    forall a | base <= a < base + TABLE_SIZE ensures Read(m1, a) == Read(n1, a) {
      assert Read(m, a) == Read(n, a) && Read(m, x) == Read(n, x);
    }
    forall a | base <= a < base + TABLE_SIZE ensures Read(m2, a) == Read(n2, a) {
      assert Read(m, a) == Read(n, a);
    }
  }

  lemma CreateAgrees(m: Memory, n: Memory, base: nat, x: nat)
    requires Read(m, x) == Read(n, x)
    ensures Read(Create(m, base), x) == Read(Create(n, base), x)
  {
    CreateL1Reads(m, base, 4, x);
    CreateL1Reads(n, base, 4, x);
    CreateL2Reads(CreateL1(m, base, 4), base, 2048, x);
    CreateL2Reads(CreateL1(n, base, 4), base, 2048, x);
  }

  /** After any interleaving the table of a VM is what its own steps make of it. */
  lemma {:induction false} TableIsOwn(m: Memory, start: nat, acts: seq<VmAction>, v: nat)
    requires AreInRange(acts)
    ensures AgreeOn(Run(m, start, acts), Run(m, start, OnlyOf(acts, v)), VmBase(start, v))
  {
    if acts != [] {
      var before, a := acts[..|acts| - 1], acts[|acts| - 1];
      TableIsOwn(m, start, before, v);
      if a.vmid == v {
        OwnStepAgrees(Run(m, start, before), Run(m, start, OnlyOf(before, v)), start, a);
        assert (OnlyOf(before, v) + [a])[..|OnlyOf(before, v)|] == OnlyOf(before, v);
      } else {
        OthersStayOutside(Run(m, start, before), start, a, v);
      }
    }
  }

  /** The table of `v` was linked before, or is created in the run. */
  ghost predicate IsMade(m: Memory, start: nat, acts: seq<VmAction>, v: nat) {
    Linked(m, VmBase(start, v)) || CreateAction(v) in acts
  }

  lemma {:induction false} OwnStepsLink(m: Memory, start: nat, acts: seq<VmAction>, v: nat)
    requires IsBase(VmBase(start, v)) && AreInRange(acts) && IsMade(m, start, acts, v)
    requires forall k :: 0 <= k < |acts| ==> acts[k].vmid == v
    ensures Linked(Run(m, start, acts), VmBase(start, v))
  {
    if acts != [] {
      var before, a := acts[..|acts| - 1], acts[|acts| - 1];
      if a == CreateAction(v) {
        CreateLinks(Run(m, start, before), VmBase(start, v));
      } else {
        assert acts == before + [a];
        OwnStepsLink(m, start, before, v);
        WriteKeepsLinked(Run(m, start, before), VmBase(start, v), a.w);
      }
    }
  }

  lemma {:induction false} OnlyOfKeeps(acts: seq<VmAction>, v: nat)
    requires AreInRange(acts)
    ensures AreInRange(OnlyOf(acts, v)) && forall k :: 0 <= k < |OnlyOf(acts, v)| ==> OnlyOf(acts, v)[k].vmid == v
    ensures CreateAction(v) in acts ==> CreateAction(v) in OnlyOf(acts, v)
  {
    if acts != [] {
      var before, a := acts[..|acts| - 1], acts[|acts| - 1];
      OnlyOfKeeps(before, v);
      assert acts == before + [a];
    }
  }

  /** Whatever tables are created and filled in between, a VM translates every page as its own steps alone
      would have it. */
  lemma VmsAreIsolatedInRuns(m: Memory, start: nat, acts: seq<VmAction>, v: nat, page: nat)
    requires IsBase(VmBase(start, v)) && page < PAGES && AreInRange(acts) && IsMade(m, start, acts, v)
    ensures Lookup(Run(m, start, acts), VmBase(start, v), page)
            == Lookup(Run(m, start, OnlyOf(acts, v)), VmBase(start, v), page)
  {
    OnlyOfKeeps(acts, v);
    OwnStepsLink(m, start, OnlyOf(acts, v), v);
    TableIsOwn(m, start, acts, v);
    WalkStaysInside(Run(m, start, OnlyOf(acts, v)), Run(m, start, acts), VmBase(start, v), page);
  }

  /** The mappings of one VM, as steps. */
  function MapActions(v: nat, ws: seq<Mapping>): seq<VmAction> {
    if ws == [] then [] else MapActions(v, ws[..|ws| - 1]) + [MapAction(v, ws[|ws| - 1])]
  }

  /** Among the steps those for `v` are the creation of its table and then its descriptors, in order. */
  ghost predicate IsInitOf(acts: seq<VmAction>, v: nat, ds: seq<MemDesc>)
    requires AreDescs(ds)
  {
    OnlyOf(acts, v) == [CreateAction(v)] + MapActions(v, AllMappings(ds))
  }

  lemma RunWithLast(m: Memory, start: nat, acts: seq<VmAction>, a: VmAction)
    ensures Run(m, start, acts + [a]) == Do(Run(m, start, acts), start, a)
  {
    assert (acts + [a])[..|acts|] == acts;
  }

  lemma {:induction false} RunOfInit(m: Memory, start: nat, v: nat, ws: seq<Mapping>)
    ensures Run(m, start, [CreateAction(v)] + MapActions(v, ws))
            == WriteAll(Create(m, VmBase(start, v)), VmBase(start, v), ws)
  {
    if ws == [] {
      RunWithLast(m, start, [], CreateAction(v));
      assert [CreateAction(v)] + MapActions(v, ws) == [] + [CreateAction(v)];
    } else {
      var before, last := ws[..|ws| - 1], MapAction(v, ws[|ws| - 1]);
      var acts := [CreateAction(v)] + MapActions(v, before);
      assert [CreateAction(v)] + MapActions(v, ws) == acts + [last];
      RunOfInit(m, start, v, before);
      RunWithLast(m, start, acts, last);
    }
  }

  lemma {:induction false} OwnStepsOccur(acts: seq<VmAction>, v: nat, a: VmAction)
    requires a in OnlyOf(acts, v)
    ensures a in acts
  {
    if acts[|acts| - 1].vmid != v || a != acts[|acts| - 1] {
      OwnStepsOccur(acts[..|acts| - 1], v, a);
    }
  }

  /** However the initialisation of a VM interleaves with that of others, in the end the hardware translates its
      pages by the last of its own descriptors that covers them; an uncovered page faults, unless its group is
      covered: then the hardware reads the word that was there before the first step. */
  lemma VmTranslatesItsOwn(m: Memory, start: nat, acts: seq<VmAction>, v: nat, ds: seq<MemDesc>, page: nat)
    requires IsBase(VmBase(start, v)) && page < PAGES && AreInRange(acts)
    requires AreDescs(ds) && ds != [] && IsInitOf(acts, v, ds)
    ensures Lookup(Run(m, start, acts), VmBase(start, v), page)
            == match LastCovering(ds, page)
               case Some(leaf) => Some(leaf)
               case None => if GroupIsCovered(ds, page) then Some(ReadEntry(m, VmBase(start, v), page)) else None
  {
    OwnStepsOccur(acts, v, CreateAction(v));
    VmsAreIsolatedInRuns(m, start, acts, v, page);
    RunOfInit(m, start, v, AllMappings(ds));
    var mmap, dram := ds[..|ds| - 1], ds[|ds| - 1];
    assert ds == mmap + [dram];
    VmemTranslation(m, VmBase(start, v), mmap, dram, page);
  }
}

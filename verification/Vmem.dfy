/** Filling the table of a VM: paging_create, paging_add_ipa_mapping (arch/arm/paging.c) and vmem_init
    (core/vm/vmem.c), on the memory they write. */
module VmemModule {
  import opened ArithmeticModule
  import opened Common
  import opened PageTableModule

  /** struct memdesc_t; the list the source ends with a null label is the sequence before that. */
  datatype MemDesc = MemDesc(ipa: nat, pa: nat, size: nat, attr: nat, af: nat)

  /** A descriptor of 32-bit fields whose loop counter, a signed int, does not overflow. */
  predicate IsDesc(d: MemDesc) {
    d.ipa < ADDRESSES && d.pa < ADDRESSES && d.size <= 0x7FFF_F000
  }

  predicate AreDescs(ds: seq<MemDesc>) {
    forall j :: 0 <= j < |ds| ==> IsDesc(ds[j])
  }

  /** The number of pages the loop writes. */
  function PageCount(size: nat): nat {
    (size + PAGE - 1) / PAGE
  }

  /** An address advanced by `k` pages, as a 32-bit variable: it wraps around at 4 GB. */
  function Advance(a: nat, k: nat): nat {
    (a + k * PAGE) % ADDRESSES
  }

  /** The `k`-th write of paging_add_ipa_mapping. */
  function MappingOf(d: MemDesc, k: nat): Mapping {
    Mapping(Advance(d.ipa, k) / PAGE, SetEntry(Advance(d.pa, k), d.attr, 3, d.af))
  }

  function MappingsUpTo(d: MemDesc, n: nat): (ws: seq<Mapping>)
    ensures |ws| == n && InRange(ws) && forall k :: 0 <= k < n ==> ws[k] == MappingOf(d, k)
  {
    seq(n, k requires 0 <= k < n => MappingOf(d, k))
  }

  function Mappings(d: MemDesc): (ws: seq<Mapping>)
    ensures InRange(ws)
  {
    MappingsUpTo(d, PageCount(d.size))
  }

  /** All the writes for a list of descriptors, in order. */
  function AllMappings(ds: seq<MemDesc>): (ws: seq<Mapping>)
    ensures InRange(ws)
  {
    if ds == [] then [] else AllMappings(ds[..|ds| - 1]) + Mappings(ds[|ds| - 1])
  }

  lemma {:induction false} WriteAllAppends(m: Memory, base: nat, ws: seq<Mapping>, us: seq<Mapping>)
    ensures WriteAll(m, base, ws + us) == WriteAll(WriteAll(m, base, ws), base, us)
  {
    if us == [] {
      assert ws + us == ws;
    } else {
      assert (ws + us)[..|ws + us| - 1] == ws + us[..|us| - 1];
      WriteAllAppends(m, base, ws, us[..|us| - 1]);
    }
  }

  class PageTables {
    /** Physical memory, as far as page tables go. */
    var mem: Memory

    method PagingCreate(base: nat)
      modifies this
      ensures mem == Create(old(mem), base)
    {
      for i := 0 to 4
        invariant mem == CreateL1(old(mem), base, i)
      {
        mem := mem[L1Slot(base, i) := SetTable(L2Table(base, i))];
      }
      for i := 0 to 2048
        invariant mem == CreateL2(CreateL1(old(mem), base, 4), base, i)
      {
        mem := mem[L2Slot(base, i) := SetTable(L3Table(base, i))];
      }
    }

    method WritePgentry(base: nat, page: nat, pa: nat, memAttr: nat, ap: nat, af: nat)
      modifies this
      ensures mem == WriteEntry(old(mem), base, Mapping(page, SetEntry(pa, memAttr, ap, af)))
    {
      var a1, a2, a3 := L1Address(base, page), L2Address(base, page), L3Address(base, page);
      mem := mem[a1 := SetValid(Read(mem, a1))];
      mem := mem[a2 := SetValid(Read(mem, a2))];
      mem := mem[a3 := SetEntry(pa, memAttr, ap, af)];
    }

    /** `paging_add_ipa_mapping`. */
    method AddIpaMapping(base: nat, d: MemDesc)
      requires IsDesc(d)
      modifies this
      ensures mem == WriteAll(old(mem), base, Mappings(d))
    {
      var i, ipa, pa := 0, d.ipa, d.pa;
      ghost var k: nat := 0;
      while i < d.size
        invariant i == k * PAGE && (k == 0 || (k - 1) * PAGE < d.size)
        invariant ipa == Advance(d.ipa, k) && pa == Advance(d.pa, k)
        invariant mem == WriteAll(old(mem), base, MappingsUpTo(d, k))
        decreases d.size - i
      {
        WriteNext(old(mem), base, d, k);
        WritePgentry(base, ipa / PAGE, pa, d.attr, 3, d.af);
        AdvanceNext(d.ipa, k);
        AdvanceNext(d.pa, k);
        i, ipa, pa, k := i + PAGE, (ipa + PAGE) % ADDRESSES, (pa + PAGE) % ADDRESSES, k + 1;
      }
      CounterAtEnd(d.size, k);
    }

    /** The mappings vmem_init makes: the descriptors of the VM, then its DRAM window. */
    method VmemInit(base: nat, mmap: seq<MemDesc>, dram: MemDesc)
      requires IsDesc(dram) && AreDescs(mmap)
      modifies this
      ensures mem == WriteAll(old(mem), base, AllMappings(mmap + [dram]))
    {
      var j := 0;
      assert mmap[..0] == [];
      while j < |mmap|
        invariant 0 <= j <= |mmap|
        invariant mem == WriteAll(old(mem), base, AllMappings(mmap[..j]))
      {
        AddIpaMapping(base, mmap[j]);
        assert mmap[..j + 1][..j] == mmap[..j];
        WriteAllAppends(old(mem), base, AllMappings(mmap[..j]), Mappings(mmap[j]));
        j := j + 1;
      }
      AddIpaMapping(base, dram);
      assert mmap[..|mmap|] == mmap == (mmap + [dram])[..|mmap|];
      WriteAllAppends(old(mem), base, AllMappings(mmap), Mappings(dram));
    }
  }

  lemma WriteNext(m: Memory, base: nat, d: MemDesc, k: nat)
    ensures WriteAll(m, base, MappingsUpTo(d, k + 1))
            == WriteEntry(WriteAll(m, base, MappingsUpTo(d, k)), base, MappingOf(d, k))
  {
    assert MappingsUpTo(d, k + 1)[..k] == MappingsUpTo(d, k);
  }

  /** The loop counter stops at the first multiple of the page size that reaches the size. */
  lemma CounterAtEnd(size: nat, k: nat)
    requires k * PAGE >= size && (k == 0 || (k - 1) * PAGE < size)
    ensures k == PageCount(size)
  {
  }

  lemma AdvanceNext(a: nat, k: nat)
    ensures (Advance(a, k) + PAGE) % ADDRESSES == Advance(a, k + 1)
  {
    var x := a + k * PAGE;
    assert x % ADDRESSES + PAGE == x + PAGE - x / ADDRESSES * ADDRESSES;
  }

  // ----- the resulting translation -----

  /** The page lies in the window of the descriptor, which may wrap around. */
  predicate Covers(d: MemDesc, page: nat) {
    (page + PAGES - d.ipa / PAGE) % PAGES < PageCount(d.size)
  }

  /** The leaf the descriptor gives to a page it covers. */
  function LeafOf(d: MemDesc, page: nat): nat
    requires page < PAGES && d.ipa < ADDRESSES
  {
    SetEntry(Advance(d.pa, (page + PAGES - d.ipa / PAGE) % PAGES), d.attr, 3, d.af)
  }

  lemma PageOfMapping(d: MemDesc, k: nat, page: nat)
    requires IsDesc(d) && k < PAGES && page < PAGES
    ensures MappingOf(d, k).page == page <==> k == (page + PAGES - d.ipa / PAGE) % PAGES
  {
    var q := d.ipa / PAGE;
    assert Advance(d.ipa, k) / PAGE == (q + k) % PAGES;
  }

  lemma {:induction false} LastOfMappings(d: MemDesc, n: nat, page: nat)
    requires IsDesc(d) && n <= PAGES && page < PAGES
    ensures LastFor(MappingsUpTo(d, n), page)
            == if (page + PAGES - d.ipa / PAGE) % PAGES < n then Some(LeafOf(d, page)) else None
  {
    if n > 0 {
      assert MappingsUpTo(d, n)[..n - 1] == MappingsUpTo(d, n - 1);
      LastOfMappings(d, n - 1, page);
      PageOfMapping(d, n - 1, page);
    }
  }

  lemma LastOfDesc(d: MemDesc, page: nat)
    requires IsDesc(d) && page < PAGES
    ensures LastFor(Mappings(d), page) == if Covers(d, page) then Some(LeafOf(d, page)) else None
  {
    LastOfMappings(d, PageCount(d.size), page);
  }

  lemma {:induction false} LastOfConcat(ws: seq<Mapping>, us: seq<Mapping>, page: nat)
    ensures LastFor(ws + us, page) == if LastFor(us, page).Some? then LastFor(us, page) else LastFor(ws, page)
  {
    if us == [] {
      assert ws + us == ws;
    } else {
      assert (ws + us)[..|ws + us| - 1] == ws + us[..|us| - 1];
      LastOfConcat(ws, us[..|us| - 1], page);
    }
  }

  /** The last descriptor that covers the page decides. */
  function LastCovering(ds: seq<MemDesc>, page: nat): Option<nat>
    requires page < PAGES && AreDescs(ds)
  {
    if ds == [] then None
    else if Covers(ds[|ds| - 1], page) then Some(LeafOf(ds[|ds| - 1], page))
    else LastCovering(ds[..|ds| - 1], page)
  }

  lemma {:induction false} LastWriterIsLastCovering(ds: seq<MemDesc>, page: nat)
    requires page < PAGES && AreDescs(ds)
    ensures LastFor(AllMappings(ds), page) == LastCovering(ds, page)
  {
    if ds != [] {
      var d := ds[|ds| - 1];
      LastWriterIsLastCovering(ds[..|ds| - 1], page);
      LastOfConcat(AllMappings(ds[..|ds| - 1]), Mappings(d), page);
      LastOfDesc(d, page);
    }
  }

  /** Some descriptor covers a page that shares the second-level entry of `page`. */
  ghost predicate GroupIsCovered(ds: seq<MemDesc>, page: nat)
    requires AreDescs(ds)
  {
    exists p: nat :: p < PAGES && p / 512 == page / 512 && LastCovering(ds, p).Some?
  }

  lemma {:induction false} TouchedBy(ws: seq<Mapping>, page: nat) returns (p: nat)
    requires InRange(ws) && Touched(ws, page)
    ensures p < PAGES && p / 512 == page / 512 && LastFor(ws, p).Some?
  {
    if ws[|ws| - 1].page / 512 == page / 512 {
      p := ws[|ws| - 1].page;
    } else {
      p := TouchedBy(ws[..|ws| - 1], page);
    }
  }

  lemma {:induction false} TouchedTogether(ws: seq<Mapping>, p: nat, page: nat)
    requires LastFor(ws, p).Some? && p / 512 == page / 512
    ensures Touched(ws, page)
  {
    if ws[|ws| - 1].page != p {
      TouchedTogether(ws[..|ws| - 1], p, page);
    }
  }

  lemma TouchedExactlyWhen(ds: seq<MemDesc>, page: nat)
    requires AreDescs(ds)
    ensures Touched(AllMappings(ds), page) <==> GroupIsCovered(ds, page)
  {
    var ws := AllMappings(ds);
    if Touched(ws, page) {
      var p := TouchedBy(ws, page);
      LastWriterIsLastCovering(ds, p);
    } else if GroupIsCovered(ds, page) {
      var p: nat :| p < PAGES && p / 512 == page / 512 && LastCovering(ds, p).Some?;
      LastWriterIsLastCovering(ds, p);
      TouchedTogether(ws, p, page);
    }
  }

  /** After the table of a VM has been created and filled, the hardware translates every page by the last
      descriptor that covers it, the DRAM window coming last. A page no descriptor covers faults, unless one
      covers a page of the same group: then the hardware reads the third-level word that was in memory before. */
  lemma VmemTranslation(m: Memory, base: nat, mmap: seq<MemDesc>, dram: MemDesc, page: nat)
    requires IsBase(base) && page < PAGES
    requires IsDesc(dram) && AreDescs(mmap)
    ensures AreDescs(mmap + [dram])
    ensures Lookup(WriteAll(Create(m, base), base, AllMappings(mmap + [dram])), base, page)
            == match LastCovering(mmap + [dram], page)
               case Some(leaf) => Some(leaf)
               case None => if GroupIsCovered(mmap + [dram], page) then Some(ReadEntry(m, base, page)) else None
  {
    var ds := mmap + [dram];
    LastWriterIsLastCovering(ds, page);
    TouchedExactlyWhen(ds, page);
    LookupAfterWrites(m, base, AllMappings(ds), page);
  }

  // ----- byte by byte -----

  /** Where the hardware finds an address: the page frame of the leaf, and the offset in the page. */
  function Translate(m: Memory, base: nat, a: nat): Option<nat> {
    match Lookup(m, base, a / PAGE)
    case None => None
    case Some(leaf) => if Followed(leaf) then Some(BaseField(leaf) * PAGE + a % PAGE) else None
  }

  /** The page of the byte at offset `o` of the window: as many pages on as the bytes before it fill. */
  lemma PageOfByte(a: nat, o: nat)
    requires a < ADDRESSES
    ensures var k := (a % PAGE + o) / PAGE;
            && ((a + o) % ADDRESSES) / PAGE == (a / PAGE + k) % PAGES == Advance(a, k) / PAGE
            && (a + o) % ADDRESSES % PAGE == (a % PAGE + o) % PAGE
  {
    var k, r := (a % PAGE + o) / PAGE, (a % PAGE + o) % PAGE;
    assert a + o == (a / PAGE + k) * PAGE + r;
    PageInSpace(a / PAGE + k, r);
    assert a + k * PAGE == (a / PAGE + k) * PAGE + a % PAGE;
    PageInSpace(a / PAGE + k, a % PAGE);
  }

  /** The address space is a whole number of pages. */
  lemma PageInSpace(q: nat, r: nat)
    requires r < PAGE
    ensures ((q * PAGE + r) % ADDRESSES) / PAGE == q % PAGES && (q * PAGE + r) % ADDRESSES % PAGE == r
  {
    assert q * PAGE + r == (q % PAGES * PAGE + r) + q / PAGES * ADDRESSES;
    DivShifts(q % PAGES * PAGE + r, q / PAGES, ADDRESSES);
    assert q % PAGES * PAGE + r < ADDRESSES;
    DivModOf(q % PAGES, r, PAGE);
  }

  /** How far a page is into the window. */
  lemma PagesIntoWindow(q: nat, k: nat)
    requires q < PAGES && k < PAGES
    ensures ((q + k) % PAGES + PAGES - q) % PAGES == k
  {
  }

  /** An address that many bytes on, in a 32-bit address space. */
  function Advanced(a: nat, o: nat): (r: nat)
    ensures r < ADDRESSES
  {
    (a + o) % ADDRESSES
  }

  /** The same for a page-aligned address. */
  lemma PageOfAligned(a: nat, o: nat)
    requires a < ADDRESSES && a % PAGE == 0
    ensures Advanced(a, o) / PAGE == (a / PAGE + o / PAGE) % PAGES == Advance(a, o / PAGE) / PAGE
    ensures Advanced(a, o) % PAGE == o % PAGE
  {
    PageOfByte(a, o);
  }

  /** A page-aligned window covers the page of each of its bytes, and gives it the leaf of that place. */
  lemma ByteIsCovered(d: MemDesc, o: nat)
    requires IsDesc(d) && d.ipa % PAGE == 0 && o < d.size
    ensures var page := Advanced(d.ipa, o) / PAGE;
            page < PAGES && Covers(d, page) && LeafOf(d, page) == SetEntry(Advance(d.pa, o / PAGE), d.attr, 3, d.af)
  {
    PageOfAligned(d.ipa, o);
    PagesIntoWindow(d.ipa / PAGE, o / PAGE);
  }

  /** The first byte of a page that the window covers. */
  lemma CoveredHasByte(d: MemDesc, page: nat) returns (o: nat)
    requires IsDesc(d) && d.ipa % PAGE == 0 && page < PAGES && Covers(d, page)
    ensures o < d.size && Advanced(d.ipa, o) / PAGE == page
  {
    var k := (page + PAGES - d.ipa / PAGE) % PAGES;
    o := k * PAGE;
    PageOfAligned(d.ipa, o);
  }

  /** It covers exactly the pages in which it has a byte. */
  lemma CoversExactlyWhen(d: MemDesc, page: nat)
    requires IsDesc(d) && d.ipa % PAGE == 0 && page < PAGES
    ensures Covers(d, page) <==> exists o: nat :: o < d.size && Advanced(d.ipa, o) / PAGE == page
  {
    if Covers(d, page) {
      var o := CoveredHasByte(d, page);
    }
    if o: nat :| o < d.size && Advanced(d.ipa, o) / PAGE == page {
      ByteIsCovered(d, o);
    }
  }

  /** The leaf carries the memory attributes and the access flag, each as far as it fits its field, and grants
      reading and writing. */
  predicate HasAttributes(leaf: nat, attr: nat, af: nat) {
    leaf / 4 % 16 == attr % 16 && leaf / 64 % 4 == 3 && leaf / 1024 % 2 == af % 2
  }

  /** A leaf of the window translates to the byte at the same offset. */
  lemma LeafTranslates(d: MemDesc, o: nat, leaf: nat)
    requires IsDesc(d) && d.ipa % PAGE == 0 && d.pa % PAGE == 0
    requires leaf == SetEntry(Advance(d.pa, o / PAGE), d.attr, 3, d.af)
    ensures Followed(leaf) && BaseField(leaf) * PAGE + Advanced(d.ipa, o) % PAGE == Advanced(d.pa, o)
    ensures HasAttributes(leaf, d.attr, d.af)
  {
    SetEntryDecodes(Advance(d.pa, o / PAGE), d.attr, 3, d.af);
    PageOfAligned(d.ipa, o);
    PageOfAligned(d.pa, o);
  }

  /** The last window that covers the page of a byte gives the leaf. */
  lemma WindowLeaf(m: Memory, base: nat, mmap: seq<MemDesc>, dram: MemDesc, j: nat, o: nat)
    requires IsBase(base) && IsDesc(dram) && AreDescs(mmap) && j <= |mmap|
    requires (mmap + [dram])[j].ipa % PAGE == 0 && o < (mmap + [dram])[j].size
    requires IsLastFor(mmap + [dram], j, o)
    ensures var d := (mmap + [dram])[j];
            Lookup(WriteAll(Create(m, base), base, AllMappings(mmap + [dram])), base, Advanced(d.ipa, o) / PAGE)
            == Some(SetEntry(Advance(d.pa, o / PAGE), d.attr, 3, d.af))
  {
    var ds := mmap + [dram];
    var page := Advanced(ds[j].ipa, o) / PAGE;
    ByteIsCovered(ds[j], o);
    LastCoveringIs(ds, j, page);
    VmemTranslation(m, base, mmap, dram, page);
  }

  /** No later window covers the page of that byte. */
  ghost predicate IsLastFor(ds: seq<MemDesc>, j: nat, o: nat)
    requires j < |ds|
  {
    forall i :: j < i < |ds| ==> !Covers(ds[i], Advanced(ds[j].ipa, o) / PAGE)
  }

  /** With that leaf in the table, the hardware finds the byte. */
  lemma FoundByte(m: Memory, base: nat, d: MemDesc, o: nat)
    requires IsDesc(d) && d.ipa % PAGE == 0 && d.pa % PAGE == 0
    requires Lookup(m, base, Advanced(d.ipa, o) / PAGE) == Some(SetEntry(Advance(d.pa, o / PAGE), d.attr, 3, d.af))
    ensures Translate(m, base, Advanced(d.ipa, o)) == Some(Advanced(d.pa, o))
    ensures HasAttributes(Lookup(m, base, Advanced(d.ipa, o) / PAGE).value, d.attr, d.af)
  {
    LeafTranslates(d, o, SetEntry(Advance(d.pa, o / PAGE), d.attr, 3, d.af));
  }

  /** Every byte of a page-aligned window whose page no later window covers is found at the same offset from its
      physical address, across the end of the address space as well, with the attributes of the window. */
  lemma WindowTranslates(m: Memory, base: nat, mmap: seq<MemDesc>, dram: MemDesc, j: nat, o: nat)
    requires IsBase(base) && IsDesc(dram) && AreDescs(mmap) && j <= |mmap|
    requires var d := (mmap + [dram])[j]; d.ipa % PAGE == 0 && d.pa % PAGE == 0 && o < d.size
    requires IsLastFor(mmap + [dram], j, o)
    ensures var d := (mmap + [dram])[j];
            var n := WriteAll(Create(m, base), base, AllMappings(mmap + [dram]));
            && Translate(n, base, Advanced(d.ipa, o)) == Some(Advanced(d.pa, o))
            && HasAttributes(Lookup(n, base, Advanced(d.ipa, o) / PAGE).value, d.attr, d.af)
  {
    WindowLeaf(m, base, mmap, dram, j, o);
    FoundByte(WriteAll(Create(m, base), base, AllMappings(mmap + [dram])), base, (mmap + [dram])[j], o);
  }

  lemma {:induction false} LastCoveringIs(ds: seq<MemDesc>, j: nat, page: nat)
    requires AreDescs(ds) && page < PAGES && j < |ds| && Covers(ds[j], page)
    requires forall i :: j < i < |ds| ==> !Covers(ds[i], page)
    ensures LastCovering(ds, page) == Some(LeafOf(ds[j], page))
  {
    if j < |ds| - 1 {
      LastCoveringIs(ds[..|ds| - 1], j, page);
    }
  }
}

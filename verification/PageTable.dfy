/** The stage-2 page table of a VM (arch/arm/lpae.h, lpae.c, paging.c): a three-level table laid out in
    one block of memory, so that the entry of a page is found by arithmetic alone. */
module PageTableModule {
  import opened ArithmeticModule
  import opened Common

  /** Memory as 64-bit words at word addresses. */
  type Memory = map<nat, nat>

  function Read(m: Memory, a: nat): nat {
    if a in m then m[a] else 0
  }

  const PAGE: nat := 0x1000
  const PAGES: nat := 0x10_0000
  const TABLE_SIZE: nat := 0x80_5000
  const ADDRESSES: nat := 0x1_0000_0000

  // ----- descriptors -----

  /** The bit fields of union lpae_t that the walk looks at. */
  function ValidBit(d: nat): nat { d % 2 }
  function TypeBit(d: nat): nat { (d / 2) % 2 }
  function BaseField(d: nat): nat { (d / PAGE) % 0x1000_0000 }

  /** `set_table(pa)`: not valid yet, type 1. */
  function SetTable(pa: nat): nat {
    2 + pa / PAGE * PAGE
  }

  /** `d | set_valid`. */
  function SetValid(d: nat): nat {
    if d % 2 == 0 then d + 1 else d
  }

  /** `set_entry(pa, mem_attr, ap, af)`: valid, type 1, sh 3, ng 1; each argument is cut to its field. */
  function SetEntry(pa: nat, memAttr: nat, ap: nat, af: nat): nat {
    1 + 2 + memAttr % 16 * 4 + ap % 4 * 64 + 3 * 256 + af % 2 * 1024 + 2048 + pa / PAGE * PAGE
  }

  // ----- the layout -----

  /** The three indices of a page number. */
  function L1Index(page: nat): nat { page / 0x4_0000 % 4 }
  function L2Index(page: nat): nat { page / 512 % 512 }
  function L3Index(page: nat): nat { page % 512 }

  /** The entry addresses as write_pgentry computes them. */
  function L1Address(base: nat, page: nat): nat {
    base + L1Index(page) * 8
  }

  function L2Address(base: nat, page: nat): nat {
    base + 0x1000 + L1Index(page) * PAGE + L2Index(page) * 8
  }

  function L3Address(base: nat, page: nat): nat {
    base + 0x5000 + L1Index(page) * 0x20_0000 + L2Index(page) * PAGE + L3Index(page) * 8
  }

  /** The slots of the second-level tables, one after the other, and the tables they lead to. */
  function L1Slot(base: nat, i: nat): nat { base + i * 8 }
  function L2Slot(base: nat, j: nat): nat { base + 0x1000 + j * 8 }
  function L2Table(base: nat, i: nat): nat { base + 0x1000 + i * PAGE }
  function L3Table(base: nat, j: nat): nat { base + 0x5000 + j * PAGE }

  /** A base the table can have: page aligned, and the block ends below 4 GB. */
  predicate IsBase(base: nat) {
    base % PAGE == 0 && base + TABLE_SIZE <= ADDRESSES
  }

  /** The layout is flat: second- and third-level entries lie in page order. */
  lemma LayoutIsFlat(base: nat, page: nat)
    requires page < PAGES
    ensures page == L1Index(page) * 0x4_0000 + L2Index(page) * 512 + L3Index(page)
    ensures L1Address(base, page) == base + page / 0x4_0000 * 8
    ensures L2Address(base, page) == base + 0x1000 + page / 512 * 8
    ensures L3Address(base, page) == base + 0x5000 + page * 8
  {
  }

  // ----- creating and writing -----

  function CreateL1(m: Memory, base: nat, n: nat): Memory {
    if n == 0 then m else CreateL1(m, base, n - 1)[L1Slot(base, n - 1) := SetTable(L2Table(base, n - 1))]
  }

  function CreateL2(m: Memory, base: nat, n: nat): Memory {
    if n == 0 then m else CreateL2(m, base, n - 1)[L2Slot(base, n - 1) := SetTable(L3Table(base, n - 1))]
  }

  /** `paging_create(base)`. */
  function Create(m: Memory, base: nat): Memory {
    CreateL2(CreateL1(m, base, 4), base, 2048)
  }

  /** One call of write_pgentry: a page number and the leaf descriptor. */
  datatype Mapping = Mapping(page: nat, entry: nat)

  /** `write_pgentry`. */
  function WriteEntry(m: Memory, base: nat, w: Mapping): Memory {
    var a1, a2 := L1Address(base, w.page), L2Address(base, w.page);
    var m1 := m[a1 := SetValid(Read(m, a1))];
    var m2 := m1[a2 := SetValid(Read(m1, a2))];
    m2[L3Address(base, w.page) := w.entry]
  }

  function WriteAll(m: Memory, base: nat, ws: seq<Mapping>): Memory {
    if ws == [] then m else WriteEntry(WriteAll(m, base, ws[..|ws| - 1]), base, ws[|ws| - 1])
  }

  /** `read_pgentry`. */
  function ReadEntry(m: Memory, base: nat, page: nat): nat {
    Read(m, L3Address(base, page))
  }

  // ----- what the memory management unit does -----

  /** A table descriptor the walk may follow: valid and of type 1. */
  predicate Followed(d: nat) {
    ValidBit(d) == 1 && TypeBit(d) == 1
  }

  /** The address of the third-level entry the hardware reaches for a page, or a translation fault. */
  function Walk(m: Memory, base: nat, page: nat): Option<nat> {
    var d1 := Read(m, base + L1Index(page) * 8);
    if !Followed(d1) then None
    else
      var d2 := Read(m, BaseField(d1) * PAGE + L2Index(page) * 8);
      if !Followed(d2) then None
      else Some(BaseField(d2) * PAGE + L3Index(page) * 8)
  }

  /** What the walk finds at its end. */
  function Lookup(m: Memory, base: nat, page: nat): Option<nat> {
    match Walk(m, base, page)
    case Some(a) => Some(Read(m, a))
    case None => None
  }

  // ----- the table after any sequence of writes -----

  /** Every table descriptor points where the layout has the next level. */
  ghost predicate Linked(m: Memory, base: nat) {
    && (forall i :: 0 <= i < 4 ==> PointsTo(Read(m, L1Slot(base, i)), L2Table(base, i)))
    && (forall j :: 0 <= j < 2048 ==> PointsTo(Read(m, L2Slot(base, j)), L3Table(base, j)))
  }

  predicate PointsTo(d: nat, table: nat) {
    TypeBit(d) == 1 && BaseField(d) * PAGE == table
  }

  /** A table descriptor holds its table's address exactly when that is page aligned. */
  lemma SetTablePointsTo(table: nat)
    requires table < ADDRESSES
    ensures PointsTo(SetTable(table), table) <==> table % PAGE == 0
    ensures ValidBit(SetTable(table)) == 0
  {
    var q, d := table / PAGE, SetTable(table);
    DivModOf(q, 2, PAGE);
    assert d == q * PAGE + 2 && d == (q * 2048 + 1) * 2;
    DivModOf(q * 2048 + 1, 0, 2);
    DivModOf(q * 1024, 1, 2);
  }

  lemma SetValidKeepsTable(d: nat, table: nat)
    requires PointsTo(d, table)
    ensures PointsTo(SetValid(d), table) && ValidBit(SetValid(d)) == 1
  {
  }

  lemma {:induction false} CreateL1Reads(m: Memory, base: nat, n: nat, a: nat)
    ensures Read(CreateL1(m, base, n), a)
            == if base <= a < base + n * 8 && (a - base) % 8 == 0 then SetTable(L2Table(base, (a - base) / 8))
               else Read(m, a)
  {
    if n > 0 {
      CreateL1Reads(m, base, n - 1, a);
    }
  }

  lemma {:induction false} CreateL2Reads(m: Memory, base: nat, n: nat, a: nat)
    ensures Read(CreateL2(m, base, n), a)
            == if base + 0x1000 <= a < base + 0x1000 + n * 8 && (a - base) % 8 == 0
               then SetTable(L3Table(base, (a - base - 0x1000) / 8))
               else Read(m, a)
  {
    if n > 0 {
      CreateL2Reads(m, base, n - 1, a);
    }
  }

  /** The descriptors paging_create leaves behind. */
  lemma CreateReadsL1(m: Memory, base: nat, i: nat)
    requires i < 4
    ensures Read(Create(m, base), L1Slot(base, i)) == SetTable(L2Table(base, i))
  {
    CreateL1Reads(m, base, 4, L1Slot(base, i));
    CreateL2Reads(CreateL1(m, base, 4), base, 2048, L1Slot(base, i));
  }

  lemma CreateReadsL2(m: Memory, base: nat, j: nat)
    requires j < 2048
    ensures Read(Create(m, base), L2Slot(base, j)) == SetTable(L3Table(base, j))
  {
    CreateL2Reads(CreateL1(m, base, 4), base, 2048, L2Slot(base, j));
  }

  lemma CreateReadsLeaf(m: Memory, base: nat, a: nat)
    requires a >= base + 0x5000
    ensures Read(Create(m, base), a) == Read(m, a)
  {
    CreateL1Reads(m, base, 4, a);
    CreateL2Reads(CreateL1(m, base, 4), base, 2048, a);
  }

  lemma CreatedTable(m: Memory, base: nat, table: nat)
    requires IsBase(base) && table % PAGE == 0 && base <= table <= base + TABLE_SIZE - PAGE
    ensures PointsTo(SetTable(table), table) && ValidBit(SetTable(table)) == 0
  {
    SetTablePointsTo(table);
  }

  lemma CreateLinksL1(m: Memory, base: nat, i: nat)
    requires IsBase(base) && i < 4
    ensures PointsTo(Read(Create(m, base), L1Slot(base, i)), L2Table(base, i))
  {
    CreateReadsL1(m, base, i);
    CreatedTable(m, base, L2Table(base, i));
  }

  lemma CreateLinksL2(m: Memory, base: nat, j: nat)
    requires IsBase(base) && j < 2048
    ensures PointsTo(Read(Create(m, base), L2Slot(base, j)), L3Table(base, j))
  {
    CreateReadsL2(m, base, j);
    CreatedTable(m, base, L3Table(base, j));
  }

  /** paging_create links all the levels. */
  lemma CreateLinks(m: Memory, base: nat)
    requires IsBase(base)
    ensures Linked(Create(m, base), base)
  {
    forall i | 0 <= i < 4 ensures PointsTo(Read(Create(m, base), L1Slot(base, i)), L2Table(base, i)) {
      CreateLinksL1(m, base, i);
    }
    forall j | 0 <= j < 2048
      ensures PointsTo(Read(Create(m, base), L2Slot(base, j)), L3Table(base, j))
    {
      CreateLinksL2(m, base, j);
    }
  }

  /** It leaves every descriptor not valid, and touches no leaf. */
  lemma CreatedEntry(m: Memory, base: nat, page: nat)
    requires IsBase(base) && page < PAGES
    ensures ValidBit(Read(Create(m, base), L1Address(base, page))) == 0
    ensures ValidBit(Read(Create(m, base), L2Address(base, page))) == 0
    ensures ReadEntry(Create(m, base), base, page) == ReadEntry(m, base, page)
  {
    LayoutIsFlat(base, page);
    var i, j := page / 0x4_0000, page / 512;
    CreateReadsL1(m, base, i);
    CreatedTable(m, base, L2Table(base, i));
    CreateReadsL2(m, base, j);
    CreatedTable(m, base, L3Table(base, j));
    CreateReadsLeaf(m, base, L3Address(base, page));
  }

  /** What one write changes: the leaf, and the valid bits on the way to it. */
  lemma WriteEntryReads(m: Memory, base: nat, w: Mapping, a: nat)
    requires w.page < PAGES
    ensures Read(WriteEntry(m, base, w), a)
            == if a == L3Address(base, w.page) then w.entry
               else if a == L1Address(base, w.page) || a == L2Address(base, w.page) then SetValid(Read(m, a))
               else Read(m, a)
  {
    LayoutIsFlat(base, w.page);
  }

  /** One write, seen from the entries of another page. */
  lemma WriteSeenFrom(m: Memory, base: nat, w: Mapping, page: nat)
    requires w.page < PAGES && page < PAGES
    ensures var n := WriteEntry(m, base, w);
            && ReadEntry(n, base, page) == (if w.page == page then w.entry else ReadEntry(m, base, page))
            && ValidBit(Read(n, L2Address(base, page)))
               == (if w.page / 512 == page / 512 then 1 else ValidBit(Read(m, L2Address(base, page))))
            && ValidBit(Read(n, L1Address(base, page)))
               == (if w.page / 0x4_0000 == page / 0x4_0000 then 1 else ValidBit(Read(m, L1Address(base, page))))
  {
    LayoutIsFlat(base, page);
    LayoutIsFlat(base, w.page);
    WriteEntryReads(m, base, w, L1Address(base, page));
    WriteEntryReads(m, base, w, L2Address(base, page));
    WriteEntryReads(m, base, w, L3Address(base, page));
  }

  /** A write changes a table descriptor at most by making it valid. */
  lemma WriteKeepsPointer(m: Memory, base: nat, w: Mapping, a: nat, table: nat)
    requires w.page < PAGES && a < base + 0x5000 && PointsTo(Read(m, a), table)
    ensures PointsTo(Read(WriteEntry(m, base, w), a), table)
  {
    LayoutIsFlat(base, w.page);
    WriteEntryReads(m, base, w, a);
    SetValidKeepsTable(Read(m, a), table);
  }

  lemma WriteKeepsLinked(m: Memory, base: nat, w: Mapping)
    requires Linked(m, base) && w.page < PAGES
    ensures Linked(WriteEntry(m, base, w), base)
  {
    var n := WriteEntry(m, base, w);
    forall i | 0 <= i < 4 ensures PointsTo(Read(n, L1Slot(base, i)), L2Table(base, i)) {
      WriteKeepsPointer(m, base, w, L1Slot(base, i), L2Table(base, i));
    }
    forall j | 0 <= j < 2048 ensures PointsTo(Read(n, L2Slot(base, j)), L3Table(base, j)) {
      WriteKeepsPointer(m, base, w, L2Slot(base, j), L3Table(base, j));
    }
  }

  /** Where the two descriptors on the way to a page point. */
  lemma LinksOfPage(m: Memory, base: nat, page: nat)
    requires Linked(m, base) && page < PAGES
    ensures PointsTo(Read(m, L1Address(base, page)), L2Table(base, L1Index(page)))
    ensures PointsTo(Read(m, L2Address(base, page)), L3Table(base, page / 512))
  {
    LayoutIsFlat(base, page);
    var i, j := L1Index(page), page / 512;
    assert 0 <= i < 4 && L1Address(base, page) == L1Slot(base, i);
    assert 0 <= j < 2048 && L2Address(base, page) == L2Slot(base, j);
  }

  /** The walk through descriptors that point to `t1` and `t2`. */
  lemma WalkOf(m: Memory, base: nat, page: nat, t1: nat, t2: nat)
    requires PointsTo(Read(m, base + L1Index(page) * 8), t1) && PointsTo(Read(m, t1 + L2Index(page) * 8), t2)
    ensures Walk(m, base, page)
            == if ValidBit(Read(m, base + L1Index(page) * 8)) == 1 && ValidBit(Read(m, t1 + L2Index(page) * 8)) == 1
               then Some(t2 + L3Index(page) * 8) else None
  {
  }

  /** On a linked table the walk faults if a descriptor on the way is not valid; otherwise it ends at the
      very address the flat arithmetic gives, `base + 0x5000 + 8 * page`. */
  lemma WalkEqualsFlat(m: Memory, base: nat, page: nat)
    requires Linked(m, base) && page < PAGES
    ensures Walk(m, base, page)
            == if ValidBit(Read(m, L1Address(base, page))) == 1 && ValidBit(Read(m, L2Address(base, page))) == 1
               then Some(base + 0x5000 + page * 8) else None
    ensures L3Address(base, page) == base + 0x5000 + page * 8
  {
    LinksOfPage(m, base, page);
    LeafOfTable(base, page);
    WalkOf(m, base, page, L2Table(base, L1Index(page)), L3Table(base, page / 512));
  }

  /** The third-level table of a page, and the page's place in it. */
  lemma LeafOfTable(base: nat, page: nat)
    requires page < PAGES
    ensures L3Table(base, page / 512) + L3Index(page) * 8 == L3Address(base, page) == base + 0x5000 + page * 8
    ensures L2Table(base, L1Index(page)) + L2Index(page) * 8 == L2Address(base, page)
  {
    LayoutIsFlat(base, page);
  }

  lemma LookupIsFlat(m: Memory, base: nat, page: nat)
    requires Linked(m, base) && page < PAGES
    ensures Lookup(m, base, page)
            == if ValidBit(Read(m, L1Address(base, page))) == 1 && ValidBit(Read(m, L2Address(base, page))) == 1
               then Some(ReadEntry(m, base, page)) else None
  {
    WalkEqualsFlat(m, base, page);
  }

  predicate InRange(ws: seq<Mapping>) {
    forall k :: 0 <= k < |ws| ==> ws[k].page < PAGES
  }

  /** The last mapping written for a page. */
  function LastFor(ws: seq<Mapping>, page: nat): Option<nat> {
    if ws == [] then None
    else if ws[|ws| - 1].page == page then Some(ws[|ws| - 1].entry)
    else LastFor(ws[..|ws| - 1], page)
  }

  /** Some page that shares the second-level entry of `page` was mapped. */
  predicate Touched(ws: seq<Mapping>, page: nat) {
    ws != [] && (ws[|ws| - 1].page / 512 == page / 512 || Touched(ws[..|ws| - 1], page))
  }

  /** Some page that shares the first-level entry of `page` was mapped. */
  predicate TouchedL1(ws: seq<Mapping>, page: nat) {
    ws != [] && (ws[|ws| - 1].page / 0x4_0000 == page / 0x4_0000 || TouchedL1(ws[..|ws| - 1], page))
  }

  lemma {:induction false} TouchedImpliesL1(ws: seq<Mapping>, page: nat)
    requires Touched(ws, page)
    ensures TouchedL1(ws, page)
  {
    if ws[|ws| - 1].page / 512 != page / 512 {
      TouchedImpliesL1(ws[..|ws| - 1], page);
    }
  }

  /** The table after any sequence of writes since it was created. */
  lemma {:induction false} TableAfterWrites(m: Memory, base: nat, ws: seq<Mapping>, page: nat)
    requires IsBase(base) && InRange(ws) && page < PAGES
    ensures var n := WriteAll(Create(m, base), base, ws);
            && Linked(n, base)
            && ReadEntry(n, base, page)
               == (match LastFor(ws, page) case Some(e) => e case None => ReadEntry(m, base, page))
            && (ValidBit(Read(n, L2Address(base, page))) == 1 <==> Touched(ws, page))
            && (ValidBit(Read(n, L1Address(base, page))) == 1 <==> TouchedL1(ws, page))
  {
    if ws == [] {
      CreateLinks(m, base);
      CreatedEntry(m, base, page);
    } else {
      var before, w := ws[..|ws| - 1], ws[|ws| - 1];
      var n := WriteAll(Create(m, base), base, before);
      TableAfterWrites(m, base, before, page);
      WriteKeepsLinked(n, base, w);
      WriteSeenFrom(n, base, w, page);
    }
  }

  /** What the hardware finds after any sequence of writes: the last mapping of the page.  A page that was
      never mapped faults, unless a neighbour made its second-level entry valid: then the hardware reads the
      third-level word that was there before the table was created. */
  lemma LookupAfterWrites(m: Memory, base: nat, ws: seq<Mapping>, page: nat)
    requires IsBase(base) && InRange(ws) && page < PAGES
    ensures Lookup(WriteAll(Create(m, base), base, ws), base, page)
            == match LastFor(ws, page)
               case Some(e) => Some(e)
               case None => if Touched(ws, page) then Some(ReadEntry(m, base, page)) else None
  {
    var n := WriteAll(Create(m, base), base, ws);
    TableAfterWrites(m, base, ws, page);
    LookupIsFlat(n, base, page);
    LayoutIsFlat(base, page);
    if Touched(ws, page) {
      TouchedImpliesL1(ws, page);
      assert Lookup(n, base, page) == Some(ReadEntry(n, base, page));
    } else {
      assert Lookup(n, base, page) == None;
      if LastFor(ws, page).Some? {
        MappedIsTouched(ws, page);
      }
    }
  }

  lemma {:induction false} MappedIsTouched(ws: seq<Mapping>, page: nat)
    requires LastFor(ws, page).Some?
    ensures Touched(ws, page)
  {
    if ws[|ws| - 1].page != page {
      MappedIsTouched(ws[..|ws| - 1], page);
    }
  }

  /** A mapped page translates to the page frame it was mapped to, with the attributes it was given. */
  lemma SetEntryDecodes(pa: nat, memAttr: nat, ap: nat, af: nat)
    requires pa < ADDRESSES
    ensures var d := SetEntry(pa, memAttr, ap, af);
            && ValidBit(d) == 1 && TypeBit(d) == 1
            && BaseField(d) * PAGE == pa / PAGE * PAGE
            && d / 4 % 16 == memAttr % 16 && d / 64 % 4 == ap % 4 && d / 256 % 4 == 3 && d / 1024 % 2 == af % 2
            && d / 2048 % 2 == 1 && d < ADDRESSES
  {
    var a, p, f, q := memAttr % 16, ap % 4, af % 2, pa / PAGE;
    var low := 1 + 2 + a * 4 + p * 64 + 3 * 256 + f * 1024 + 2048;
    LowFields(a, p, f);
    AboveLow(low, q);
    assert SetEntry(pa, memAttr, ap, af) == low + q * PAGE;
  }

  lemma LowFields(a: nat, p: nat, f: nat)
    requires a < 16 && p < 4 && f < 2
    ensures var low := 1 + 2 + a * 4 + p * 64 + 3 * 256 + f * 1024 + 2048;
            low < PAGE && low % 2 == 1 && low / 2 % 2 == 1
            && low / 4 % 16 == a && low / 64 % 4 == p && low / 256 % 4 == 3 && low / 1024 % 2 == f
            && low / 2048 % 2 == 1
  {
    var low := 1 + 2 + a * 4 + p * 64 + 3 * 256 + f * 1024 + 2048;
    assert low / 4 == a + p * 16 + 3 * 64 + f * 256 + 512;
    assert low / 64 == p + 3 * 4 + f * 16 + 32;
    assert low / 256 == 3 + f * 4 + 8;
    assert low / 1024 == f + 2 && low / 2048 == 1;
  }

  /** The base field does not disturb the fields below it. */
  lemma AboveLow(low: nat, q: nat)
    requires low < PAGE && q < 0x10_0000
    ensures var d := low + q * PAGE;
            && d / PAGE == q && d % 2 == low % 2 && d / 2 % 2 == low / 2 % 2 && d / 4 % 16 == low / 4 % 16
            && d / 64 % 4 == low / 64 % 4 && d / 256 % 4 == low / 256 % 4 && d / 1024 % 2 == low / 1024 % 2
            && d / 2048 % 2 == low / 2048 % 2 && d < ADDRESSES
  {
    var d := low + q * PAGE;
    assert d == low + (q * 2048) * 2 && d == low + (q * 1024) * 4 && d == low + (q * 64) * 64;
    assert d == low + (q * 16) * 256 && d == low + (q * 4) * 1024;
    assert d == low + (q * 2) * 2048;
    DivShifts(low, q * 2, 2048);
    DivShifts(low / 2048, q, 2);
    DivShifts(low, q * 2048, 2);
    DivShifts(low, q * 1024, 4);
    DivShifts(low, q * 64, 64);
    DivShifts(low, q * 16, 256);
    DivShifts(low, q * 4, 1024);
    DivShifts(low / 2, q * 1024, 2);
    DivShifts(low / 4, q * 64, 16);
    DivShifts(low / 64, q * 16, 4);
    DivShifts(low / 256, q * 4, 4);
    DivShifts(low / 1024, q * 2, 2);
  }

  // ----- separate tables -----

  /** Every write stays inside the block of the table. */
  lemma {:induction false} WritesStayInside(m: Memory, base: nat, ws: seq<Mapping>, a: nat)
    requires InRange(ws) && !(base <= a < base + TABLE_SIZE)
    ensures Read(WriteAll(m, base, ws), a) == Read(m, a)
  {
    if ws != [] {
      WritesStayInside(m, base, ws[..|ws| - 1], a);
      LayoutIsFlat(base, ws[|ws| - 1].page);
    }
  }

  lemma CreateStaysInside(m: Memory, base: nat, a: nat)
    requires !(base <= a < base + TABLE_SIZE)
    ensures Read(Create(m, base), a) == Read(m, a)
  {
    CreateL1Reads(m, base, 4, a);
    CreateL2Reads(CreateL1(m, base, 4), base, 2048, a);
  }

  /** The walk reads only the block of its own table. */
  lemma WalkStaysInside(m: Memory, n: Memory, base: nat, page: nat)
    requires Linked(m, base) && page < PAGES
    requires forall a :: base <= a < base + TABLE_SIZE ==> Read(n, a) == Read(m, a)
    ensures Walk(n, base, page) == Walk(m, base, page) && Lookup(n, base, page) == Lookup(m, base, page)
  {
    LayoutIsFlat(base, page);
    WalkEqualsFlat(m, base, page);
    assert forall i :: 0 <= i < 4 ==> Read(n, L1Slot(base, i)) == Read(m, L1Slot(base, i));
    assert forall j :: 0 <= j < 2048 ==> Read(n, L2Slot(base, j)) == Read(m, L2Slot(base, j));
    WalkEqualsFlat(n, base, page);
  }

  /** Creating or changing the table of one VM never changes what another VM's pages translate to. */
  lemma TablesAreIsolated(m: Memory, base: nat, other: nat, ws: seq<Mapping>, page: nat)
    requires Linked(m, other) && page < PAGES && InRange(ws)
    requires base + TABLE_SIZE <= other || other + TABLE_SIZE <= base
    ensures Lookup(WriteAll(m, base, ws), other, page) == Lookup(m, other, page)
    ensures Lookup(Create(m, base), other, page) == Lookup(m, other, page)
  {
    forall a | other <= a < other + TABLE_SIZE
      ensures Read(WriteAll(m, base, ws), a) == Read(m, a) && Read(Create(m, base), a) == Read(m, a)
    {
      WritesStayInside(m, base, ws, a);
      CreateStaysInside(m, base, a);
    }
    WalkStaysInside(m, WriteAll(m, base, ws), other, page);
    WalkStaysInside(m, Create(m, base), other, page);
  }

  /** Where vmem_create puts the table of a VM. */
  function VmBase(start: nat, vmid: nat): nat {
    start + TABLE_SIZE * vmid
  }

  /** The tables of different VMs do not overlap, so mapping for one never changes another's translation. */
  lemma VmsAreIsolated(m: Memory, start: nat, vmid: nat, other: nat, ws: seq<Mapping>, page: nat)
    requires Linked(m, VmBase(start, other)) && page < PAGES && InRange(ws) && vmid != other
    ensures Lookup(WriteAll(m, VmBase(start, vmid), ws), VmBase(start, other), page)
            == Lookup(m, VmBase(start, other), page)
    ensures Lookup(Create(m, VmBase(start, vmid)), VmBase(start, other), page) == Lookup(m, VmBase(start, other), page)
  {
    MultipleIsFar(other - vmid, TABLE_SIZE);
    TablesAreIsolated(m, VmBase(start, vmid), VmBase(start, other), ws, page);
  }

  /** The tables lie one after the other: an address from `start` on is in the table of exactly one VM, the first
      of which is number 0. */
  lemma TablesAreContiguous(start: nat, vmid: nat, a: nat)
    requires start <= a
    ensures VmBase(start, vmid) <= a < VmBase(start, vmid) + TABLE_SIZE <==> vmid == (a - start) / TABLE_SIZE
  {
    var k := (a - start) / TABLE_SIZE;
    assert a - start == k * TABLE_SIZE + (a - start) % TABLE_SIZE;
    MultipleIsFar(vmid - k, TABLE_SIZE);
  }
}

/** Two-level page tables as a flat translation map (kernel/paging.c:187-306). */
module Paging {
  import opened Common
  import opened Pmm

  const ENTRIES: nat := 1024
  const SPAN: nat := 0x40_0000
  const POOL: nat := 32
  const IDENTITY_TABLES: nat := 8
  const IDENTITY_SIZE: nat := 0x200_0000

  // ---------------------------------------------------------------- entries

  predicate Present(e: nat) { e % 2 == 1 }

  /** The address part of an entry: e & ~0xFFF. */
  function Target(e: nat): nat { e / PAGE * PAGE }

  /** (phys & ~0xFFF) | flags | PAGE_PRESENT, for flags below 4096. */
  function MakeEntry(phys: nat, flags: nat): nat { phys / PAGE * PAGE + flags + (1 - flags % 2) }

  lemma EntryParts(phys: nat, flags: nat)
    requires flags < PAGE
    ensures Present(MakeEntry(phys, flags)) && Target(MakeEntry(phys, flags)) == Target(phys)
    ensures MakeEntry(phys, flags) % PAGE == flags / 2 * 2 + 1
  {
    var k, y := phys / PAGE, flags / 2;
    assert flags + (1 - flags % 2) == 2 * y + 1 && 2 * y + 1 < PAGE;
    assert MakeEntry(phys, flags) == k * PAGE + (2 * y + 1);
    QuotientOf(k, 2 * y + 1);
    OddSum(k, y);
  }

  /** table | PRESENT | WRITABLE | (flags & (USER | PWT | PCD)). */
  function MakeDirEntry(table: nat, flags: nat): nat { table + 3 + flags / 4 % 8 * 4 }

  /** Present and writable, the user and cache bits of the flags, and no other attribute. */
  predicate NewTableBits(e: nat, flags: nat)
  {
    e % 4 == 3 && e % PAGE / 4 == flags % 32 / 4
  }

  lemma DirEntryParts(table: nat, flags: nat)
    requires table % PAGE == 0
    ensures Present(MakeDirEntry(table, flags)) && Target(MakeDirEntry(table, flags)) == table
    ensures NewTableBits(MakeDirEntry(table, flags), flags)
  {
    var k, x := table / PAGE, 3 + flags / 4 % 8 * 4;
    var e := MakeDirEntry(table, flags);
    assert e == k * PAGE + x && x < PAGE;
    QuotientOf(k, x);
    assert x == 2 * (flags / 4 % 8 * 2 + 1) + 1;
    OddSum(k, flags / 4 % 8 * 2 + 1);
    TableBits(k, flags / 4 % 8);
    MiddleBits(flags);
  }

  lemma TableBits(k: nat, y: nat)
    requires y < 8
    ensures var e := k * PAGE + (3 + y * 4);
            e % 4 == 3 && e % PAGE / 4 == y
  {
    var x := 3 + y * 4;
    QuotientOf(k, x);
    LowBits(y);
    LowBits(k * 1024 + y);
    assert k * PAGE + x == 3 + (k * 1024 + y) * 4;
  }

  lemma LowBits(m: nat)
    ensures (3 + m * 4) % 4 == 3 && (3 + m * 4) / 4 == m
  {
  }

  lemma MiddleBits(flags: nat)
    ensures flags % 32 / 4 == flags / 4 % 8
  {
    var a, c, d := flags / 32, flags % 32 / 4, flags % 32 % 4;
    assert flags == (8 * a + c) * 4 + d;
    FourthOf(8 * a + c, d);
    EighthOf(a, c);
  }

  lemma FourthOf(m: nat, d: nat)
    requires d < 4
    ensures (m * 4 + d) / 4 == m
  {
  }

  lemma EighthOf(a: nat, c: nat)
    requires c < 8
    ensures (8 * a + c) % 8 == c
  {
  }

  lemma QuotientOf(k: nat, x: nat)
    requires x < PAGE
    ensures (k * PAGE + x) / PAGE == k && (k * PAGE + x) % PAGE == x
  {
  }

  lemma OddSum(k: nat, y: nat)
    ensures (k * PAGE + (2 * y + 1)) % 2 == 1
  {
    var m := k * 2048 + y;
    assert k * PAGE + (2 * y + 1) == 2 * m + 1;
    Odd(m);
  }

  lemma Odd(m: nat)
    ensures (2 * m + 1) % 2 == 1
  {
  }

  // ---------------------------------------------------------------- translation

  type Table = t: seq<nat> | |t| == ENTRIES witness seq(ENTRIES, i => 0)

  type Tables = map<nat, Table>

  /** Where a page leads, and the twelve attribute bits of its entry. */
  datatype Mapping = Mapping(frame: nat, bits: nat)

  function MappingOf(e: nat): Option<Mapping>
  {
    if Present(e) then Some(Mapping(Target(e), e % PAGE)) else None
  }

  /** What virtual page p is mapped to. */
  function Lookup(dir: Table, tables: Tables, p: nat): Option<Mapping>
    requires p < FRAMES
  {
    var e := dir[p / ENTRIES];
    if !Present(e) || Target(e) !in tables then None
    else MappingOf(tables[Target(e)][p % ENTRIES])
  }

  /** Every present directory entry has a table, and no two share one. */
  ghost predicate Unshared(dir: Table, tables: Tables, owner: map<nat, nat>)
  {
    forall i: nat :: i < ENTRIES && Present(dir[i]) ==>
      Target(dir[i]) in tables && Target(dir[i]) in owner && owner[Target(dir[i])] == i
  }

  /** Writing one table entry changes the translation of one page. */
  lemma WriteEntry(dir: Table, tables: Tables, owner: map<nat, nat>, p: nat, e: nat, q: nat)
    requires Unshared(dir, tables, owner) && p < FRAMES && q < FRAMES && Present(dir[p / ENTRIES])
    ensures var t := Target(dir[p / ENTRIES]);
            t in tables &&
            Lookup(dir, tables[t := tables[t][p % ENTRIES := e]], q) ==
              if q == p then MappingOf(e) else Lookup(dir, tables, q)
  {
    hide Present, Target, MappingOf;
    var i, j := p / ENTRIES, q / ENTRIES;
    assert i < ENTRIES && j < ENTRIES;
  }

  /** Entering an empty, unused table under an absent directory entry changes no translation. */
  lemma EnterTable(dir: Table, tables: Tables, owner: map<nat, nat>, i: nat, table: nat, e: nat, q: nat)
    requires Unshared(dir, tables, owner) && i < ENTRIES && !Present(dir[i]) && q < FRAMES
    requires table !in tables && Present(e) && Target(e) == table
    ensures Unshared(dir[i := e], tables[table := Empty()], owner[table := i])
    ensures Lookup(dir[i := e], tables[table := Empty()], q) == Lookup(dir, tables, q)
  {
    hide Target;
    var j := q / ENTRIES;
    assert j < ENTRIES;
  }

  function Empty(): (t: Table)
    ensures forall i :: 0 <= i < ENTRIES ==> t[i] == 0
  {
    seq(ENTRIES, i => 0)
  }

  /** How many directory entries in [lo, hi) have no table yet. */
  ghost function Missing(dir: Table, lo: nat, hi: nat): nat
    requires lo <= hi <= ENTRIES
    decreases hi
  {
    if lo == hi then 0 else Missing(dir, lo, hi - 1) + if Present(dir[hi - 1]) then 0 else 1
  }

  lemma {:induction false} MissingFilled(dir: Table, lo: nat, hi: nat, i: nat, e: nat)
    requires lo <= hi <= ENTRIES && i < ENTRIES && !Present(dir[i]) && Present(e)
    ensures Missing(dir[i := e], lo, hi) == Missing(dir, lo, hi) - if lo <= i < hi then 1 else 0
  {
    hide Present;
    if lo < hi { MissingFilled(dir, lo, hi - 1, i, e); }
  }

  lemma {:induction false} MissingAtLeast(dir: Table, lo: nat, hi: nat, i: nat)
    requires lo <= i < hi <= ENTRIES && !Present(dir[i])
    ensures 1 <= Missing(dir, lo, hi)
  {
    hide Present;
    if i < hi - 1 { MissingAtLeast(dir, lo, hi - 1, i); }
  }

  /** paging_get_physical on an installed directory: 0 for an address that is not mapped. */
  function Physical(dir: Table, tables: Tables, virt: nat): nat
    requires virt < WORD32
  {
    match Lookup(dir, tables, virt / PAGE)
    case None => 0
    case Some(m) => m.frame + virt % PAGE
  }

  /** What page q of a stretch from page p on is mapped to when it leads to the frames from f on under these flags: bit
      0 of the attributes is set whatever the flags, the others are those of the flags. */
  function MappingAt(p: nat, f: nat, q: nat, flags: nat): Mapping
    requires p <= q
  {
    Mapping((f + (q - p)) * PAGE, flags / 2 * 2 + 1)
  }

  /** Pages [p, p + n) lead to frames [f, f + n) under these flags, every other page to where it led before. */
  ghost predicate MappedOnto(dir0: Table, tables0: Tables, dir: Table, tables: Tables, p: nat, f: nat, n: nat,
      flags: nat)
  {
    forall q: nat :: q < FRAMES ==>
      Lookup(dir, tables, q) == if p <= q < p + n then Some(MappingAt(p, f, q, flags)) else Lookup(dir0, tables0, q)
  }

  lemma EnterAll(dir: Table, tables: Tables, owner: map<nat, nat>, i: nat, table: nat, flags: nat)
    requires Unshared(dir, tables, owner) && i < ENTRIES && !Present(dir[i]) && table !in tables && table % PAGE == 0
    ensures var e := MakeDirEntry(table, flags);
            && Present(e) && Unshared(dir[i := e], tables[table := Empty()], owner[table := i])
            && NewTableBits(e, flags)
            && MappedOnto(dir, tables, dir[i := e], tables[table := Empty()], 0, 0, 0, flags)
  {
    hide Unshared, Lookup, Target, Present, MakeDirEntry, NewTableBits;
    var e := MakeDirEntry(table, flags);
    DirEntryParts(table, flags);
    EnterTable(dir, tables, owner, i, table, e, 0);
    var dir1, tables1 := dir[i := e], tables[table := Empty()];
    forall q: nat | q < FRAMES ensures Lookup(dir1, tables1, q) == Lookup(dir, tables, q) {
      EnterTable(dir, tables, owner, i, table, e, q);
    }
  }

  lemma WriteAll(dir0: Table, tables0: Tables, dir: Table, tables: Tables, owner: map<nat, nat>, p: nat, phys: nat,
      flags: nat)
    requires Unshared(dir, tables, owner) && p < FRAMES && Present(dir[p / ENTRIES]) && flags < PAGE
    requires (dir == dir0 && tables == tables0) || MappedOnto(dir0, tables0, dir, tables, 0, 0, 0, flags)
    ensures var t := Target(dir[p / ENTRIES]);
            && t in tables
            && var tables1 := tables[t := tables[t][p % ENTRIES := MakeEntry(phys, flags)]];
               Unshared(dir, tables1, owner) && MappedOnto(dir0, tables0, dir, tables1, p, phys / PAGE, 1, flags)
  {
    EntryParts(phys, flags);
    assert MappingOf(MakeEntry(phys, flags)) == Some(MappingAt(p, phys / PAGE, p, flags));
    hide MappingOf, MappingAt, Lookup, Target, Present, MakeEntry;
    var t := Target(dir[p / ENTRIES]);
    var e := MakeEntry(phys, flags);
    var tables1 := tables[t := tables[t][p % ENTRIES := e]];
    forall q: nat | q < FRAMES
      ensures Lookup(dir, tables1, q) == if p <= q < p + 1 then Some(MappingAt(p, phys / PAGE, q, flags))
                                         else Lookup(dir0, tables0, q)
    {
      WriteEntry(dir, tables, owner, p, e, q);
    }
  }

  /** The frames below 32 MB that the bitmap has free. */
  ghost function LowFreeIn(bits: seq<Word>, total: nat): set<nat>
    requires |bits| == WORDS && total <= FRAMES
  {
    set f: nat | f < total && f * PAGE < IDENTITY_SIZE && !Used(bits, f)
  }

  /** Where all pages of a stretch are mapped no table of it is missing. */
  lemma NoneMissing(dir0: Table, tables0: Tables, dir: Table, tables: Tables, p: nat, f: nat, n: nat, flags: nat)
    requires 0 < n && p + n <= FRAMES && MappedOnto(dir0, tables0, dir, tables, p, f, n, flags)
    ensures Missing(dir, p / ENTRIES, (p + n - 1) / ENTRIES + 1) == 0
  {
    hide MappedOnto, Missing, Present;
    var lo, hi := p / ENTRIES, (p + n - 1) / ENTRIES + 1;
    forall i: nat | lo <= i < hi ensures Present(dir[i]) {
      var q := if p < i * ENTRIES then i * ENTRIES else p;
      OntoAt(dir0, tables0, dir, tables, p, f, n, flags, q);
      assert q / ENTRIES == i;
    }
    NothingMissing(dir, lo, hi);
  }

  lemma {:induction false} NothingMissing(dir: Table, lo: nat, hi: nat)
    requires lo <= hi <= ENTRIES && forall i: nat :: lo <= i < hi ==> Present(dir[i])
    ensures Missing(dir, lo, hi) == 0
  {
    if lo < hi { NothingMissing(dir, lo, hi - 1); }
  }

  /** The only pages whose translation may differ are those of [p, p + n), and those only as MappedOnto says. */
  ghost predicate MappedWithin(dir0: Table, tables0: Tables, dir: Table, tables: Tables, p: nat, f: nat, n: nat,
      flags: nat)
  {
    forall q: nat :: q < FRAMES ==>
      Lookup(dir, tables, q) == Lookup(dir0, tables0, q) ||
      (p <= q < p + n && Lookup(dir, tables, q) == Some(MappingAt(p, f, q, flags)))
  }

  /** The pages map_region touches: ALIGN_UP(size + phys % PAGE) / PAGE. */
  function PagesFor(phys: nat, size: nat): nat
  {
    if size == 0 then 0 else (size + phys % PAGE + (PAGE - 1)) / PAGE
  }

  /** No 32-bit sum in map_region wraps. */
  predicate InRange(virt: nat, phys: nat, size: nat)
  {
    && size + phys % PAGE + PAGE <= WORD32
    && virt / PAGE + PagesFor(phys, size) <= FRAMES && phys / PAGE + PagesFor(phys, size) <= FRAMES
  }

  /** A mapped region translates every byte of it exactly when the two start addresses have the same place in their
      page. */
  lemma RegionTranslates(dir0: Table, tables0: Tables, dir: Table, tables: Tables, virt: nat, phys: nat, size: nat,
      flags: nat)
    requires 0 < size && InRange(virt, phys, size) && virt + size <= WORD32
    requires MappedOnto(dir0, tables0, dir, tables, virt / PAGE, phys / PAGE, PagesFor(phys, size), flags)
    ensures (forall a: nat :: virt <= a < virt + size ==> Physical(dir, tables, a) == phys + (a - virt)) <==>
              virt % PAGE == phys % PAGE
  {
    hide Lookup, MappedOnto;
    if virt % PAGE == phys % PAGE {
      forall a: nat | virt <= a < virt + size ensures Physical(dir, tables, a) == phys + (a - virt) {
        ByteInPage(virt, phys, size, a - virt);
        OntoAt(dir0, tables0, dir, tables, virt / PAGE, phys / PAGE, PagesFor(phys, size), flags, a / PAGE);
      }
    } else {
      OntoAt(dir0, tables0, dir, tables, virt / PAGE, phys / PAGE, PagesFor(phys, size), flags, virt / PAGE);
      assert Physical(dir, tables, virt) == phys / PAGE * PAGE + virt % PAGE;
    }
  }

  lemma OntoAt(dir0: Table, tables0: Tables, dir: Table, tables: Tables, p: nat, f: nat, n: nat, flags: nat, q: nat)
    requires MappedOnto(dir0, tables0, dir, tables, p, f, n, flags) && p <= q < p + n <= FRAMES
    ensures Lookup(dir, tables, q) == Some(MappingAt(p, f, q, flags))
  {
    hide Lookup;
  }

  lemma ByteInPage(virt: nat, phys: nat, size: nat, b: nat)
    requires virt % PAGE == phys % PAGE && b < size
    ensures virt / PAGE <= (virt + b) / PAGE < virt / PAGE + PagesFor(phys, size)
    ensures (phys / PAGE + ((virt + b) / PAGE - virt / PAGE)) * PAGE + (virt + b) % PAGE == phys + b
  {
    var k := (virt + b) / PAGE - virt / PAGE;
    assert k * PAGE + (virt + b) % PAGE == virt % PAGE + b;
  }

  lemma InRangeMeans(virt: nat, phys: nat, size: nat)
    requires InRange(virt, phys, size)
    ensures size + phys % PAGE + PAGE <= WORD32
    ensures virt / PAGE + PagesFor(phys, size) <= FRAMES && phys / PAGE + PagesFor(phys, size) <= FRAMES
  {
  }

  lemma MappedNothing(dir: Table, tables: Tables, p: nat, f: nat, flags: nat)
    ensures MappedOnto(dir, tables, dir, tables, p, f, 0, flags)
    ensures MappedWithin(dir, tables, dir, tables, p, f, 0, flags)
  {
  }

  lemma ZeroPages(phys: nat, size: nat)
    ensures size == 0 ==> PagesFor(phys, size) == 0
    ensures size != 0 ==> 0 < PagesFor(phys, size) == (size + phys % PAGE + (PAGE - 1)) / PAGE
  {
  }

  lemma PageOf(a: nat, k: nat, lo: nat, hi: nat, n: nat)
    requires k < n && a / PAGE + n <= FRAMES && lo == a / PAGE / ENTRIES && hi == (a / PAGE + n - 1) / ENTRIES + 1
    ensures var at := a / PAGE * PAGE + k * PAGE;
            at < WORD32 && at / PAGE == a / PAGE + k && lo <= at / SPAN < hi <= ENTRIES
  {
    var p := a / PAGE;
    var at := p * PAGE + k * PAGE;
    assert at == (p + k) * PAGE;
    assert at / SPAN == (p + k) / ENTRIES;
  }

  /** Mapping one more page, or failing to. */
  lemma MappedMore(dir0: Table, tables0: Tables, dir1: Table, tables1: Tables, dir: Table, tables: Tables, p: nat,
      f: nat, k: nat, flags: nat, done: bool)
    requires MappedWithin(dir0, tables0, dir1, tables1, p, f, k, flags)
    requires done ==> MappedOnto(dir1, tables1, dir, tables, p + k, f + k, 1, flags)
    requires !done ==> dir == dir1 && tables == tables1
    ensures MappedWithin(dir0, tables0, dir, tables, p, f, k + 1, flags)
    ensures done && MappedOnto(dir0, tables0, dir1, tables1, p, f, k, flags) ==>
            MappedOnto(dir0, tables0, dir, tables, p, f, k + 1, flags)
  {
    hide Lookup;
  }

  lemma StepCount(dir: Table, lo: nat, hi: nat, i: nat)
    requires lo <= i < hi <= ENTRIES
    ensures !Present(dir[i]) ==> 1 <= Missing(dir, lo, hi)
    ensures !Present(dir[i]) ==> forall e :: Present(e) ==> Missing(dir[i := e], lo, hi) == Missing(dir, lo, hi) - 1
  {
    hide Present, Missing;
    if !Present(dir[i]) {
      MissingAtLeast(dir, lo, hi, i);
      forall e | Present(e) ensures Missing(dir[i := e], lo, hi) == Missing(dir, lo, hi) - 1 {
        MissingFilled(dir, lo, hi, i, e);
      }
    }
  }

  lemma AbsentTable(dir: Table, tables: Tables, p: nat)
    requires p < FRAMES && !Present(dir[p / ENTRIES])
    ensures Lookup(dir, tables, p) == None
  {
  }

  // ---------------------------------------------------------------- the address space

  class AddressSpace {
    const pmm: FrameAllocator
    /** The static pool of page tables: POOL tables from this address on. */
    const poolBase: nat
    var installed: bool
    var dir: Table
    var tables: Tables
    var staticUsed: nat
    ghost var owner: map<nat, nat>

    constructor (pmm: FrameAllocator, poolBase: nat)
      ensures this.pmm == pmm && this.poolBase == poolBase && !installed && staticUsed == 0
    {
      this.pmm, this.poolBase := pmm, poolBase;
      installed, dir, tables, staticUsed, owner := false, Empty(), map[], 0, map[];
    }

    /** A table lives below the heap, outside what is left of the pool, or in a frame that was handed out. */
    ghost predicate Placed(a: nat)
      reads this, pmm
    {
      a % PAGE == 0 &&
      ((a < HEAP_LIMIT && !(poolBase + staticUsed * PAGE <= a < poolBase + POOL * PAGE)) || a / PAGE in pmm.handed)
    }

    ghost predicate Valid()
      reads this, pmm, pmm.bitmap
    {
      && pmm.Valid() && poolBase % PAGE == 0 && poolBase + POOL * PAGE <= HEAP_LIMIT && staticUsed <= POOL
      && Unshared(dir, tables, owner)
      && forall a :: a in tables ==> Placed(a)
    }

    /** The free frames below 32 MB. */
    ghost function LowFree(): set<nat>
      requires Valid()
      reads this, pmm, pmm.bitmap
    {
      LowFreeIn(pmm.bitmap[..], pmm.totalFrames)
    }

    /** How many page tables can still be had: from the pool, and as free frames below 32 MB. */
    ghost function TablesLeft(): nat
      requires Valid()
      reads this, pmm, pmm.bitmap
    {
      POOL - staticUsed + |LowFree()|
    }

    /** alloc_page_table: an address that no table has, from the pool or below 32 MB from the frame allocator. */
    method AllocPageTable() returns (table: Option<nat>)
      requires Valid()
      modifies this`staticUsed, pmm, pmm.bitmap
      ensures Valid()
      ensures table.Some? ==> table.value % PAGE == 0 && table.value !in tables && Placed(table.value)
      ensures table.Some? <==> 0 < old(TablesLeft())
      ensures TablesLeft() == old(TablesLeft()) - if table.Some? then 1 else 0
      ensures table.None? ==> pmm.handed == old(pmm.handed) && pmm.bitmap[..] == old(pmm.bitmap[..])
      ensures staticUsed == if old(staticUsed) < POOL then old(staticUsed) + 1 else POOL
    {
      hide Unshared, Marked, LowFreeIn;
      if staticUsed < POOL {
        var pt := poolBase + staticUsed * PAGE;
        HandedHigh(pmm);
        staticUsed := staticUsed + 1;
        return Some(pt);
      }
      ghost var bits := pmm.bitmap[..];
      var phys := pmm.AllocFrame();
      if phys != 0 && phys < IDENTITY_SIZE {
        LowFreeTaken(bits, pmm.totalFrames, phys / PAGE);
        return Some(phys);
      }
      if phys == 0 {
        NoLowFree(bits, pmm.totalFrames, pmm.totalFrames);
      } else {
        NoLowFree(bits, pmm.totalFrames, phys / PAGE);
        MarkedBack(bits, phys / PAGE);
        pmm.FreeFrame(phys);
      }
      table := None;
    }

    /** paging_map: afterwards that one page leads to the frame under the flags, with bit 0 set, and every other page to
        where it led before, unless no table could be had, in which case nothing changes. */
    method Map(virt: nat, phys: nat, flags: nat) returns (ghost done: bool)
      requires Valid() && virt < WORD32 && phys < WORD32 && flags < PAGE
      modifies this`dir, this`tables, this`owner, this`staticUsed, pmm, pmm.bitmap
      ensures Valid()
      ensures done ==> installed && MappedOnto(old(dir), old(tables), dir, tables, virt / PAGE, phys / PAGE, 1, flags)
      ensures done ==> Lookup(dir, tables, virt / PAGE) == Some(Mapping(phys / PAGE * PAGE, flags / 2 * 2 + 1))
      ensures !done ==> dir == old(dir) && tables == old(tables)
      ensures done <==> installed && (Present(old(dir)[virt / SPAN]) || 0 < old(TablesLeft()))
      ensures done ==> Present(dir[virt / SPAN]) && dir == old(dir)[virt / SPAN := dir[virt / SPAN]]
      ensures Present(old(dir)[virt / SPAN]) ==> dir == old(dir)
      ensures done && !Present(old(dir)[virt / SPAN]) ==> NewTableBits(dir[virt / SPAN], flags)
      ensures TablesLeft() == old(TablesLeft()) - if done && !Present(old(dir)[virt / SPAN]) then 1 else 0
    {
      hide Unshared, Lookup, Target, MakeEntry, MakeDirEntry, NewTableBits, MappedOnto, FrameAllocator.Valid;
      done := false;
      if !installed { return; }
      ghost var dir0, tables0 := dir, tables;
      var i, k := virt / SPAN, virt / PAGE % ENTRIES;
      ghost var p := virt / PAGE;
      assert i == p / ENTRIES;
      if !Present(dir[i]) {
        var table := AllocPageTable();
        if table.None? { return; }
        EnterAll(dir, tables, owner, i, table.value, flags);
        dir := dir[i := MakeDirEntry(table.value, flags)];
        tables := tables[table.value := Empty()];
        owner := owner[table.value := i];
      }
      EntryParts(phys, flags);
      WriteAll(dir0, tables0, dir, tables, owner, p, phys, flags);
      var pt := Target(dir[i]);
      tables := tables[pt := tables[pt][k := MakeEntry(phys, flags)]];
      OntoAt(dir0, tables0, dir, tables, p, phys / PAGE, 1, flags, p);
      done := true;
    }

    /** paging_map_region: the pages that hold size bytes from phys on are mapped one after the other.  It succeeds
        exactly when there is a table to be had for every 4 MB stretch that lacks one. */
    method MapRegion(virt: nat, phys: nat, size: nat, flags: nat) returns (ghost done: bool)
      requires Valid() && flags < PAGE && InRange(virt, phys, size)
      modifies this`dir, this`tables, this`owner, this`staticUsed, pmm, pmm.bitmap
      ensures Valid()
      ensures done ==>
                MappedOnto(old(dir), old(tables), dir, tables, virt / PAGE, phys / PAGE, PagesFor(phys, size), flags)
      ensures done && installed && 0 < size && virt + size <= WORD32 ==>
                ((forall a: nat :: virt <= a < virt + size ==> Translated(a) == phys + (a - virt)) <==>
                 virt % PAGE == phys % PAGE)
      ensures MappedWithin(old(dir), old(tables), dir, tables, virt / PAGE, phys / PAGE, PagesFor(phys, size), flags)
      ensures forall i: nat :: i < ENTRIES ==>
                dir[i] == old(dir)[i] || (!Present(old(dir)[i]) && Present(dir[i]) && NewTableBits(dir[i], flags))
      ensures var n := PagesFor(phys, size);
              if n == 0 then done
              else var lo, hi := virt / PAGE / ENTRIES, (virt / PAGE + n - 1) / ENTRIES + 1;
                   done <==> installed && Missing(old(dir), lo, hi) <= old(TablesLeft())
    {
      hide Unshared, Lookup, MappedOnto, MappedWithin, FrameAllocator.Valid, Missing, PagesFor, Present, Physical,
           InRange, LowFreeIn, NewTableBits, MappingAt;
      InRangeMeans(virt, phys, size);
      done := true;
      MappedNothing(dir, tables, virt / PAGE, phys / PAGE, flags);
      ZeroPages(phys, size);
      if size == 0 { return; }
      var offset := phys % PAGE;
      var vBase, pBase := virt / PAGE * PAGE, phys / PAGE * PAGE;
      var total := (size + offset + (PAGE - 1)) / PAGE * PAGE;
      ghost var n := PagesFor(phys, size);
      assert total == n * PAGE;
      ghost var p, f := virt / PAGE, phys / PAGE;
      ghost var lo, hi := p / ENTRIES, (p + n - 1) / ENTRIES + 1;
      ghost var dir0, tables0 := dir, tables;
      ghost var missing, left := Missing(dir, lo, hi), TablesLeft();
      ghost var k := 0;
      var off := 0;
      while off < total
        invariant off == k * PAGE && k <= n
        invariant Valid()
        invariant done ==> MappedOnto(dir0, tables0, dir, tables, p, f, k, flags)
        invariant MappedWithin(dir0, tables0, dir, tables, p, f, k, flags)
        invariant forall i: nat :: i < ENTRIES ==>
                    dir[i] == dir0[i] || (!Present(dir0[i]) && Present(dir[i]) && NewTableBits(dir[i], flags))
        invariant done ==> missing - Missing(dir, lo, hi) == left - TablesLeft() && (installed || k == 0)
        invariant !done ==> !installed || left < missing
      {
        var virtAt, physAt := vBase + off, pBase + off;
        PageOf(virt, k, lo, hi, n);
        PageOf(phys, k, f / ENTRIES, (f + n - 1) / ENTRIES + 1, n);
        ghost var i := virtAt / SPAN;
        ghost var dir1, tables1 := dir, tables;
        StepCount(dir, lo, hi, i);
        ghost var stepped := Map(virtAt, physAt, flags);
        MappedMore(dir0, tables0, dir1, tables1, dir, tables, p, f, k, flags, stepped);
        done := done && stepped;
        k := k + 1;
        off := off + PAGE;
      }
      if done { NoneMissing(dir0, tables0, dir, tables, p, f, n, flags); }
      if done && installed && virt + size <= WORD32 {
        RegionTranslates(dir0, tables0, dir, tables, virt, phys, size, flags);
        assert forall a: nat :: virt <= a < virt + size ==> Translated(a) == Physical(dir, tables, a);
      }
    }

    /** paging_unmap: that page leads nowhere afterwards and every other page where it led before. */
    method Unmap(virt: nat)
      requires Valid() && virt < WORD32
      modifies this`tables
      ensures Valid()
      ensures !installed ==> tables == old(tables)
      ensures installed ==> forall q: nat :: q < FRAMES ==>
                Lookup(dir, tables, q) == if q == virt / PAGE then None else Lookup(dir, old(tables), q)
    {
      hide Lookup, Target, FrameAllocator.Valid;
      if !installed { return; }
      var i, k := virt / SPAN, virt / PAGE % ENTRIES;
      ghost var p := virt / PAGE;
      assert i == p / ENTRIES;
      if !Present(dir[i]) {
        AbsentTable(dir, tables, p);
        return;
      }
      var pt := Target(dir[i]);
      ghost var tables0 := tables;
      tables := tables[pt := tables[pt][k := 0]];
      forall q: nat | q < FRAMES
        ensures Lookup(dir, tables, q) == if q == p then None else Lookup(dir, tables0, q)
      {
        WriteEntry(dir, tables0, owner, p, 0, q);
        assert MappingOf(0) == None;
      }
    }

    /** What paging_get_physical answers: the address itself before paging is installed. */
    ghost function Translated(virt: nat): nat
      requires virt < WORD32
      reads this
    {
      if installed then Physical(dir, tables, virt) else virt
    }

    /** paging_get_physical. */
    method GetPhysical(virt: nat) returns (phys: nat)
      requires Valid() && virt < WORD32
      ensures phys == Translated(virt)
    {
      hide Target, FrameAllocator.Valid;
      if !installed { return virt; }
      var i, k := virt / SPAN, virt / PAGE % ENTRIES;
      assert i == virt / PAGE / ENTRIES;
      if !Present(dir[i]) { return 0; }
      var pt := tables[Target(dir[i])];
      if !Present(pt[k]) { return 0; }
      return Target(pt[k]) + virt % PAGE;
    }

    /** The inner loop of paging_install: a table that maps 4 MB onto itself. */
    method IdentityTable(n: nat) returns (pt: Table)
      ensures forall k :: 0 <= k < ENTRIES ==> pt[k] == n * SPAN + k * PAGE + 3
    {
      pt := Empty();
      for k := 0 to ENTRIES
        invariant forall j :: 0 <= j < k ==> pt[j] == n * SPAN + j * PAGE + 3
      {
        pt := pt[k := n * SPAN + k * PAGE + 3];
      }
    }

    /** paging_install, with the eight identity tables placed from `first` on: exactly the first 32 MB are mapped,
        each page onto itself, present and writable. */
    method Install(first: nat)
      requires pmm.Valid() && !installed && staticUsed == 0
      requires poolBase % PAGE == 0 && poolBase + POOL * PAGE <= first && first % PAGE == 0
      requires first + IDENTITY_TABLES * PAGE <= HEAP_LIMIT
      modifies this`installed, this`dir, this`tables, this`owner
      ensures Valid() && installed
      ensures forall p: nat :: p < FRAMES ==>
              Lookup(dir, tables, p) == if p < IDENTITY_TABLES * ENTRIES then Some(Mapping(p * PAGE, 3)) else None
    {
      hide Lookup, Present, Target, IdentityAt, Unshared;
      dir, tables, owner := Empty(), map[], map[];
      for n := 0 to IDENTITY_TABLES
        invariant forall a :: a in tables ==> a % PAGE == 0 && first <= a < first + n * PAGE
        invariant forall i :: 0 <= i < n ==> IdentityAt(dir, tables, owner, first, i)
      {
        var pt := IdentityTable(n);
        var at := first + n * PAGE;
        ghost var dir0, tables0, owner0 := dir, tables, owner;
        tables := tables[at := pt];
        dir := dir[n := at + 3];
        owner := owner[at := n];
        forall i | 0 <= i <= n ensures IdentityAt(dir, tables, owner, first, i) {
          IdentityStep(dir0, tables0, owner0, first, n, pt, i);
        }
      }
      for i := IDENTITY_TABLES to ENTRIES
        invariant forall a :: a in tables ==> a % PAGE == 0 && first <= a < first + IDENTITY_TABLES * PAGE
        invariant forall j :: IDENTITY_TABLES <= j < i ==> dir[j] == 2
        invariant forall j :: 0 <= j < IDENTITY_TABLES ==> IdentityAt(dir, tables, owner, first, j)
      {
        ghost var dir0 := dir;
        dir := dir[i := 2];
        forall j | 0 <= j < IDENTITY_TABLES ensures IdentityAt(dir, tables, owner, first, j) {
          IdentityKept(dir0, tables, owner, first, i, 2, j);
        }
      }
      installed := true;
      IdentityUnshared(dir, tables, owner, first);
      forall p: nat | p < FRAMES
        ensures Lookup(dir, tables, p) == if p < IDENTITY_TABLES * ENTRIES then Some(Mapping(p * PAGE, 3)) else None
      {
        IdentityLookup(dir, tables, owner, first, p);
      }
    }
  }

  lemma IdentityStep(dir: Table, tables: Tables, owner: map<nat, nat>, first: nat, n: nat, pt: Table, i: nat)
    requires i <= n < ENTRIES && first % PAGE == 0
    requires forall k :: 0 <= k < ENTRIES ==> pt[k] == n * SPAN + k * PAGE + 3
    requires i < n ==> IdentityAt(dir, tables, owner, first, i)
    ensures var at := first + n * PAGE;
            IdentityAt(dir[n := at + 3], tables[at := pt], owner[at := n], first, i)
  {
    EntryOfTable(first + n * PAGE);
    hide Present, Target;
  }

  lemma IdentityKept(dir: Table, tables: Tables, owner: map<nat, nat>, first: nat, i: nat, e: nat, j: nat)
    requires j < i < ENTRIES && IdentityAt(dir, tables, owner, first, j)
    ensures IdentityAt(dir[i := e], tables, owner, first, j)
  {
    hide Present, Target;
  }

  lemma IdentityUnshared(dir: Table, tables: Tables, owner: map<nat, nat>, first: nat)
    requires forall i :: 0 <= i < IDENTITY_TABLES ==> IdentityAt(dir, tables, owner, first, i)
    requires forall i :: IDENTITY_TABLES <= i < ENTRIES ==> dir[i] == 2
    ensures Unshared(dir, tables, owner)
  {
    assert !Present(2);
    hide Present, Target;
    forall i: nat | i < ENTRIES && Present(dir[i])
      ensures Target(dir[i]) in tables && Target(dir[i]) in owner && owner[Target(dir[i])] == i
    {
      assert i < IDENTITY_TABLES;
      assert IdentityAt(dir, tables, owner, first, i);
    }
  }

  lemma EntryOfTable(a: nat)
    requires a % PAGE == 0
    ensures Present(a + 3) && Target(a + 3) == a && (a + 3) % PAGE == 3
  {
  }

  /** Directory entry i points at its own table, which maps 4 MB onto itself. */
  ghost predicate IdentityAt(dir: Table, tables: Tables, owner: map<nat, nat>, first: nat, i: nat)
    requires i < ENTRIES
  {
    var a := first + i * PAGE;
    && dir[i] == a + 3 && Present(dir[i]) && Target(dir[i]) == a
    && a in tables && a in owner && owner[a] == i
    && forall k :: 0 <= k < ENTRIES ==> tables[a][k] == i * SPAN + k * PAGE + 3
  }

  lemma IdentityLookup(dir: Table, tables: Tables, owner: map<nat, nat>, first: nat, p: nat)
    requires p < FRAMES
    requires forall i :: 0 <= i < IDENTITY_TABLES ==> IdentityAt(dir, tables, owner, first, i)
    requires forall i :: IDENTITY_TABLES <= i < ENTRIES ==> dir[i] == 2
    ensures Lookup(dir, tables, p) == if p < IDENTITY_TABLES * ENTRIES then Some(Mapping(p * PAGE, 3)) else None
  {
    var i, k := p / ENTRIES, p % ENTRIES;
    if i < IDENTITY_TABLES {
      assert IdentityAt(dir, tables, owner, first, i);
      assert i * SPAN + k * PAGE == p * PAGE;
      EntryOfTable(p * PAGE);
    }
  }

  lemma LowFreeTaken(bits: seq<Word>, total: nat, f: nat)
    requires |bits| == WORDS && total <= FRAMES && f < total && f * PAGE < IDENTITY_SIZE && !Used(bits, f)
    ensures f in LowFreeIn(bits, total) && |LowFreeIn(Marked(bits, f, true), total)| == |LowFreeIn(bits, total)| - 1
  {
    hide Marked, Used;
    forall g: nat | g < total ensures Used(Marked(bits, f, true), g) == (g == f || Used(bits, g)) {
      MarkedAt(bits, f, true, g);
    }
    assert LowFreeIn(bits, total) == LowFreeIn(Marked(bits, f, true), total) + {f};
  }

  lemma NoLowFree(bits: seq<Word>, total: nat, f: nat)
    requires |bits| == WORDS && total <= FRAMES && (f == total || IDENTITY_SIZE <= f * PAGE)
    requires forall g: nat :: g < f && g < total ==> Used(bits, g)
    ensures LowFreeIn(bits, total) == {}
  {
  }

  lemma MarkedBack(bits: seq<Word>, f: nat)
    requires f / 32 < |bits| && !Used(bits, f)
    ensures Marked(Marked(bits, f, true), f, false) == bits
  {
    assert bits[f / 32][f % 32 := true][f % 32 := false] == bits[f / 32];
  }

  /** Frames in anyone's hands lie above the heap. */
  lemma HandedHigh(pmm: FrameAllocator)
    requires pmm.Valid()
    ensures forall f :: f in pmm.handed ==> HEAP_LIMIT <= f * PAGE
  {
  }
}

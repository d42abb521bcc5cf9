/** The page directory of kernel/paging.c as it runs: tables_physical and
    tables are arrays of the directory, the tables themselves are held by
    directory slot, and pages come from the physical memory manager. Every
    method is proved against the entry functions of PagingSpec and the MMU
    view PagingSpec.Translate. paging_init is modelled as corrected (see
    PagingProps for what the code as written does): the directory gets the
    8 KiB it needs and the low 4 MiB are mapped to themselves. */
module Paging {
  import opened Word
  import opened FsBitmap
  import opened PmmSpec
  import opened PagingSpec
  import PagingProps
  import Pmm

  /** The end of the low memory paging_init maps to itself. */
  const IDENTITY_END: nat := 0x40_0000
  /** The heap window paging_init backs with fresh frames. */
  const HEAP_START: nat := 0x40_0000
  const HEAP_PAGES: nat := 256

  /** What paging_init needs of the physical allocator: page 0 in use, a
      run of two free pages for the directory, and two more free pages for
      the tables of the first 8 MiB. */
  predicate InitFits(s: PageMap) {
    && MapOk(s) && Test(s.bitmap, 0)
    && var (r, d) := AllocPages(s, 2);
       d != 0 && PagingProps.Room(r, 2)
  }

  /** A heap page's indices: directory slot 1, table slot i. */
  lemma HeapIndices(i: nat)
    requires i < HEAP_PAGES
    ensures DirIndex(HEAP_START + i * PAGE_SIZE) == 1 && TableIndex(HEAP_START + i * PAGE_SIZE) == i
    ensures IsU32(HEAP_START + i * PAGE_SIZE)
  {
  }

  /** The heap table after i turns of the heap loop: the entries below i
      are present, writable user pages, the others have no frame yet. */
  predicate HeapBacked(t: seq<Pte>, i: nat) {
    && |t| == ENTRIES && i <= ENTRIES
    && (forall k :: 0 <= k < i ==> t[k].present && t[k].rw && t[k].user)
    && (forall k :: i <= k < ENTRIES ==> t[k].frame == 0)
  }

  /** One more turn of the heap loop backs one more page. */
  lemma HeapBackedStep(t: seq<Pte>, i: nat, e: Pte)
    requires HeapBacked(t, i) && i < ENTRIES && e.present && e.rw && e.user
    ensures HeapBacked(t[i := e], i + 1)
  {
  }

  class PageDirectory {
    /** Where the directory lives: the pair of pages it was given. */
    const base: nat
    /** tables_physical: the table address or-ed with 7, 0 for none. */
    const physical: array<nat>
    /** tables: the table address, 0 for none. */
    const tables: array<nat>
    /** The entries of each table, by directory slot. */
    var pages: map<nat, seq<Pte>>

    ghost predicate Valid()
      reads this, physical, tables
    {
      && physical.Length == ENTRIES && tables.Length == ENTRIES && physical != tables
      && (forall d :: d in pages ==> d < ENTRIES && TableOk(pages[d]))
      && (forall d :: 0 <= d < ENTRIES ==> (tables[d] == 0 <==> d !in pages))
      && (forall d :: 0 <= d < ENTRIES ==> tables[d] % PAGE_SIZE == 0 && IsU32(tables[d]))
      && (forall d :: 0 <= d < ENTRIES ==> physical[d] == if tables[d] == 0 then 0 else OrFlags(tables[d]))
    }

    /** Where the MMU sends the linear address v through this directory. */
    function Translate(v: nat): Option<nat>
      reads this
    {
      PagingSpec.Translate(pages, v)
    }

    /** paging_init with its two faults corrected: the directory takes the
        two pages page_directory_t needs, both arrays are cleared, virtual
        page i below 4 MiB is mapped to physical page i (user, read-only,
        the flags the code gives), and the 256 heap pages from 4 MiB get
        fresh writable frames. The tables never fall inside the directory.
        Loading CR3 and setting CR0.PG are left out. */
    constructor Init(pmm: Pmm.PhysicalMemory)
      requires pmm.Valid() && InitFits(pmm.Abs())
      modifies pmm, pmm.bitmap
      ensures Valid() && pmm.Valid()
      ensures base == AllocPages(old(pmm.Abs()), 2).1
      ensures forall v :: 0 <= v < IDENTITY_END ==> Translate(v) == Some(v)
      ensures pages.Keys == {0, 1}
      ensures forall i :: 0 <= i < HEAP_PAGES ==>
        var e := pages[1][i]; e.present && e.rw && e.user
      ensures Apart(0) && Apart(1)
    {
      ghost var s0 := pmm.Abs();
      PagingProps.AllocTwoReserves(s0);
      var d := pmm.AllocPages(2);
      base := d;
      physical := new nat[ENTRIES];
      tables := new nat[ENTRIES];
      pages := map[];
      new;
      Clear();
      IdentityMap(pmm);
      ghost var low := pages;
      MapHeap(pmm);
      PagingProps.FirstTableView(low, pages);
    }

    /** paging_init's first loop: every slot of tables_physical and
        tables set to 0, so the directory holds no table. */
    method Clear()
      requires physical.Length == ENTRIES && tables.Length == ENTRIES && physical != tables && pages == map[]
      modifies physical, tables
      ensures Valid() && forall d :: 0 <= d < ENTRIES ==> tables[d] == 0
    {
      var i := 0;
      while i < ENTRIES
        invariant i <= ENTRIES
        invariant forall d :: 0 <= d < i ==> physical[d] == 0 && tables[d] == 0
      {
        physical[i] := 0;
        tables[i] := 0;
        i := i + 1;
      }
    }

    /** Whether the directory's own two pages are still marked used. */
    ghost predicate Reserved(s: PageMap)
      requires MapOk(s)
    {
      base % PAGE_SIZE == 0 && IsU32(base + PAGE_SIZE) && PagingProps.Holds(s, base / PAGE_SIZE)
    }

    /** Table d exists and sits outside the directory's pages. */
    ghost predicate Apart(d: nat)
      requires d < tables.Length
      reads this, tables
    {
      tables[d] != 0 && tables[d] / PAGE_SIZE != base / PAGE_SIZE && tables[d] / PAGE_SIZE != base / PAGE_SIZE + 1
    }

    /** The first loop of paging_init, corrected: page i of the low 4 MiB
        mapped to physical page i. */
    method IdentityMap(pmm: Pmm.PhysicalMemory)
      requires Valid() && pmm.Valid() && Reserved(pmm.Abs())
      requires pages == map[] && PagingProps.Room(pmm.Abs(), 2)
      modifies this`pages, tables, physical, pmm, pmm.bitmap
      ensures Valid() && pmm.Valid() && Reserved(pmm.Abs())
      ensures pages.Keys == {0} && Apart(0)
      ensures PagingProps.Room(pmm.Abs(), 1)
      ensures forall v :: 0 <= v < IDENTITY_END ==> Translate(v) == Some(v)
    {
      var i := 0;
      while i < ENTRIES
        invariant Valid() && pmm.Valid() && Reserved(pmm.Abs()) && i <= ENTRIES
        invariant i == 0 ==> pages == map[] && PagingProps.Room(pmm.Abs(), 2)
        invariant 0 < i ==> pages.Keys == {0} && Apart(0) && PagingProps.Room(pmm.Abs(), 1)
        invariant forall v :: 0 <= v < i * PAGE_SIZE ==> Translate(v) == Some(v)
      {
        IdentityPage(i, pmm);
        i := i + 1;
      }
    }

    /** One turn of the first loop: alloc_frame(get_page(i pages, 1), 0, 0)
        as corrected, page i mapped to itself. The first turn makes the
        table of the low 4 MiB. */
    method IdentityPage(i: nat, pmm: Pmm.PhysicalMemory)
      requires Valid() && pmm.Valid() && Reserved(pmm.Abs()) && i < ENTRIES
      requires i == 0 ==> pages == map[] && PagingProps.Room(pmm.Abs(), 2)
      requires 0 < i ==> pages.Keys == {0} && Apart(0) && PagingProps.Room(pmm.Abs(), 1)
      requires forall v :: 0 <= v < i * PAGE_SIZE ==> Translate(v) == Some(v)
      modifies this`pages, tables, physical, pmm, pmm.bitmap
      ensures Valid() && pmm.Valid() && Reserved(pmm.Abs())
      ensures pages.Keys == {0} && Apart(0) && PagingProps.Room(pmm.Abs(), 1)
      ensures forall v :: 0 <= v < (i + 1) * PAGE_SIZE ==> Translate(v) == Some(v)
    {
      var v := i * PAGE_SIZE;
      assert DirIndex(v) == 0 && v / PAGE_SIZE == i && IsU32(v);
      ghost var before := pages;
      if tables[0] == 0 {
        PagingProps.FreshTable(pmm.Abs(), base / PAGE_SIZE, 1);
      }
      MapPage(v, v, false, false, pmm);
      PagingProps.ExtendIdentity(before, pages, i, v);
    }

    /** The second loop of paging_init: the 256 heap pages from 4 MiB each
        get a writable frame from the physical allocator. */
    method MapHeap(pmm: Pmm.PhysicalMemory)
      requires Valid() && pmm.Valid() && Reserved(pmm.Abs())
      requires pages.Keys == {0} && Apart(0)
      requires PagingProps.Room(pmm.Abs(), 1)
      modifies this`pages, tables, physical, pmm, pmm.bitmap
      ensures Valid() && pmm.Valid()
      ensures pages.Keys == {0, 1} && pages[0] == old(pages[0]) && Apart(0) && Apart(1)
      ensures HeapBacked(pages[1], HEAP_PAGES)
    {
      var i := 0;
      while i < HEAP_PAGES
        invariant Valid() && pmm.Valid() && Reserved(pmm.Abs()) && i <= HEAP_PAGES
        invariant 0 in pages && pages[0] == old(pages[0]) && Apart(0)
        invariant i == 0 ==> pages.Keys == {0} && PagingProps.Room(pmm.Abs(), 1)
        invariant 0 < i ==> pages.Keys == {0, 1} && Apart(1) && HeapBacked(pages[1], i)
      {
        MapHeapPage(i, pmm);
        i := i + 1;
      }
    }

    /** One turn of paging_init's heap loop: alloc_frame(get_page(4 MiB +
        i pages, 1), 0, 1). get_page finds the table when an earlier turn
        made it, and makes it otherwise. */
    method MapHeapPage(i: nat, pmm: Pmm.PhysicalMemory)
      requires Valid() && pmm.Valid() && Reserved(pmm.Abs()) && i < HEAP_PAGES
      requires 0 in pages && Apart(0)
      requires 1 !in pages ==> i == 0 && pages.Keys == {0} && PagingProps.Room(pmm.Abs(), 1)
      requires 1 in pages ==> pages.Keys == {0, 1} && Apart(1) && HeapBacked(pages[1], i)
      modifies this`pages, tables, physical, pmm, pmm.bitmap
      ensures Valid() && pmm.Valid() && Reserved(pmm.Abs())
      ensures pages.Keys == {0, 1} && pages[0] == old(pages[0]) && Apart(0) && Apart(1)
      ensures HeapBacked(pages[1], i + 1)
    {
      var page;
      if tables[1] == 0 {
        page := NewHeapTable(pmm);
      } else {
        HeapIndices(i);
        page := GetPage(HEAP_START + i * PAGE_SIZE, true, pmm);
      }
      assert page == Some((1, i));
      BackHeapPage(i, pmm);
    }

    /** The get_page call of the heap loop's first turn, which makes the
        table of the heap window: a page that is not one of the directory's. */
    method NewHeapTable(pmm: Pmm.PhysicalMemory) returns (page: Option<(nat, nat)>)
      requires Valid() && pmm.Valid() && Reserved(pmm.Abs())
      requires pages.Keys == {0} && Apart(0) && PagingProps.Room(pmm.Abs(), 1)
      modifies this`pages, tables, physical, pmm, pmm.bitmap
      ensures Valid() && pmm.Valid() && Reserved(pmm.Abs())
      ensures pages.Keys == {0, 1} && pages[0] == old(pages[0]) && Apart(0) && Apart(1)
      ensures HeapBacked(pages[1], 0) && page == Some((1, 0))
    {
      HeapIndices(0);
      ghost var s := pmm.Abs();
      PagingProps.FreshTable(s, base / PAGE_SIZE, 0);
      page := GetPage(HEAP_START, true, pmm);
      assert (pmm.Abs(), tables[1]) == AllocPage(s);
      assert tables[0] == old(tables[0]) && pages[0] == old(pages[0]);
      assert HeapBacked(pages[1], 0);
    }

    /** The alloc_frame half of a turn of the heap loop, on the first entry
        with no frame yet. */
    method BackHeapPage(i: nat, pmm: Pmm.PhysicalMemory)
      requires Valid() && pmm.Valid() && Reserved(pmm.Abs()) && i < HEAP_PAGES
      requires 0 in pages && 1 in pages && HeapBacked(pages[1], i)
      modifies this`pages, pmm, pmm.bitmap
      ensures Valid() && pmm.Valid() && Reserved(pmm.Abs())
      ensures pages.Keys == old(pages).Keys && 0 in pages && 1 in pages && pages[0] == old(pages[0])
      ensures HeapBacked(pages[1], i + 1)
    {
      PagingProps.AllocPageKeeps(pmm.Abs(), base / PAGE_SIZE);
      AllocFrame((1, i), false, true, pmm);
      HeapBackedStep(old(pages[1]), i, pages[1][i]);
    }

    /** get_page: the entry of address in this directory, as a (directory
        slot, table slot) pair. A missing table is created only when make is
        set: a page from pmm_alloc_page, all 1024 entries blank, recorded in
        tables and, or-ed with 7, in tables_physical. */
    method GetPage(address: nat, make: bool, pmm: Pmm.PhysicalMemory) returns (page: Option<(nat, nat)>)
      requires Valid() && pmm.Valid() && IsU32(address)
      requires make && tables[DirIndex(address)] == 0 ==> AllocPage(pmm.Abs()).1 != 0
      modifies this`pages, tables, physical, pmm, pmm.bitmap
      ensures Valid() && pmm.Valid()
      ensures var d := DirIndex(address);
        page == (if old(tables[d]) != 0 || make then Some((d, TableIndex(address))) else None)
      ensures old(tables[DirIndex(address)]) != 0 || !make ==>
        && pages == old(pages) && tables[..] == old(tables[..]) && physical[..] == old(physical[..])
        && pmm.Abs() == old(pmm.Abs())
      ensures var d := DirIndex(address);
        old(tables[d]) == 0 && make ==>
          && (pmm.Abs(), tables[d]) == AllocPage(old(pmm.Abs()))
          && tables[..] == old(tables[..])[d := tables[d]]
          && physical[..] == old(physical[..])[d := OrFlags(tables[d])]
          && d !in old(pages) && BlankTable(pages[d]) && pages == old(pages)[d := pages[d]]
    {
      IndicesSplit(address);
      var d := address / PAGE_SIZE / ENTRIES;
      if tables[d] != 0 {
        page := Some((d, address / PAGE_SIZE % ENTRIES));
      } else if make {
        PagingProps.AllocPageAligned(pmm.Abs());
        var a := pmm.AllocPage();
        var table := NewTable();
        tables[d] := a;
        physical[d] := a - a % 8 + TABLE_FLAGS;
        pages := pages[d := table];
        page := Some((d, address / PAGE_SIZE % ENTRIES));
      } else {
        page := None;
      }
    }

    /** The initialisation loop of get_page over a fresh table's memory:
        every entry not present, writable, kernel-only, frame 0. */
    static method NewTable() returns (table: seq<Pte>)
      ensures BlankTable(table)
    {
      var t := new Pte[ENTRIES];
      var k := 0;
      while k < ENTRIES
        invariant k <= ENTRIES
        invariant forall j :: 0 <= j < k ==> !t[j].present && t[j].rw && !t[j].user && t[j].frame == 0
      {
        t[k] := Blank(t[k]);
        k := k + 1;
      }
      table := t[..];
    }

    /** A store to one entry of an existing table. */
    method SetEntry(d: nat, k: nat, e: Pte)
      requires Valid() && d in pages && k < ENTRIES && e.frame < FRAMES
      modifies this`pages
      ensures Valid() && pages == old(pages)[d := old(pages[d])[k := e]]
    {
      pages := pages[d := pages[d][k := e]];
    }

    /** alloc_frame on the entry `page`. */
    method AllocFrame(page: (nat, nat), isKernel: bool, isWriteable: bool, pmm: Pmm.PhysicalMemory)
      requires Valid() && pmm.Valid() && page.0 in pages && page.1 < ENTRIES
      modifies this`pages, pmm, pmm.bitmap
      ensures Valid() && pmm.Valid()
      ensures var (e, s) := PagingSpec.AllocFrame(old(pages[page.0][page.1]), old(pmm.Abs()), isKernel, isWriteable);
        pages == old(pages)[page.0 := old(pages[page.0])[page.1 := e]] && pmm.Abs() == s
    {
      var (d, k) := page;
      var e := pages[d][k];
      if e.frame != 0 {
        assert pages[d][k := e] == pages[d];
        assert pages[d := pages[d]] == pages;
        return;
      }
      PagingProps.AllocPageAligned(pmm.Abs());
      var a := pmm.AllocPage();
      SetEntry(d, k, MapEntry(e, a, isKernel, isWriteable));
    }

    /** free_frame on the entry `page`. */
    method FreeFrame(page: (nat, nat), pmm: Pmm.PhysicalMemory)
      requires Valid() && pmm.Valid() && page.0 in pages && page.1 < ENTRIES
      modifies this`pages, pmm, pmm.bitmap
      ensures Valid() && pmm.Valid()
      ensures var (e, s) := PagingSpec.FreeFrame(old(pages[page.0][page.1]), old(pmm.Abs()));
        pages == old(pages)[page.0 := old(pages[page.0])[page.1 := e]] && pmm.Abs() == s
    {
      var (d, k) := page;
      var e := pages[d][k];
      if e.frame == 0 {
        assert pages[d][k := e] == pages[d];
        assert pages[d := pages[d]] == pages;
        return;
      }
      pmm.FreePage(e.frame * PAGE_SIZE);
      SetEntry(d, k, e.(frame := 0));
    }

    /** map_page in this directory: the page of v is mapped to the frame of
        physical with the given flags, creating its table if need be; the
        MMU's view of every other page is unchanged. */
    method MapPage(v: nat, physicalAddr: nat, isKernel: bool, isWriteable: bool, pmm: Pmm.PhysicalMemory)
      requires Valid() && pmm.Valid() && IsU32(v) && IsU32(physicalAddr)
      requires tables[DirIndex(v)] == 0 ==> AllocPage(pmm.Abs()).1 != 0
      modifies this`pages, tables, physical, pmm, pmm.bitmap
      ensures Valid() && pmm.Valid()
      ensures old(tables[DirIndex(v)]) != 0 ==> pmm.Abs() == old(pmm.Abs()) && tables[..] == old(tables[..])
      ensures old(tables[DirIndex(v)]) == 0 ==>
        && (pmm.Abs(), tables[DirIndex(v)]) == AllocPage(old(pmm.Abs()))
        && tables[..] == old(tables[..])[DirIndex(v) := tables[DirIndex(v)]]
      ensures pages.Keys == old(pages).Keys + {DirIndex(v)}
      ensures var e := pages[DirIndex(v)][TableIndex(v)];
        e.present && e.rw == isWriteable && e.user == !isKernel && e.frame == physicalAddr / PAGE_SIZE
      ensures forall u {:trigger PagingSpec.Translate(pages, u)} :: IsU32(u) && u / PAGE_SIZE == v / PAGE_SIZE ==>
        PagingSpec.Translate(pages, u) == Some(physicalAddr / PAGE_SIZE * PAGE_SIZE + u % PAGE_SIZE)
      ensures forall u {:trigger PagingSpec.Translate(pages, u)} :: IsU32(u) && u / PAGE_SIZE != v / PAGE_SIZE ==>
        PagingSpec.Translate(pages, u) == PagingSpec.Translate(old(pages), u)
    {
      var page := GetPage(v, true, pmm);
      var (d, k) := page.value;
      ghost var mid := pages;
      var e := MapEntry(pages[d][k], physicalAddr, isKernel, isWriteable);
      SetEntry(d, k, e);
      PagingProps.MapView(old(pages), mid, pages, v, e, physicalAddr / PAGE_SIZE);
    }

    /** unmap_page in this directory: when v's table exists, the entry of
        v loses only its present bit; nothing else changes. */
    method UnmapPage(v: nat, pmm: Pmm.PhysicalMemory)
      requires Valid() && pmm.Valid() && IsU32(v)
      modifies this`pages, tables, physical, pmm, pmm.bitmap
      ensures Valid() && pmm.Valid() && pmm.Abs() == old(pmm.Abs())
      ensures tables[..] == old(tables[..]) && physical[..] == old(physical[..])
      ensures var d, k := DirIndex(v), TableIndex(v);
        pages == if d in old(pages) then old(pages)[d := old(pages[d])[k := UnmapEntry(old(pages[d][k]))]] else old(pages)
      ensures PagingSpec.Translate(pages, v) == None
      ensures forall u {:trigger PagingSpec.Translate(pages, u)} :: IsU32(u) && u / PAGE_SIZE != v / PAGE_SIZE ==>
        PagingSpec.Translate(pages, u) == PagingSpec.Translate(old(pages), u)
    {
      var page := GetPage(v, false, pmm);
      if page.Some? {
        var (d, k) := page.value;
        SetEntry(d, k, UnmapEntry(pages[d][k]));
      }
      TranslateEntry(pages, v);
      forall u | IsU32(u) && u / PAGE_SIZE != v / PAGE_SIZE
        ensures PagingSpec.Translate(pages, u) == PagingSpec.Translate(old(pages), u)
      {
        PagingProps.OtherPageOtherIndex(u, v);
        if page.Some? {
          PagingProps.LookupOther(old(pages), DirIndex(v), TableIndex(v), pages[DirIndex(v)][TableIndex(v)], u);
        }
      }
    }
  }
}

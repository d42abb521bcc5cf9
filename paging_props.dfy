/** Properties of the paging model: what alloc_frame hands out, where the
    first page table of paging_init lands, and how the MMU's view of the
    tables changes when one entry or one fresh table changes. */
module PagingProps {
  import opened Word
  import opened FsBitmap
  import opened PmmSpec
  import PmmProps
  import opened PagingSpec

  // -------------------------------------------------------------------
  // Pages from the physical allocator
  // -------------------------------------------------------------------

  /** Page 0 and the two pages from b on are marked used. */
  predicate Holds(s: PageMap, b: nat) {
    && MapOk(s) && b + 1 < BITMAP_CAPACITY * 8
    && Test(s.bitmap, 0) && Test(s.bitmap, b) && Test(s.bitmap, b + 1)
  }

  /** At least k of the pages the bitmap covers are free. */
  predicate Room(s: PageMap, k: nat) {
    MapOk(s) && Count(s.bitmap, Bits(s)) + k <= Bits(s)
  }

  /** pmm_alloc_page hands out a page-aligned 32-bit address. */
  lemma AllocPageAligned(s: PageMap)
    requires MapOk(s)
    ensures var (r, a) := AllocPage(s);
      a % PAGE_SIZE == 0 && IsU32(a) && a / PAGE_SIZE < FRAMES
  {
    match FirstClear(s.bitmap, 0, Bits(s))
    case None =>
    case Some(p) =>
      assert AddressOf(p) / PAGE_SIZE == p;
      PageOfAddress(s, p);
  }

  /** pmm_alloc_page never clears a bit: pages marked used stay used. */
  lemma AllocPageKeeps(s: PageMap, b: nat)
    requires Holds(s, b)
    ensures Holds(AllocPage(s).0, b)
  {
    PmmProps.AllocPageEffect(s);
  }

  /** With page 0 in use and fewer set bits than bits, pmm_alloc_page
      succeeds: it hands out a page that was clear, sets its bit, and the
      count of set bits grows by one. */
  lemma {:induction false} AllocPageSucceeds(s: PageMap, k: nat)
    requires Room(s, k + 1) && Test(s.bitmap, 0)
    ensures var (r, a) := AllocPage(s);
      && a != 0 && a / PAGE_SIZE < Bits(s) && !Test(s.bitmap, a / PAGE_SIZE)
      && Test(r.bitmap, a / PAGE_SIZE) && Room(r, k)
  {
    match FirstClear(s.bitmap, 0, Bits(s))
    case None =>
      CountPrefix(s.bitmap, Bits(s), Bits(s));
      assert false;
    case Some(p) =>
      assert AddressOf(p) / PAGE_SIZE == p;
      PageOfAddress(s, p);
      CountSet(s.bitmap, p, Bits(s));
  }

  /** A page table allocated while page 0 and the directory's pages from b
      are used: it is a real page, not one of the directory's, and those
      pages stay used. */
  lemma FreshTable(s: PageMap, b: nat, k: nat)
    requires Holds(s, b) && Room(s, k + 1)
    ensures var (r, a) := AllocPage(s);
      && a != 0 && a / PAGE_SIZE != b && a / PAGE_SIZE != b + 1
      && Holds(r, b) && Room(r, k)
  {
    AllocPageSucceeds(s, k);
    AllocPageKeeps(s, b);
  }

  /** pmm_alloc_pages(2), when it succeeds, reserves the page it returns
      and the next one, and leaves page 0 used. */
  lemma AllocTwoReserves(s: PageMap)
    requires MapOk(s) && Test(s.bitmap, 0) && AllocPages(s, 2).1 != 0
    ensures var (r, d) := AllocPages(s, 2);
      d % PAGE_SIZE == 0 && IsU32(d + PAGE_SIZE) && Holds(r, d / PAGE_SIZE)
  {
    PmmProps.AllocPagesEffect(s, 2);
    match FirstRun(s, 2, 0)
    case None =>
    case Some(t) =>
      assert AddressOf(t) / PAGE_SIZE == t;
  }

  // -------------------------------------------------------------------
  // paging_init as written
  // -------------------------------------------------------------------

  /** alloc_frame ignores the virtual address of the entry: with the first
      MiB reserved, as pmm_init leaves it, the entry for a virtual page
      below 1 MiB other than page 0 never gets that page as its frame, so
      the loop announced as an identity map does not build one. */
  lemma AllocFrameNotIdentity(e: Pte, s: PageMap, isKernel: bool, isWriteable: bool, vpage: nat)
    requires MapOk(s) && e.frame == 0 && 0 < vpage < FIRST_MB_PAGES
    requires forall c :: 0 <= c < FIRST_MB_PAGES ==> Test(s.bitmap, c)
    ensures var (r, _) := AllocFrame(e, s, isKernel, isWriteable);
      r.present && r.frame != vpage
  {
    match FirstClear(s.bitmap, 0, Bits(s))
    case None =>
    case Some(p) =>
      assert AddressOf(p) / PAGE_SIZE == p;
  }

  /** page_directory_t takes 8 KiB but paging_init asks pmm_alloc_page for
      one 4 KiB page. When the page after the directory is free, as it is
      above the kernel after pmm_init, the first table get_page allocates
      is that page: the tables[] half of the directory itself. */
  lemma DirectoryOverlapsFirstTable(s: PageMap, p: nat)
    requires MapOk(s) && p + 1 < Bits(s)
    requires !Test(s.bitmap, p) && !Test(s.bitmap, p + 1)
    requires forall c :: 0 <= c < p ==> Test(s.bitmap, c)
    ensures var (s1, dir) := AllocPage(s);
      var (_, table) := AllocPage(s1);
      && dir == AddressOf(p) && table == dir + TABLES_OFFSET
      && dir < table < dir + DIRECTORY_BYTES
  {
    FirstClearIs(s.bitmap, 0, Bits(s), p);
    PageOfAddress(s, p);
    var s1 := SetUsed(s, AddressOf(p));
    assert s1.bitmap == Set(s.bitmap, p);
    FirstClearIs(s1.bitmap, 0, Bits(s1), p + 1);
    PageOfAddress(s1, p + 1);
  }

  // -------------------------------------------------------------------
  // The MMU's view
  // -------------------------------------------------------------------

  /** Writing one entry changes the lookup of no other page. */
  lemma LookupOther(pages: map<nat, seq<Pte>>, d: nat, t: nat, e: Pte, u: nat)
    requires d in pages && t < |pages[d]|
    requires DirIndex(u) != d || TableIndex(u) != t
    ensures Lookup(pages[d := pages[d][t := e]], u) == Lookup(pages, u)
    ensures Translate(pages[d := pages[d][t := e]], u) == Translate(pages, u)
  {
  }

  /** Adding a blank table maps nothing new. */
  lemma TranslateNewTable(pages: map<nat, seq<Pte>>, d: nat, table: seq<Pte>, u: nat)
    requires d !in pages && BlankTable(table)
    ensures Translate(pages[d := table], u) == Translate(pages, u)
  {
    TranslateEntry(pages[d := table], u);
    TranslateEntry(pages, u);
  }

  /** map_page's effect on the MMU's view. get_page either found v's
      table (mid is before) or added a blank one; the entry of v is then
      set to a present entry e. Every address in v's page now goes to e's
      frame, and every other address where it went before. */
  lemma MapView(before: map<nat, seq<Pte>>, mid: map<nat, seq<Pte>>, after: map<nat, seq<Pte>>, v: nat, e: Pte, frame: nat)
    requires IsU32(v) && e.present && e.frame == frame
    requires var d := DirIndex(v);
      && d in mid && TableIndex(v) < |mid[d]|
      && (mid == before || (d !in before && BlankTable(mid[d]) && mid == before[d := mid[d]]))
      && after == mid[d := mid[d][TableIndex(v) := e]]
    ensures forall u {:trigger Translate(after, u)} :: IsU32(u) && u / PAGE_SIZE == v / PAGE_SIZE ==>
      Translate(after, u) == Some(frame * PAGE_SIZE + u % PAGE_SIZE)
    ensures forall u {:trigger Translate(after, u)} :: IsU32(u) && u / PAGE_SIZE != v / PAGE_SIZE ==> Translate(after, u) == Translate(before, u)
  {
    var d, k := DirIndex(v), TableIndex(v);
    forall u | IsU32(u) && u / PAGE_SIZE == v / PAGE_SIZE
      ensures Translate(after, u) == Some(e.frame * PAGE_SIZE + u % PAGE_SIZE)
    {
      IndicesSplit(u);
      IndicesSplit(v);
      TranslateEntry(after, u);
    }
    forall u | IsU32(u) && u / PAGE_SIZE != v / PAGE_SIZE
      ensures Translate(after, u) == Translate(before, u)
    {
      OtherPageOtherIndex(u, v);
      LookupOther(mid, d, k, e, u);
      if mid != before {
        TranslateNewTable(before, d, mid[d], u);
      }
    }
  }

  /** Tables other than the first one do not change the MMU's view of the
      first 4 MiB. */
  lemma FirstTableView(before: map<nat, seq<Pte>>, after: map<nat, seq<Pte>>)
    requires 0 in before && 0 in after && after[0] == before[0]
    ensures forall u :: 0 <= u < ENTRIES * PAGE_SIZE ==> Translate(after, u) == Translate(before, u)
  {
    forall u | 0 <= u < ENTRIES * PAGE_SIZE
      ensures Translate(after, u) == Translate(before, u)
    {
      assert DirIndex(u) == 0;
    }
  }

  /** Two 32-bit addresses in different pages differ in an index. */
  lemma OtherPageOtherIndex(u: nat, v: nat)
    requires IsU32(u) && IsU32(v) && u / PAGE_SIZE != v / PAGE_SIZE
    ensures DirIndex(u) != DirIndex(v) || TableIndex(u) != TableIndex(v)
  {
    if DirIndex(u) == DirIndex(v) && TableIndex(u) == TableIndex(v) {
      SameIndicesSamePage(u, v);
    }
  }

  /** Mapping page i to itself, with the pages below it already mapped to
      themselves and every other page left alone, extends the identity map
      by one page. */
  lemma ExtendIdentity(before: map<nat, seq<Pte>>, after: map<nat, seq<Pte>>, i: nat, v: nat)
    requires i < FRAMES && v == i * PAGE_SIZE
    requires forall u :: 0 <= u < v ==> Translate(before, u) == Some(u)
    requires forall u {:trigger Translate(after, u)} :: IsU32(u) && u / PAGE_SIZE != v / PAGE_SIZE ==> Translate(after, u) == Translate(before, u)
    requires forall u {:trigger Translate(after, u)} :: IsU32(u) && u / PAGE_SIZE == v / PAGE_SIZE ==>
      Translate(after, u) == Some(v / PAGE_SIZE * PAGE_SIZE + u % PAGE_SIZE)
    ensures forall u :: 0 <= u < v + PAGE_SIZE ==> Translate(after, u) == Some(u)
  {
    assert v / PAGE_SIZE == i;
    forall u | 0 <= u < v + PAGE_SIZE
      ensures Translate(after, u) == Some(u)
    {
      assert IsU32(u);
      if u / PAGE_SIZE == i {
        assert u == i * PAGE_SIZE + u % PAGE_SIZE;
      } else {
        assert u < v;
      }
    }
  }
}

/** The physical page allocator of kernel/pmm.c as values: one bit per 4 KiB
    page (page p at bit p % 8 of byte p / 8, the layout of the block bitmap),
    the page count, the bitmap length in bytes and the used-page counter.
    The x86 build is modelled: PHY_BASE is 0 and the bitmap sits at a fixed
    address, here a buffer of BITMAP_CAPACITY bytes. */
module PmmSpec {
  import opened Word
  import opened FsBitmap

  const PAGE_SIZE: nat := 4096
  const PAGES_PER_BYTE: nat := 8
  const PHY_BASE: nat := 0
  /** Pages below 1 MiB stay reserved. */
  const FIRST_MB_PAGES: nat := 256
  /** A 32-bit usable size gives fewer than 2^20 pages. */
  const MAX_PAGES: nat := 0x10_0000
  const BITMAP_CAPACITY: nat := 0x2_0000

  datatype PageMap = PageMap(bitmap: seq<byte>, totalPages: nat, usedPages: nat, bitmapSize: nat)

  /** bitmap_size as pmm_init computes it: total_pages / 8, plus one for a
      partial last byte. */
  function BitmapBytesFor(total: nat): (r: nat)
    ensures total <= 8 * r < total + 8
  {
    total / PAGES_PER_BYTE + (if total % PAGES_PER_BYTE != 0 then 1 else 0)
  }

  /** The shapes every reachable state has: the buffer, fewer than 2^20
      pages, a bitmap length matching the page count, a 32-bit counter. */
  predicate MapOk(s: PageMap) {
    && |s.bitmap| == BITMAP_CAPACITY && s.totalPages < MAX_PAGES
    && s.bitmapSize == BitmapBytesFor(s.totalPages) && IsU32(s.usedPages)
  }

  /** The number of bits the bitmap covers. */
  function Bits(s: PageMap): nat {
    PAGES_PER_BYTE * s.bitmapSize
  }

  /** The page an address names, when it names one the bitmap covers. The
      test for an address below PHY_BASE never holds with PHY_BASE = 0. */
  function PageOf(s: PageMap, address: nat): (r: Option<nat>)
    requires MapOk(s)
    ensures r.Some? ==> r.value < Bits(s) && r.value < MAX_PAGES
  {
    var page := (address - PHY_BASE) / PAGE_SIZE;
    if page / PAGES_PER_BYTE >= s.bitmapSize then None else Some(page)
  }

  /** The address of page p. */
  function AddressOf(p: nat): nat {
    p * PAGE_SIZE + PHY_BASE
  }

  /** The address of a page below 2^20 names that page when the bitmap
      covers it, and nothing otherwise. */
  lemma PageOfAddress(s: PageMap, p: nat)
    requires MapOk(s) && p < MAX_PAGES
    ensures PageOf(s, AddressOf(p)) == (if p < Bits(s) then Some(p) else None)
    ensures IsU32(AddressOf(p))
  {
    assert AddressOf(p) / PAGE_SIZE == p;
  }

  /** pmm_set_page_used: set the page's bit, and count it when it was clear. */
  function SetUsed(s: PageMap, address: nat): (r: PageMap)
    requires MapOk(s)
    ensures MapOk(r) && r.totalPages == s.totalPages && r.bitmapSize == s.bitmapSize
  {
    match PageOf(s, address)
    case None => s
    case Some(page) =>
      var wasFree := !Test(s.bitmap, page);
      s.(bitmap := Set(s.bitmap, page),
         usedPages := if wasFree then Wrap32(s.usedPages + 1) else s.usedPages)
  }

  /** pmm_set_page_free: clear the page's bit, and uncount it when it was
      set (the unsigned decrement wraps at 0). */
  function SetFree(s: PageMap, address: nat): (r: PageMap)
    requires MapOk(s)
    ensures MapOk(r) && r.totalPages == s.totalPages && r.bitmapSize == s.bitmapSize
  {
    match PageOf(s, address)
    case None => s
    case Some(page) =>
      var wasUsed := Test(s.bitmap, page);
      s.(bitmap := Clear(s.bitmap, page),
         usedPages := if wasUsed then Wrap32(s.usedPages - 1) else s.usedPages)
  }

  /** pmm_alloc_page: the lowest clear bit the bitmap covers, scanned byte
      by byte; 0 when every bit is set. */
  function AllocPage(s: PageMap): (r: (PageMap, nat))
    requires MapOk(s)
    ensures MapOk(r.0) && r.0.totalPages == s.totalPages && r.0.bitmapSize == s.bitmapSize
  {
    match FirstClear(s.bitmap, 0, Bits(s))
    case None => (s, 0)
    case Some(p) => (SetUsed(s, AddressOf(p)), AddressOf(p))
  }

  /** Pages s .. s+count-1 all exist and are all clear. */
  predicate RunAt(s: PageMap, start: nat, count: nat)
    requires MapOk(s)
  {
    && start + count <= s.totalPages
    && forall c :: start <= c < start + count ==> !Test(s.bitmap, c)
  }

  /** The lowest start, from `from` on, of a run of count clear pages below
      total_pages. */
  function FirstRun(s: PageMap, count: nat, from: nat): (r: Option<nat>)
    requires MapOk(s)
    ensures r.Some? ==> from <= r.value && RunAt(s, r.value, count)
    ensures r.Some? ==> forall t :: from <= t < r.value ==> !RunAt(s, t, count)
    ensures r.None? ==> forall t :: from <= t ==> !RunAt(s, t, count)
    decreases s.totalPages - from
  {
    if from + count > s.totalPages then None
    else if RunAt(s, from, count) then Some(from)
    else FirstRun(s, count, from + 1)
  }

  /** The pages from start on marked used one after the other, k of them. */
  function UseRun(s: PageMap, start: nat, k: nat): (r: PageMap)
    requires MapOk(s) && start + k <= MAX_PAGES
    ensures MapOk(r) && r.totalPages == s.totalPages && r.bitmapSize == s.bitmapSize
  {
    if k == 0 then s else SetUsed(UseRun(s, start, k - 1), AddressOf(start + k - 1))
  }

  /** pmm_alloc_pages: 0 for no pages, pmm_alloc_page for one, otherwise the
      lowest run of count clear pages below total_pages, all marked used. */
  function AllocPages(s: PageMap, count: nat): (r: (PageMap, nat))
    requires MapOk(s)
    ensures MapOk(r.0) && r.0.totalPages == s.totalPages && r.0.bitmapSize == s.bitmapSize
  {
    if count == 0 then (s, 0)
    else if count == 1 then AllocPage(s)
    else
      match FirstRun(s, count, 0)
      case None => (s, 0)
      case Some(start) => (UseRun(s, start, count), AddressOf(start))
  }

  /** pmm_free_pages: the k pages from address on freed one after the other;
      the addresses are 32-bit sums. */
  function FreeRun(s: PageMap, address: nat, k: nat): (r: PageMap)
    requires MapOk(s)
    ensures MapOk(r) && r.totalPages == s.totalPages && r.bitmapSize == s.bitmapSize
  {
    if k == 0 then s else SetFree(FreeRun(s, address, k - 1), Wrap32(address + (k - 1) * PAGE_SIZE))
  }

  /** pmm_get_free_pages, in 32-bit arithmetic. */
  function FreePages(s: PageMap): nat {
    Wrap32(s.totalPages - s.usedPages)
  }

  /** pmm_get_total_memory, pmm_get_used_memory, pmm_get_free_memory. */
  function TotalMemory(s: PageMap): nat {
    Wrap32(s.totalPages * PAGE_SIZE)
  }

  function UsedMemory(s: PageMap): nat {
    Wrap32(s.usedPages * PAGE_SIZE)
  }

  function FreeMemory(s: PageMap): nat {
    Wrap32(FreePages(s) * PAGE_SIZE)
  }

  /** The first size bytes of the bitmap set to 0xFF. */
  function Fill(bm: seq<byte>, size: nat): (r: seq<byte>)
    ensures |r| == |bm|
  {
    seq(|bm|, i requires 0 <= i < |bm| => if i < size then 0xFF else bm[i])
  }

  /** The bitmap set-up of pmm_init, as written: nothing without usable
      memory; otherwise size the bitmap, fill it with 0xFF, free every page
      from 1 MiB up to total_pages, then mark the kernel's pages used. The
      counter is left as it was before the fill. */
  function InitAsWritten(s: PageMap, usable: nat, kernelEnd: nat): (r: PageMap)
    requires MapOk(s) && IsU32(usable) && IsU32(kernelEnd)
    ensures MapOk(r)
  {
    if usable == 0 then s
    else
      var total := usable / PAGE_SIZE;
      var size := BitmapBytesFor(total);
      var s1 := s.(totalPages := total, bitmapSize := size, bitmap := Fill(s.bitmap, size));
      InitPages(s1, kernelEnd)
  }

  /** The two loops of pmm_init after the fill. */
  function InitPages(s1: PageMap, kernelEnd: nat): (r: PageMap)
    requires MapOk(s1) && IsU32(kernelEnd)
    ensures MapOk(r) && r.totalPages == s1.totalPages && r.bitmapSize == s1.bitmapSize
  {
    UseRun(FreeAboveFirstMb(s1), 0, KernelPages(kernelEnd))
  }

  /** The first loop of pmm_init: every page from 1 MiB up to total_pages
      freed. */
  function FreeAboveFirstMb(s1: PageMap): (r: PageMap)
    requires MapOk(s1)
    ensures MapOk(r) && r.totalPages == s1.totalPages && r.bitmapSize == s1.bitmapSize
  {
    FreeRun(s1, AddressOf(FIRST_MB_PAGES), PagesAboveFirstMb(s1.totalPages))
  }

  /** How many of total pages lie at or above 1 MiB. */
  function PagesAboveFirstMb(total: nat): (r: nat)
    ensures FIRST_MB_PAGES + r == total || (r == 0 && total <= FIRST_MB_PAGES)
  {
    if total > FIRST_MB_PAGES then total - FIRST_MB_PAGES else 0
  }

  /** kernel_pages: the pages up to and including the one holding
      kernel_end. */
  function KernelPages(kernelEnd: nat): (r: nat)
    requires IsU32(kernelEnd)
    ensures 1 <= r <= MAX_PAGES
  {
    Wrap32(kernelEnd - PHY_BASE) / PAGE_SIZE + 1
  }

  /** pmm_init with the counter set to total_pages when the fill marks
      every page used, so that it counts the used pages afterwards. */
  function Init(s: PageMap, usable: nat, kernelEnd: nat): (r: PageMap)
    requires MapOk(s) && IsU32(usable) && IsU32(kernelEnd)
    ensures MapOk(r)
  {
    if usable == 0 then s
    else
      var total := usable / PAGE_SIZE;
      var size := BitmapBytesFor(total);
      var s1 := PageMap(Fill(s.bitmap, size), total, total, size);
      InitPages(s1, kernelEnd)
  }
}

/** What kernel/pmm.c's operations do to the page bitmap and why the
    used-page counter keeps counting the used pages. */
module PmmProps {
  import opened Word
  import opened FsBitmap
  import opened PmmSpec

  /** Bits past total_pages in the last bitmap byte stay set (pmm_init's
      fill sets them and nothing that frees existing pages clears them). */
  predicate SlackSet(s: PageMap)
    requires MapOk(s)
  {
    forall c :: s.totalPages <= c < Bits(s) ==> Test(s.bitmap, c)
  }

  /** used_pages is the number of set bits among the existing pages. */
  predicate Consistent(s: PageMap) {
    MapOk(s) && SlackSet(s) && s.usedPages == Count(s.bitmap, s.totalPages)
  }

  /** How far the counter is from the number of used pages, in 32-bit
      arithmetic: 0 exactly when the counter is right. */
  function Drift(s: PageMap): nat
    requires MapOk(s)
  {
    Wrap32(s.usedPages - Count(s.bitmap, s.totalPages))
  }

  lemma ConsistentIffNoDrift(s: PageMap)
    requires MapOk(s)
    ensures Consistent(s) <==> SlackSet(s) && Drift(s) == 0
  {
  }

  /** Moving the counter and the count by the same step keeps their
      32-bit distance. */
  lemma DriftStep(u: nat, c: nat, d: int)
    requires IsU32(u) && IsU32(c) && (d == 1 || d == -1) && IsU32(c + d)
    ensures Wrap32(Wrap32(u + d) - (c + d)) == Wrap32(u - c)
  {
    if u + d == U32 {
      assert Wrap32(u + d) == 0;
    } else if u + d < 0 {
      assert Wrap32(u + d) == U32 - 1;
    } else {
      assert Wrap32(u + d) == u + d;
    }
  }

  // -------------------------------------------------------------------
  // Single bits
  // -------------------------------------------------------------------

  /** Setting a bit that is already set changes nothing. */
  lemma SetNoop(bm: seq<byte>, b: nat)
    requires b < 8 * |bm| && Test(bm, b)
    ensures Set(bm, b) == bm
  {
    var k := b % 8;
    assert bm[b / 8] | Mask(k) == bm[b / 8];
  }

  /** Clearing a bit that is already clear changes nothing. */
  lemma ClearNoop(bm: seq<byte>, b: nat)
    requires b < 8 * |bm| && !Test(bm, b)
    ensures Clear(bm, b) == bm
  {
    var k := b % 8;
    assert bm[b / 8] & NotMask(k) == bm[b / 8];
  }

  /** pmm_set_page_used: a covered page ends up used and is counted once if
      it was free; no other bit changes; an address past the bitmap changes
      nothing. */
  lemma SetUsedEffect(s: PageMap, address: nat)
    requires MapOk(s)
    ensures var r := SetUsed(s, address);
      match PageOf(s, address)
      case None => r == s
      case Some(p) =>
        && Test(r.bitmap, p)
        && (forall c :: 0 <= c < 8 * |s.bitmap| && c != p ==> Test(r.bitmap, c) == Test(s.bitmap, c))
        && r.usedPages == (if Test(s.bitmap, p) then s.usedPages else Wrap32(s.usedPages + 1))
  {
  }

  /** pmm_set_page_free: a covered page ends up free and is uncounted once
      if it was used; no other bit changes; an address past the bitmap
      changes nothing. */
  lemma SetFreeEffect(s: PageMap, address: nat)
    requires MapOk(s)
    ensures var r := SetFree(s, address);
      match PageOf(s, address)
      case None => r == s
      case Some(p) =>
        && !Test(r.bitmap, p)
        && (forall c :: 0 <= c < 8 * |s.bitmap| && c != p ==> Test(r.bitmap, c) == Test(s.bitmap, c))
        && r.usedPages == (if Test(s.bitmap, p) then Wrap32(s.usedPages - 1) else s.usedPages)
  {
  }

  /** Marking a page used twice is marking it once. */
  lemma SetUsedIdempotent(s: PageMap, address: nat)
    requires MapOk(s)
    ensures SetUsed(SetUsed(s, address), address) == SetUsed(s, address)
  {
    var r := SetUsed(s, address);
    match PageOf(s, address)
    case None =>
    case Some(p) =>
      assert PageOf(r, address) == Some(p);
      SetNoop(r.bitmap, p);
  }

  /** Freeing a page twice is freeing it once. */
  lemma SetFreeIdempotent(s: PageMap, address: nat)
    requires MapOk(s)
    ensures SetFree(SetFree(s, address), address) == SetFree(s, address)
  {
    var r := SetFree(s, address);
    match PageOf(s, address)
    case None =>
    case Some(p) =>
      assert PageOf(r, address) == Some(p);
      ClearNoop(r.bitmap, p);
  }

  /** Marking a page used keeps the slack bits set. */
  lemma SetUsedSlack(s: PageMap, address: nat)
    requires MapOk(s) && SlackSet(s)
    ensures SlackSet(SetUsed(s, address))
  {
    var r := SetUsed(s, address);
    forall c | s.totalPages <= c < Bits(s)
      ensures Test(r.bitmap, c)
    {
      assert Test(s.bitmap, c);
    }
  }

  /** Marking a page used, with the slack bits set, either changes nothing
      or sets one existing page's bit and counts it. */
  lemma SetUsedStep(s: PageMap, address: nat)
    requires MapOk(s) && SlackSet(s)
    ensures var r := SetUsed(s, address);
      && SlackSet(r)
      && ((r.usedPages == s.usedPages && Count(r.bitmap, r.totalPages) == Count(s.bitmap, s.totalPages))
       || (r.usedPages == Wrap32(s.usedPages + 1) && Count(r.bitmap, r.totalPages) == Count(s.bitmap, s.totalPages) + 1))
  {
    SetUsedSlack(s, address);
    match PageOf(s, address)
    case None =>
    case Some(p) =>
      if Test(s.bitmap, p) {
        SetNoop(s.bitmap, p);
      } else {
        assert p < s.totalPages;
        CountSet(s.bitmap, p, s.totalPages);
      }
  }

  /** Freeing an existing page keeps the slack bits set. */
  lemma SetFreeSlack(s: PageMap, address: nat)
    requires MapOk(s) && SlackSet(s)
    requires PageOf(s, address).Some? ==> PageOf(s, address).value < s.totalPages
    ensures SlackSet(SetFree(s, address))
  {
    var r := SetFree(s, address);
    forall c | s.totalPages <= c < Bits(s)
      ensures Test(r.bitmap, c)
    {
      assert Test(s.bitmap, c);
    }
  }

  /** Freeing an existing page either changes nothing or clears one set bit
      and uncounts it; the slack bits stay set. */
  lemma SetFreeStep(s: PageMap, address: nat)
    requires MapOk(s) && SlackSet(s)
    requires PageOf(s, address).Some? ==> PageOf(s, address).value < s.totalPages
    ensures var r := SetFree(s, address);
      && SlackSet(r)
      && ((r.usedPages == s.usedPages && Count(r.bitmap, r.totalPages) == Count(s.bitmap, s.totalPages))
       || (0 < Count(s.bitmap, s.totalPages) && r.usedPages == Wrap32(s.usedPages - 1)
           && Count(r.bitmap, r.totalPages) == Count(s.bitmap, s.totalPages) - 1))
  {
    SetFreeSlack(s, address);
    match PageOf(s, address)
    case None =>
    case Some(p) =>
      if Test(s.bitmap, p) {
        CountClear(s.bitmap, p, s.totalPages);
        CountPositiveWithSet(s.bitmap, p, s.totalPages);
      } else {
        ClearNoop(s.bitmap, p);
      }
  }

  /** Marking a page used keeps the counter's distance to the used-page
      count, and keeps the slack bits set. */
  lemma SetUsedDrift(s: PageMap, address: nat)
    requires MapOk(s) && SlackSet(s)
    ensures var r := SetUsed(s, address);
      SlackSet(r) && Drift(r) == Drift(s)
  {
    var r := SetUsed(s, address);
    SetUsedStep(s, address);
    if r.usedPages != s.usedPages {
      DriftStep(s.usedPages, Count(s.bitmap, s.totalPages), 1);
    }
  }

  /** Freeing an existing page keeps the counter's distance to the
      used-page count, and keeps the slack bits set. */
  lemma SetFreeDrift(s: PageMap, address: nat)
    requires MapOk(s) && SlackSet(s)
    requires PageOf(s, address).Some? ==> PageOf(s, address).value < s.totalPages
    ensures var r := SetFree(s, address);
      SlackSet(r) && Drift(r) == Drift(s)
  {
    var r := SetFree(s, address);
    SetFreeStep(s, address);
    if Count(r.bitmap, r.totalPages) != Count(s.bitmap, s.totalPages) {
      DriftStep(s.usedPages, Count(s.bitmap, s.totalPages), -1);
    }
  }

  /** The counter stays right across pmm_set_page_used. */
  lemma SetUsedConsistent(s: PageMap, address: nat)
    requires Consistent(s)
    ensures Consistent(SetUsed(s, address))
  {
    SetUsedDrift(s, address);
  }

  /** The counter stays right across pmm_set_page_free of an existing page. */
  lemma SetFreeConsistent(s: PageMap, address: nat)
    requires Consistent(s)
    requires PageOf(s, address).Some? ==> PageOf(s, address).value < s.totalPages
    ensures Consistent(SetFree(s, address))
  {
    SetFreeDrift(s, address);
  }

  // -------------------------------------------------------------------
  // pmm_alloc_page
  // -------------------------------------------------------------------

  /** pmm_alloc_page hands out the address of the lowest free page the bitmap
      covers and marks it used, or returns 0 and changes nothing when every
      page is used. */
  lemma AllocPageEffect(s: PageMap)
    requires MapOk(s)
    ensures var (r, a) := AllocPage(s);
      && ((forall c :: 0 <= c < Bits(s) ==> Test(s.bitmap, c)) ==> r == s && a == 0)
      && (forall p :: 0 <= p < Bits(s) && !Test(s.bitmap, p) && (forall c :: 0 <= c < p ==> Test(s.bitmap, c)) ==>
            && a == AddressOf(p) && IsU32(a) && Test(r.bitmap, p)
            && (forall c :: 0 <= c < 8 * |s.bitmap| && c != p ==> Test(r.bitmap, c) == Test(s.bitmap, c))
            && r.usedPages == Wrap32(s.usedPages + 1))
  {
    forall p | 0 <= p < Bits(s) && !Test(s.bitmap, p) && (forall c :: 0 <= c < p ==> Test(s.bitmap, c))
      ensures var (r, a) := AllocPage(s);
        && a == AddressOf(p) && IsU32(a) && Test(r.bitmap, p)
        && (forall c :: 0 <= c < 8 * |s.bitmap| && c != p ==> Test(r.bitmap, c) == Test(s.bitmap, c))
        && r.usedPages == Wrap32(s.usedPages + 1)
    {
      FirstClearIs(s.bitmap, 0, Bits(s), p);
      PageOfAddress(s, p);
      SetUsedEffect(s, AddressOf(p));
    }
  }

  /** With the counter right, pmm_alloc_page keeps it right; a page it hands
      out exists (the slack bits are set). */
  lemma AllocPageConsistent(s: PageMap)
    requires Consistent(s)
    ensures var (r, a) := AllocPage(s);
      Consistent(r) && (a != 0 ==> a / PAGE_SIZE < s.totalPages)
  {
    match FirstClear(s.bitmap, 0, Bits(s))
    case None =>
    case Some(p) =>
      SetUsedConsistent(s, AddressOf(p));
  }

  // -------------------------------------------------------------------
  // Runs of pages
  // -------------------------------------------------------------------

  /** Marking k pages used from start sets exactly the covered ones among
      them. */
  lemma {:induction false} UseRunBits(s: PageMap, start: nat, k: nat, c: nat)
    requires MapOk(s) && start + k <= MAX_PAGES && c < 8 * |s.bitmap|
    ensures Test(UseRun(s, start, k).bitmap, c) == (Test(s.bitmap, c) || (start <= c < start + k && c < Bits(s)))
  {
    if k > 0 {
      var j: nat := k - 1;
      UseRunBits(s, start, j, c);
      UseRunLastBits(s, start, j, c);
    }
  }

  /** The last page of a run is marked used when the bitmap covers it. */
  lemma UseRunLastBits(s: PageMap, start: nat, j: nat, c: nat)
    requires MapOk(s) && start + j < MAX_PAGES && c < 8 * |s.bitmap|
    ensures Test(UseRun(s, start, j + 1).bitmap, c)
         == (Test(UseRun(s, start, j).bitmap, c) || (c == start + j && c < Bits(s)))
  {
    var u := UseRun(s, start, j);
    PageOfAddress(u, start + j);
    SetUsedEffect(u, AddressOf(start + j));
  }

  /** One more page of a run marked used. */
  lemma UseRunNext(s: PageMap, start: nat, i: nat)
    requires MapOk(s) && start + i < MAX_PAGES
    ensures UseRun(s, start, i + 1) == SetUsed(UseRun(s, start, i), AddressOf(start + i))
  {
  }

  /** One more page of a run freed. */
  lemma FreeRunNext(s: PageMap, address: nat, i: nat)
    requires MapOk(s)
    ensures FreeRun(s, address, i + 1) == SetFree(FreeRun(s, address, i), Wrap32(address + i * PAGE_SIZE))
  {
  }

  /** Marking pages used keeps the counter's distance and the slack bits. */
  lemma {:induction false} UseRunDrift(s: PageMap, start: nat, k: nat)
    requires MapOk(s) && SlackSet(s) && start + k <= MAX_PAGES
    ensures SlackSet(UseRun(s, start, k)) && Drift(UseRun(s, start, k)) == Drift(s)
  {
    if k > 0 {
      var j: nat := k - 1;
      UseRunDrift(s, start, j);
      UseRunLastDrift(s, start, j);
    }
  }

  /** The last page a run marks used keeps the counter's distance and the
      slack bits. */
  lemma UseRunLastDrift(s: PageMap, start: nat, j: nat)
    requires MapOk(s) && start + j < MAX_PAGES
    requires SlackSet(UseRun(s, start, j))
    ensures SlackSet(UseRun(s, start, j + 1))
    ensures Drift(UseRun(s, start, j + 1)) == Drift(UseRun(s, start, j))
  {
    SetUsedDrift(UseRun(s, start, j), AddressOf(start + j));
  }

  /** Below 2^20 pages the 32-bit address sums of pmm_free_pages do not
      wrap: the last of j + 1 pages freed is page b + j. */
  lemma FreeRunLast(s: PageMap, b: nat, j: nat)
    requires MapOk(s) && b + j < MAX_PAGES
    ensures FreeRun(s, AddressOf(b), j + 1) == SetFree(FreeRun(s, AddressOf(b), j), AddressOf(b + j))
  {
    assert Wrap32(AddressOf(b) + j * PAGE_SIZE) == AddressOf(b + j);
  }

  /** Freeing k pages from page b on, below 2^20 so that no address wraps,
      clears exactly the covered ones among them. */
  lemma {:induction false} FreeRunBits(s: PageMap, b: nat, k: nat, c: nat)
    requires MapOk(s) && b + k <= MAX_PAGES && c < 8 * |s.bitmap|
    ensures Test(FreeRun(s, AddressOf(b), k).bitmap, c) == (Test(s.bitmap, c) && !(b <= c < b + k && c < Bits(s)))
  {
    if k > 0 {
      var j: nat := k - 1;
      FreeRunBits(s, b, j, c);
      FreeRunLastBits(s, b, j, c);
    }
  }

  /** The last page of a run is freed when the bitmap covers it. */
  lemma FreeRunLastBits(s: PageMap, b: nat, j: nat, c: nat)
    requires MapOk(s) && b + j < MAX_PAGES && c < 8 * |s.bitmap|
    ensures Test(FreeRun(s, AddressOf(b), j + 1).bitmap, c)
         == (Test(FreeRun(s, AddressOf(b), j).bitmap, c) && !(c == b + j && c < Bits(s)))
  {
    var u := FreeRun(s, AddressOf(b), j);
    FreeRunLast(s, b, j);
    PageOfAddress(u, b + j);
    SetFreeEffect(u, AddressOf(b + j));
  }

  /** Freeing existing pages keeps the counter's distance and the slack
      bits. */
  lemma {:induction false} FreeRunDrift(s: PageMap, b: nat, k: nat)
    requires MapOk(s) && SlackSet(s) && b + k <= s.totalPages
    ensures SlackSet(FreeRun(s, AddressOf(b), k)) && Drift(FreeRun(s, AddressOf(b), k)) == Drift(s)
  {
    if k > 0 {
      var j: nat := k - 1;
      FreeRunDrift(s, b, j);
      FreeRunLastDrift(s, b, j);
    }
  }

  /** The last page pmm_free_pages frees keeps the counter's distance and
      the slack bits. */
  lemma FreeRunLastDrift(s: PageMap, b: nat, j: nat)
    requires MapOk(s) && b + j < s.totalPages
    requires SlackSet(FreeRun(s, AddressOf(b), j))
    ensures SlackSet(FreeRun(s, AddressOf(b), j + 1))
    ensures Drift(FreeRun(s, AddressOf(b), j + 1)) == Drift(FreeRun(s, AddressOf(b), j))
  {
    var u := FreeRun(s, AddressOf(b), j);
    FreeRunLast(s, b, j);
    PageOfAddress(u, b + j);
    SetFreeDrift(u, AddressOf(b + j));
  }

  /** pmm_free_pages on a range of existing pages keeps the counter right
      and frees exactly that range. */
  lemma FreeRunConsistent(s: PageMap, b: nat, k: nat)
    requires Consistent(s) && b + k <= s.totalPages
    ensures var r := FreeRun(s, AddressOf(b), k);
      && Consistent(r)
      && forall c :: 0 <= c < s.totalPages ==> (Test(r.bitmap, c) <==> Test(s.bitmap, c) && !(b <= c < b + k))
  {
    FreeRunDrift(s, b, k);
    forall c | 0 <= c < s.totalPages
      ensures Test(FreeRun(s, AddressOf(b), k).bitmap, c) <==> Test(s.bitmap, c) && !(b <= c < b + k)
    {
      FreeRunBits(s, b, k, c);
    }
  }

  /** pmm_alloc_pages(0) returns 0 and changes nothing, pmm_alloc_pages(1)
      is pmm_alloc_page, and for n >= 2 it hands out the lowest run of n
      free pages below total_pages and marks exactly those used; with no
      such run it returns 0 and changes nothing. */
  lemma AllocPagesEffect(s: PageMap, count: nat)
    requires MapOk(s)
    ensures count == 0 ==> AllocPages(s, count) == (s, 0)
    ensures count == 1 ==> AllocPages(s, count) == AllocPage(s)
    ensures var (r, a) := AllocPages(s, count);
      && (2 <= count && (forall t: nat :: !RunAt(s, t, count)) ==> r == s && a == 0)
      && (forall t: nat :: 2 <= count && RunAt(s, t, count) && (forall u: nat :: u < t ==> !RunAt(s, u, count)) ==>
            && a == AddressOf(t) && IsU32(a)
            && forall c :: 0 <= c < 8 * |s.bitmap| ==> (Test(r.bitmap, c) <==> Test(s.bitmap, c) || t <= c < t + count))
  {
    forall t: nat | 2 <= count && RunAt(s, t, count) && (forall u: nat :: u < t ==> !RunAt(s, u, count))
      ensures var (r, a) := AllocPages(s, count);
        && a == AddressOf(t) && IsU32(a)
        && forall c :: 0 <= c < 8 * |s.bitmap| ==> (Test(r.bitmap, c) <==> Test(s.bitmap, c) || t <= c < t + count)
    {
      FirstRunIs(s, count, t);
      forall c | 0 <= c < 8 * |s.bitmap|
        ensures Test(UseRun(s, t, count).bitmap, c) <==> Test(s.bitmap, c) || t <= c < t + count
      {
        UseRunBits(s, t, count, c);
      }
    }
  }

  /** A run with none before it is the one the scan finds. */
  lemma FirstRunIs(s: PageMap, count: nat, t: nat)
    requires MapOk(s) && RunAt(s, t, count)
    requires forall u: nat :: u < t ==> !RunAt(s, u, count)
    ensures FirstRun(s, count, 0) == Some(t)
  {
  }

  /** With the counter right, pmm_alloc_pages keeps it right. */
  lemma AllocPagesConsistent(s: PageMap, count: nat)
    requires Consistent(s)
    ensures Consistent(AllocPages(s, count).0)
  {
    if count == 1 {
      AllocPageConsistent(s);
    } else if count >= 2 {
      match FirstRun(s, count, 0)
      case None =>
      case Some(t) =>
        UseRunDrift(s, t, count);
        ConsistentIffNoDrift(s);
        ConsistentIffNoDrift(UseRun(s, t, count));
    }
  }

  /** With the counter right, pmm_get_free_pages is the number of free
      pages. */
  lemma FreePagesCount(s: PageMap)
    requires Consistent(s)
    ensures FreePages(s) == s.totalPages - Count(s.bitmap, s.totalPages)
    ensures TotalMemory(s) == s.totalPages * PAGE_SIZE
    ensures UsedMemory(s) + FreeMemory(s) == TotalMemory(s)
  {
    assert s.totalPages * PAGE_SIZE < U32;
  }

  // -------------------------------------------------------------------
  // pmm_init
  // -------------------------------------------------------------------

  /** After the fill every covered bit is set. */
  lemma FillBits(bm: seq<byte>, size: nat, c: nat)
    requires c < 8 * |bm|
    ensures Test(Fill(bm, size), c) == (c / 8 < size || Test(bm, c))
  {
    var f := Fill(bm, size);
    if c / 8 < size {
      assert f[c / 8] == 0xFF;
      var k := c % 8;
      assert Bit(0xFF, k);
    }
  }

  /** The state right after the fill: bitmap sized and filled, counter as
      given. */
  predicate Filled(s1: PageMap)
    requires MapOk(s1)
  {
    forall c :: 0 <= c < Bits(s1) ==> Test(s1.bitmap, c)
  }

  lemma FilledCount(s1: PageMap)
    requires MapOk(s1) && Filled(s1)
    ensures SlackSet(s1) && Count(s1.bitmap, s1.totalPages) == s1.totalPages
  {
    CountPrefix(s1.bitmap, s1.totalPages, s1.totalPages);
  }

  lemma FillFilled(s: PageMap, s1: PageMap)
    requires MapOk(s) && MapOk(s1) && s1.bitmap == Fill(s.bitmap, s1.bitmapSize)
    ensures Filled(s1)
  {
    forall c | 0 <= c < Bits(s1)
      ensures Test(s1.bitmap, c)
    {
      FillBits(s.bitmap, s1.bitmapSize, c);
    }
  }

  /** After the two loops of pmm_init, an existing page is used exactly when
      it lies below 1 MiB or is one of the kernel's pages. */
  lemma InitPagesBits(s1: PageMap, kernelEnd: nat, p: nat)
    requires MapOk(s1) && Filled(s1) && IsU32(kernelEnd) && p < s1.totalPages
    ensures Test(InitPages(s1, kernelEnd).bitmap, p) == (p < FIRST_MB_PAGES || p < KernelPages(kernelEnd))
  {
    FreeAboveBits(s1, p);
    UseRunBits(FreeAboveFirstMb(s1), 0, KernelPages(kernelEnd), p);
  }

  /** After the first loop of pmm_init an existing page is used exactly when
      it lies below 1 MiB. */
  lemma FreeAboveBits(s1: PageMap, p: nat)
    requires MapOk(s1) && Filled(s1) && p < s1.totalPages
    ensures Test(FreeAboveFirstMb(s1).bitmap, p) == (p < FIRST_MB_PAGES)
  {
    assert Test(s1.bitmap, p);
    var k := PagesAboveFirstMb(s1.totalPages);
    FreeRunBits(s1, FIRST_MB_PAGES, k, p);
  }

  /** The first loop of pmm_init keeps the counter's distance and the slack
      bits. */
  lemma FreeAboveDrift(s1: PageMap)
    requires MapOk(s1) && SlackSet(s1)
    ensures SlackSet(FreeAboveFirstMb(s1)) && Drift(FreeAboveFirstMb(s1)) == Drift(s1)
  {
    var k := PagesAboveFirstMb(s1.totalPages);
    if k > 0 {
      FreeRunDrift(s1, FIRST_MB_PAGES, k);
    }
  }

  /** The loops of pmm_init keep the counter's distance: it is whatever it
      was right after the fill. */
  lemma InitPagesDrift(s1: PageMap, kernelEnd: nat)
    requires MapOk(s1) && Filled(s1) && IsU32(kernelEnd)
    ensures var r := InitPages(s1, kernelEnd);
      SlackSet(r) && Drift(r) == Wrap32(s1.usedPages - s1.totalPages)
  {
    FilledCount(s1);
    FreeAboveDrift(s1);
    UseRunDrift(FreeAboveFirstMb(s1), 0, KernelPages(kernelEnd));
  }

  /** pmm_init (with the counter reset at the fill): nothing changes without
      usable memory; otherwise total_pages is usable / 4096, an existing
      page is used exactly when it lies below 1 MiB or holds the kernel,
      and the counter is right. */
  lemma InitEffect(s: PageMap, usable: nat, kernelEnd: nat)
    requires MapOk(s) && IsU32(usable) && IsU32(kernelEnd)
    ensures var r := Init(s, usable, kernelEnd);
      && (usable == 0 ==> r == s)
      && (usable != 0 ==>
            && r.totalPages == usable / PAGE_SIZE && Consistent(r)
            && forall p :: 0 <= p < r.totalPages ==>
                 (Test(r.bitmap, p) <==> p < FIRST_MB_PAGES || p < KernelPages(kernelEnd)))
  {
    if usable != 0 {
      var total := usable / PAGE_SIZE;
      var size := BitmapBytesFor(total);
      var s1 := PageMap(Fill(s.bitmap, size), total, total, size);
      FillFilled(s, s1);
      InitPagesDrift(s1, kernelEnd);
      ConsistentIffNoDrift(InitPages(s1, kernelEnd));
      assert Init(s, usable, kernelEnd) == InitPages(s1, kernelEnd);
      forall p | 0 <= p < total
        ensures Test(InitPages(s1, kernelEnd).bitmap, p) <==> p < FIRST_MB_PAGES || p < KernelPages(kernelEnd)
      {
        InitPagesBits(s1, kernelEnd, p);
      }
    }
  }

  /** pmm_init as written leaves the counter off by what it held before
      minus total_pages: from the boot state (counter 0) with at least one
      page, the counter is wrong. */
  lemma InitAsWrittenMiscounts(s: PageMap, usable: nat, kernelEnd: nat)
    requires MapOk(s) && IsU32(usable) && IsU32(kernelEnd)
    requires s.usedPages == 0 && PAGE_SIZE <= usable
    ensures !Consistent(InitAsWritten(s, usable, kernelEnd))
  {
    var total := usable / PAGE_SIZE;
    var size := BitmapBytesFor(total);
    var s1 := s.(totalPages := total, bitmapSize := size, bitmap := Fill(s.bitmap, size));
    FillFilled(s, s1);
    InitPagesDrift(s1, kernelEnd);
    ConsistentIffNoDrift(InitPages(s1, kernelEnd));
  }
}

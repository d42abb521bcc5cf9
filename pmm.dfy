/** The physical memory manager of kernel/pmm.c as it runs: the statics
    page_bitmap, total_pages, used_pages and bitmap_size are the fields of
    one PhysicalMemory object, updated in place; every method is proved to
    leave exactly the state the matching function of PmmSpec describes. */
module Pmm {
  import opened Word
  import opened FsBitmap
  import opened PmmSpec
  import PmmProps

  class PhysicalMemory {
    /** The bitmap at its fixed address, as a buffer of fixed size. */
    const bitmap: array<byte>
    var totalPages: nat
    var usedPages: nat
    var bitmapSize: nat

    ghost predicate Valid()
      reads this, bitmap
    {
      bitmap.Length == BITMAP_CAPACITY && MapOk(Abs())
    }

    /** The statics as one page-map value. */
    function Abs(): PageMap
      reads this, bitmap
    {
      PageMap(bitmap[..], totalPages, usedPages, bitmapSize)
    }

    /** The statics before pmm_init: every count 0. */
    constructor ()
      ensures Valid() && fresh(bitmap)
      ensures totalPages == 0 && usedPages == 0 && bitmapSize == 0
    {
      bitmap := new byte[BITMAP_CAPACITY](_ => 0);
      totalPages, usedPages, bitmapSize := 0, 0, 0;
    }

    // -------------------------------------------------------------------
    // Single pages
    // -------------------------------------------------------------------

    /** pmm_set_page_used. The test for an address below PHY_BASE is left
        out here and in SetPageFree: with PHY_BASE = 0 it never holds. */
    method SetPageUsed(address: nat)
      requires Valid() && IsU32(address)
      modifies this, bitmap
      ensures Valid() && Abs() == SetUsed(old(Abs()), address)
    {
      var page := (address - PHY_BASE) / PAGE_SIZE;
      var index := page / PAGES_PER_BYTE;
      if index >= bitmapSize {
        return;
      }
      var wasFree := SetBit(page);
      if wasFree {
        usedPages := Wrap32(usedPages + 1);
      }
    }

    /** pmm_set_page_free. */
    method SetPageFree(address: nat)
      requires Valid() && IsU32(address)
      modifies this, bitmap
      ensures Valid() && Abs() == SetFree(old(Abs()), address)
    {
      var page := (address - PHY_BASE) / PAGE_SIZE;
      var index := page / PAGES_PER_BYTE;
      if index >= bitmapSize {
        return;
      }
      var wasUsed := ClearBit(page);
      if wasUsed {
        usedPages := Wrap32(usedPages - 1);
      }
    }

    /** The bit update of pmm_set_page_used, with was_free. */
    method SetBit(page: nat) returns (wasFree: bool)
      requires page < 8 * bitmap.Length
      modifies bitmap
      ensures wasFree == !Test(old(bitmap[..]), page)
      ensures bitmap[..] == Set(old(bitmap[..]), page)
    {
      var index := page / PAGES_PER_BYTE;
      var bit := page % PAGES_PER_BYTE;
      wasFree := bitmap[index] & Mask(bit) == 0;
      bitmap[index] := bitmap[index] | Mask(bit);
    }

    /** The bit update of pmm_set_page_free, with was_used. */
    method ClearBit(page: nat) returns (wasUsed: bool)
      requires page < 8 * bitmap.Length
      modifies bitmap
      ensures wasUsed == Test(old(bitmap[..]), page)
      ensures bitmap[..] == Clear(old(bitmap[..]), page)
    {
      var index := page / PAGES_PER_BYTE;
      var bit := page % PAGES_PER_BYTE;
      wasUsed := bitmap[index] & Mask(bit) != 0;
      bitmap[index] := bitmap[index] & NotMask(bit);
    }

    /** pmm_alloc_page: bytes that are 0xFF are skipped, the first clear bit
        of the first other byte is taken. */
    method AllocPage() returns (address: nat)
      requires Valid()
      modifies this, bitmap
      ensures Valid()
      ensures var (r, a) := PmmSpec.AllocPage(old(Abs()));
        Abs() == r && address == a
    {
      var i := 0;
      while i < bitmapSize
        invariant i <= bitmapSize
        invariant forall c :: 0 <= c < PAGES_PER_BYTE * i ==> Test(bitmap[..], c)
      {
        if bitmap[i] != 0xFF {
          var bit := 0;
          while bit < PAGES_PER_BYTE
            invariant bit <= PAGES_PER_BYTE
            invariant forall c :: 0 <= c < PAGES_PER_BYTE * i + bit ==> Test(bitmap[..], c)
          {
            if bitmap[i] & Mask(bit) == 0 {
              address := TakePage(i * PAGES_PER_BYTE + bit);
              return;
            }
            bit := bit + 1;
          }
        } else {
          forall c | PAGES_PER_BYTE * i <= c < PAGES_PER_BYTE * (i + 1)
            ensures Test(bitmap[..], c)
          {
            assert c / 8 == i;
            FullByte(c % 8);
          }
        }
        i := i + 1;
      }
      return 0;
    }

    /** The end of pmm_alloc_page's scan: page is the lowest clear one, it
        is marked used and its address returned. */
    method TakePage(page: nat) returns (address: nat)
      requires Valid() && page < Bits(Abs()) && !Test(bitmap[..], page)
      requires forall c :: 0 <= c < page ==> Test(bitmap[..], c)
      modifies this, bitmap
      ensures Valid()
      ensures var (r, a) := PmmSpec.AllocPage(old(Abs()));
        Abs() == r && address == a
    {
      FirstClearIs(bitmap[..], 0, Bits(Abs()), page);
      PageOfAddress(Abs(), page);
      address := page * PAGE_SIZE + PHY_BASE;
      SetPageUsed(address);
    }

    /** Every bit of 0xFF is set. */
    static lemma FullByte(k: nat)
      requires k < 8
      ensures Bit(0xFF, k)
    {
    }

    /** pmm_free_page. */
    method FreePage(address: nat)
      requires Valid() && IsU32(address)
      modifies this, bitmap
      ensures Valid() && Abs() == SetFree(old(Abs()), address)
    {
      SetPageFree(address);
    }

    // -------------------------------------------------------------------
    // Runs of pages
    // -------------------------------------------------------------------

    /** pmm_alloc_pages: scan the pages below total_pages counting the clear
        ones in a row, restarting at each set one; at count of them, mark
        them used and return the first one's address. The scan's test for a
        byte past bitmap_size is left out: every page below total_pages has
        its byte below bitmap_size. */
    method AllocPages(count: nat) returns (address: nat)
      requires Valid() && IsU32(count)
      modifies this, bitmap
      ensures Valid()
      ensures var (r, a) := PmmSpec.AllocPages(old(Abs()), count);
        Abs() == r && address == a
    {
      if count == 0 {
        return 0;
      }
      if count == 1 {
        address := AllocPage();
        return;
      }
      ghost var s := Abs();
      var start := 0;
      var found := 0;
      var page := 0;
      while page < totalPages
        invariant Abs() == s
        invariant found <= page <= totalPages && found < count
        invariant found > 0 ==> start == page - found
        invariant forall c :: page - found <= c < page ==> !Test(s.bitmap, c)
        invariant forall t: nat :: t < page - found ==> !RunAt(s, t, count)
      {
        var index := page / PAGES_PER_BYTE;
        var bit := page % PAGES_PER_BYTE;
        if bitmap[index] & Mask(bit) == 0 {
          assert !Test(s.bitmap, page);
          if found == 0 {
            start := page;
          }
          found := found + 1;
          if found == count {
            PmmProps.FirstRunIs(s, count, start);
            MarkRun(start, count);
            return start * PAGE_SIZE + PHY_BASE;
          }
        } else {
          assert Test(s.bitmap, page);
          forall t: nat | page - found <= t <= page
            ensures !RunAt(s, t, count)
          {
            assert t <= page < t + count;
          }
          found := 0;
        }
        page := page + 1;
      }
      assert forall t: nat :: !RunAt(s, t, count);
      return 0;
    }

    /** The marking loop of pmm_alloc_pages. */
    method MarkRun(start: nat, count: nat)
      requires Valid() && start + count <= MAX_PAGES
      modifies this, bitmap
      ensures Valid() && Abs() == UseRun(old(Abs()), start, count)
    {
      ghost var s := Abs();
      var i := 0;
      while i < count
        invariant i <= count && Valid()
        invariant Abs() == UseRun(s, start, i)
      {
        PmmProps.UseRunNext(s, start, i);
        SetPageUsed((start + i) * PAGE_SIZE + PHY_BASE);
        i := i + 1;
      }
    }

    /** pmm_free_pages: each address is a 32-bit sum. */
    method FreePages(address: nat, count: nat)
      requires Valid() && IsU32(address) && IsU32(count)
      modifies this, bitmap
      ensures Valid() && Abs() == FreeRun(old(Abs()), address, count)
    {
      ghost var s := Abs();
      var i := 0;
      while i < count
        invariant i <= count && Valid()
        invariant Abs() == FreeRun(s, address, i)
      {
        PmmProps.FreeRunNext(s, address, i);
        FreePage(Wrap32(address + i * PAGE_SIZE));
        i := i + 1;
      }
    }

    // -------------------------------------------------------------------
    // pmm_init
    // -------------------------------------------------------------------

    /** pmm_init, given get_usable_memory's result and the address of
        kernel_end, with used_pages set to total_pages once the fill has
        marked every page used. */
    method Init(usable: nat, kernelEnd: nat)
      requires Valid() && IsU32(usable) && IsU32(kernelEnd)
      modifies this, bitmap
      ensures Valid() && Abs() == PmmSpec.Init(old(Abs()), usable, kernelEnd)
    {
      if usable == 0 {
        return;
      }
      ghost var s0 := Abs();
      totalPages := usable / PAGE_SIZE;
      bitmapSize := totalPages / PAGES_PER_BYTE;
      if totalPages % PAGES_PER_BYTE != 0 {
        bitmapSize := bitmapSize + 1;
      }
      FillBitmap();
      usedPages := totalPages;
      ghost var s1 := Abs();
      assert s1 == PageMap(Fill(s0.bitmap, bitmapSize), totalPages, totalPages, bitmapSize);
      FreeAboveFirstMb();
      ReserveKernel(kernelEnd);
    }

    /** The fill loop of pmm_init: the first bitmap_size bytes become 0xFF. */
    method FillBitmap()
      requires bitmap.Length == BITMAP_CAPACITY && bitmapSize <= BITMAP_CAPACITY
      modifies bitmap
      ensures bitmap[..] == Fill(old(bitmap[..]), bitmapSize)
    {
      ghost var b0 := bitmap[..];
      var i := 0;
      while i < bitmapSize
        invariant i <= bitmapSize
        invariant bitmap[..] == Fill(b0, i)
      {
        bitmap[i] := 0xFF;
        i := i + 1;
      }
    }

    /** The second loop of pmm_init: every page from 1 MiB up to total_pages
        freed, one pmm_set_page_free at a time, at the addresses the loop of
        pmm_free_pages visits from the page at 1 MiB on. */
    method FreeAboveFirstMb()
      requires Valid()
      modifies this, bitmap
      ensures Valid() && Abs() == PmmSpec.FreeAboveFirstMb(old(Abs()))
    {
      FreePages(AddressOf(FIRST_MB_PAGES), PagesAboveFirstMb(totalPages));
    }

    /** The last loop of pmm_init: the pages up to the one holding
        kernel_end marked used. */
    method ReserveKernel(kernelEnd: nat)
      requires Valid() && IsU32(kernelEnd)
      modifies this, bitmap
      ensures Valid() && Abs() == UseRun(old(Abs()), 0, KernelPages(kernelEnd))
    {
      var kernelSize := Wrap32(kernelEnd - PHY_BASE);
      var kernelPages := kernelSize / PAGE_SIZE + 1;
      MarkRun(0, kernelPages);
    }

    // -------------------------------------------------------------------
    // Statistics
    // -------------------------------------------------------------------

    /** pmm_get_total_pages, pmm_get_used_pages and pmm_get_free_pages. */
    method Stats() returns (total: nat, used: nat, free: nat)
      requires Valid()
      ensures total == totalPages && used == usedPages && free == PmmSpec.FreePages(Abs())
    {
      total, used := totalPages, usedPages;
      free := Wrap32(totalPages - usedPages);
    }

    /** pmm_get_total_memory, pmm_get_used_memory and pmm_get_free_memory. */
    method MemoryStats() returns (total: nat, used: nat, free: nat)
      requires Valid()
      ensures total == TotalMemory(Abs()) && used == UsedMemory(Abs()) && free == FreeMemory(Abs())
    {
      total := Wrap32(totalPages * PAGE_SIZE);
      used := Wrap32(usedPages * PAGE_SIZE);
      free := Wrap32(Wrap32(totalPages - usedPages) * PAGE_SIZE);
    }
  }
}

/** The kernel heap of kernel/heap.c as it runs: the statics heap_start and
    heap_size and the linked list of block headers are the fields of one
    KernelHeap object; kmalloc, kfree and heap_get_stats walk the list as
    the C code does, and each is proved to leave exactly the heap the
    matching function of HeapSpec describes. */
module Heap {
  import opened Word
  import opened HeapSpec
  import HeapProps

  class KernelHeap {
    var start: nat
    var heapSize: nat
    /** The headers in list order; `next` is the following element. */
    var blocks: seq<Block>

    ghost predicate Valid()
      reads this
    {
      HeapProps.Wf(Abs())
    }

    function Abs(): HeapState
      reads this
    {
      HeapState(start, heapSize, blocks)
    }

    /** heap_init, given what pmm_alloc_pages(16) returned. */
    constructor Init(heapAddr: nat)
      requires heapAddr + HEAP_SIZE <= U32
      ensures Valid() && Abs() == HeapSpec.Init(heapAddr)
    {
      if heapAddr == 0 {
        start, heapSize, blocks := 0, 0, [];
      } else {
        var size := HEAP_PAGES * 4096;
        start := heapAddr;
        heapSize := size;
        blocks := [Block(size - HEADER_SIZE, true)];
      }
      new;
      HeapProps.InitWf(heapAddr);
    }

    /** kmalloc: walk the list for the first free block large enough, split
        it when the remainder can hold a header and 4 bytes, mark it used
        and return the address past its header. */
    method Kmalloc(size: nat) returns (ptr: nat)
      requires Valid() && IsU32(size)
      modifies this
      ensures Valid() && (Abs(), ptr) == Malloc(old(Abs()), size)
    {
      if size == 0 {
        return 0;
      }
      var n := Wrap32(size + 3) / 4 * 4;
      var i := 0;
      var current := start;
      while i < |blocks|
        invariant Abs() == old(Abs())
        invariant i <= |blocks| && current == start + Offset(blocks, i)
        invariant forall j :: 0 <= j < i ==> !Fits(blocks[j], n)
      {
        if blocks[i].isFree && blocks[i].size >= n {
          HeapProps.FirstFitIs(blocks, n, 0, i);
          HeapProps.MallocWf(Abs(), size);
          PlaceAt(i, n);
          return current + HEADER_SIZE;
        }
        HeapProps.OffsetNext(blocks, i);
        current := current + HEADER_SIZE + blocks[i].size;
        i := i + 1;
      }
      return 0;
    }

    /** The list updates of kmalloc on the block found: split off the
        remainder as a new free block when there is room, then is_free
        cleared. */
    method PlaceAt(i: nat, n: nat)
      requires i < |blocks| && blocks[i].size >= n
      modifies this
      ensures blocks == Place(old(blocks), i, n)
      ensures start == old(start) && heapSize == old(heapSize)
    {
      if blocks[i].size >= n + HEADER_SIZE + MIN_REMAINDER {
        var rest := Block(blocks[i].size - n - HEADER_SIZE, true);
        blocks := blocks[..i] + [Block(n, blocks[i].isFree), rest] + blocks[i + 1..];
      }
      blocks := blocks[i := blocks[i].(isFree := false)];
    }

    /** kfree: nothing for null; otherwise mark the block at ptr - 12 free,
        absorb a free successor, and let a free predecessor absorb it. The
        list position of the block is found by the walk from heap_start that
        kfree makes to find the predecessor. */
    method Kfree(ptr: nat)
      requires Valid() && (ptr == 0 || IsBlockPtr(Abs(), ptr))
      modifies this
      ensures Valid() && Abs() == Free(old(Abs()), ptr)
    {
      if ptr == 0 {
        return;
      }
      var i := Locate(ptr);
      HeapProps.FreeWf(Abs(), ptr);
      ReleaseAt(i);
    }

    /** The walk from heap_start to the block whose header sits at
        ptr - 12: its position in the list. */
    method Locate(ptr: nat) returns (i: nat)
      requires Valid() && IsBlockPtr(Abs(), ptr)
      ensures FindBlock(Abs(), ptr, 0) == Some(i)
    {
      ghost var h := Abs();
      ghost var k := FindBlock(h, ptr, 0).value;
      i := 0;
      var current := start;
      while current + HEADER_SIZE != ptr
        invariant i <= k < |h.blocks| && current + HEADER_SIZE == Payload(h, i)
        decreases k - i
      {
        HeapProps.OffsetNext(blocks, i);
        current := current + HEADER_SIZE + blocks[i].size;
        i := i + 1;
      }
    }

    /** The list updates of kfree on block i: is_free set, then the
        successor absorbed when free, then the block absorbed by a free
        predecessor. */
    method ReleaseAt(i: nat)
      requires i < |blocks|
      modifies this
      ensures blocks == Release(old(blocks), i)
      ensures start == old(start) && heapSize == old(heapSize)
    {
      ghost var bs := blocks;
      blocks := blocks[..i] + [Block(blocks[i].size, true)] + blocks[i + 1..];
      ghost var marked := blocks;
      assert marked == Splice(bs, i, i + 1, [Block(bs[i].size, true)]);
      if i + 1 < |blocks| && blocks[i + 1].isFree {
        blocks := blocks[..i] + [Block(blocks[i].size + HEADER_SIZE + blocks[i + 1].size, true)] + blocks[i + 2..];
        assert blocks == Merge(marked, i);
      }
      ghost var merged := blocks;
      if i > 0 && blocks[i - 1].isFree {
        blocks := blocks[..i - 1] + [Block(blocks[i - 1].size + HEADER_SIZE + blocks[i].size, true)] + blocks[i + 1..];
        assert blocks == Merge(merged, i - 1);
      }
    }

    /** heap_get_stats: heap_size, and the payload sizes of the used and of
        the free blocks summed along the list. */
    method GetStats() returns (total: nat, used: nat, free: nat)
      requires Valid()
      ensures total == heapSize && used == UsedBytes(blocks) && free == FreeBytes(blocks)
    {
      total, used, free := heapSize, 0, 0;
      var i := 0;
      while i < |blocks|
        invariant i <= |blocks|
        invariant used == UsedBytes(blocks[..i]) && free == FreeBytes(blocks[..i])
      {
        assert blocks[..i + 1][..i] == blocks[..i];
        HeapProps.PrefixUsage(blocks, i + 1);
        if blocks[i].isFree {
          free := Wrap32(free + blocks[i].size);
        } else {
          used := Wrap32(used + blocks[i].size);
        }
        i := i + 1;
      }
      assert blocks[..i] == blocks;
    }
  }
}

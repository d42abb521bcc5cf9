/** The kernel heap of kernel/heap.c as values: the list of heap_block_t
    headers, in list order, each with its payload size and free flag. A
    block's header sits right after the previous block's payload, so the
    address of every header follows from the heap's start and the sizes
    before it; the `next` pointers are the order of the sequence. */
module HeapSpec {
  import opened Word

  /** sizeof(heap_block_t) on i386: size, is_free and next, four bytes each. */
  const HEADER_SIZE: nat := 12
  const HEAP_PAGES: nat := 16
  /** heap_pages * 4096. */
  const HEAP_SIZE: nat := 0x1_0000
  /** A split leaves a remainder only when at least this much payload is
      left over beyond the request and the new header. */
  const MIN_REMAINDER: nat := 4

  datatype Block = Block(size: nat, isFree: bool)

  /** heap_start (0 before a successful heap_init), heap_size and the list. */
  datatype HeapState = HeapState(start: nat, heapSize: nat, blocks: seq<Block>)

  /** The bytes a list of blocks covers, headers included. */
  function Span(bs: seq<Block>): nat {
    if |bs| == 0 then 0 else Span(bs[..|bs| - 1]) + HEADER_SIZE + bs[|bs| - 1].size
  }

  /** How far block i's header lies from the heap's start. */
  function Offset(bs: seq<Block>, i: nat): nat
    requires i <= |bs|
  {
    Span(bs[..i])
  }

  /** The address kmalloc hands out for block i: just past its header. */
  function Payload(h: HeapState, i: nat): nat
    requires i < |h.blocks|
  {
    h.start + Offset(h.blocks, i) + HEADER_SIZE
  }

  /** The request rounded up to a multiple of 4 in 32-bit arithmetic: the
      three largest values wrap around to 0. */
  function Align4(size: nat): (r: nat)
    requires IsU32(size)
    ensures r % 4 == 0 && IsU32(r)
    ensures size + 3 < U32 ==> size <= r < size + 4
    ensures size + 3 >= U32 ==> r == 0
  {
    Wrap32(size + 3) / 4 * 4
  }

  /** The test kmalloc applies to each block. */
  predicate Fits(b: Block, n: nat) {
    b.isFree && b.size >= n
  }

  /** The first block in list order, from index `from` on, that fits. */
  function FirstFit(bs: seq<Block>, n: nat, from: nat): (r: Option<nat>)
    requires from <= |bs|
    ensures r.Some? ==> from <= r.value < |bs| && Fits(bs[r.value], n)
    ensures r.Some? ==> forall j :: from <= j < r.value ==> !Fits(bs[j], n)
    ensures r.None? ==> forall j :: from <= j < |bs| ==> !Fits(bs[j], n)
    decreases |bs| - from
  {
    if from == |bs| then None
    else if Fits(bs[from], n) then Some(from)
    else FirstFit(bs, n, from + 1)
  }

  /** The list with blocks lo .. hi-1 replaced by mid. */
  function Splice(bs: seq<Block>, lo: nat, hi: nat, mid: seq<Block>): (r: seq<Block>)
    requires lo <= hi <= |bs|
    ensures |r| == |bs| - (hi - lo) + |mid|
  {
    bs[..lo] + mid + bs[hi..]
  }

  /** Block i handed out for a request of n bytes: split in two when its
      payload holds the request, a new header and 4 more bytes; whole
      otherwise. */
  function Place(bs: seq<Block>, i: nat, n: nat): (r: seq<Block>)
    requires i < |bs| && bs[i].size >= n
    ensures |bs| <= |r| <= |bs| + 1 && r[..i] == bs[..i]
    ensures !r[i].isFree && r[i].size >= n
  {
    if bs[i].size >= n + HEADER_SIZE + MIN_REMAINDER
    then Splice(bs, i, i + 1, [Block(n, false), Block(bs[i].size - n - HEADER_SIZE, true)])
    else Splice(bs, i, i + 1, [Block(bs[i].size, false)])
  }

  /** kmalloc: the new heap and the pointer returned, 0 for null. The sum
      size + 16 in the split test cannot wrap: a block that fits has a size
      below heap_size. */
  function Malloc(h: HeapState, size: nat): (r: (HeapState, nat))
    requires IsU32(size)
    ensures size == 0 ==> r == (h, 0)
    ensures r.0.start == h.start && r.0.heapSize == h.heapSize
  {
    if size == 0 then (h, 0)
    else
      var n := Align4(size);
      match FirstFit(h.blocks, n, 0)
      case None => (h, 0)
      case Some(i) => (h.(blocks := Place(h.blocks, i, n)), Payload(h, i))
  }

  /** The lowest block, from index `from` on, whose payload starts at ptr. */
  function FindBlock(h: HeapState, ptr: nat, from: nat): (r: Option<nat>)
    requires from <= |h.blocks|
    ensures r.Some? ==> from <= r.value < |h.blocks| && Payload(h, r.value) == ptr
    ensures r.Some? ==> forall j :: from <= j < r.value ==> Payload(h, j) != ptr
    ensures r.None? ==> forall j :: from <= j < |h.blocks| ==> Payload(h, j) != ptr
    decreases |h.blocks| - from
  {
    if from == |h.blocks| then None
    else if Payload(h, from) == ptr then Some(from)
    else FindBlock(h, ptr, from + 1)
  }

  /** ptr is a pointer kmalloc could have returned for a block still in the
      list: what kfree demands of a non-null argument. */
  predicate IsBlockPtr(h: HeapState, ptr: nat) {
    FindBlock(h, ptr, 0).Some?
  }

  /** Block k absorbing its successor: the successor's header and payload
      are added to k's size and the successor leaves the list. */
  function Merge(bs: seq<Block>, k: nat): (r: seq<Block>)
    requires k + 1 < |bs|
    ensures |r| == |bs| - 1
  {
    Splice(bs, k, k + 2, [Block(bs[k].size + HEADER_SIZE + bs[k + 1].size, true)])
  }

  /** The first steps of kfree on block i: mark it free, then absorb a
      free successor. */
  function MarkAndAbsorbNext(bs: seq<Block>, i: nat): (r: seq<Block>)
    requires i < |bs|
    ensures i < |r| && r[..i] == bs[..i]
  {
    var marked := Splice(bs, i, i + 1, [Block(bs[i].size, true)]);
    if i + 1 < |marked| && marked[i + 1].isFree then Merge(marked, i) else marked
  }

  /** kfree's steps on block i: the above, then let a free predecessor
      absorb it. */
  function Release(bs: seq<Block>, i: nat): (r: seq<Block>)
    requires i < |bs|
  {
    var merged := MarkAndAbsorbNext(bs, i);
    if i > 0 && merged[i - 1].isFree then Merge(merged, i - 1) else merged
  }

  /** kfree: nothing for null, otherwise Release on the block at ptr. */
  function Free(h: HeapState, ptr: nat): (r: HeapState)
    requires ptr == 0 || IsBlockPtr(h, ptr)
    ensures ptr == 0 ==> r == h
    ensures r.start == h.start && r.heapSize == h.heapSize
  {
    if ptr == 0 then h else h.(blocks := Release(h.blocks, FindBlock(h, ptr, 0).value))
  }

  /** The payload bytes of the allocated blocks. */
  function UsedBytes(bs: seq<Block>): nat {
    if |bs| == 0 then 0
    else UsedBytes(bs[..|bs| - 1]) + (if bs[|bs| - 1].isFree then 0 else bs[|bs| - 1].size)
  }

  /** The payload bytes of the free blocks. */
  function FreeBytes(bs: seq<Block>): nat {
    if |bs| == 0 then 0
    else FreeBytes(bs[..|bs| - 1]) + (if bs[|bs| - 1].isFree then bs[|bs| - 1].size else 0)
  }

  /** heap_init given pmm_alloc_pages(16)'s result: no heap when it is 0,
      otherwise one free block covering the 64 KiB after its header. */
  function Init(heapAddr: nat): (r: HeapState)
    ensures heapAddr == 0 ==> r.start == 0 && r.blocks == []
    ensures heapAddr != 0 ==> r.start == heapAddr && r.heapSize == HEAP_SIZE && Span(r.blocks) == HEAP_SIZE
  {
    if heapAddr == 0 then HeapState(0, 0, [])
    else
      var r := HeapState(heapAddr, HEAP_SIZE, [Block(HEAP_SIZE - HEADER_SIZE, true)]);
      assert r.blocks[..0] == [];
      r
  }
}

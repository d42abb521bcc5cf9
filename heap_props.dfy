/** What kernel/heap.c keeps true of its block list: the blocks tile the
    heap exactly, no two free blocks are neighbours, kfree undoes kmalloc,
    and heap_get_stats accounts for every byte. */
module HeapProps {
  import opened Word
  import opened HeapSpec

  /** No free block is followed by another free block. */
  predicate NoAdjacentFree(bs: seq<Block>) {
    forall j :: 0 < j < |bs| ==> !(bs[j - 1].isFree && bs[j].isFree)
  }

  /** The shapes every reachable heap has: no heap at all, or a 64 KiB heap
      inside the 32-bit address space tiled exactly by its blocks, with no
      two free blocks in a row. */
  predicate Wf(h: HeapState) {
    if h.start == 0 then h.heapSize == 0 && h.blocks == []
    else
      && h.heapSize == HEAP_SIZE && h.start + HEAP_SIZE <= U32
      && Span(h.blocks) == HEAP_SIZE && NoAdjacentFree(h.blocks)
  }

  // ---------------------------------------------------------------------
  // Tiling
  // ---------------------------------------------------------------------

  /** Two lists laid one after the other cover the sum of their spans. */
  lemma {:induction false} SpanAppend(a: seq<Block>, b: seq<Block>)
    ensures Span(a + b) == Span(a) + Span(b)
    decreases |b|
  {
    if |b| == 0 {
      assert a + b == a;
    } else {
      var b' := b[..|b| - 1];
      assert (a + b)[..|a + b| - 1] == a + b';
      SpanAppend(a, b');
    }
  }

  /** One block covers its header and its payload. */
  lemma SpanOne(x: Block)
    ensures Span([x]) == HEADER_SIZE + x.size
  {
    assert [x][..0] == [];
  }

  /** Replacing blocks lo .. hi-1 by mid changes the span by the difference
      between the two. */
  lemma SpanSplice(bs: seq<Block>, lo: nat, hi: nat, mid: seq<Block>)
    requires lo <= hi <= |bs|
    ensures Span(Splice(bs, lo, hi, mid)) + Span(bs[lo..hi]) == Span(bs) + Span(mid)
  {
    SpanAppend(bs[..lo] + mid, bs[hi..]);
    SpanAppend(bs[..lo], mid);
    assert bs == bs[..lo] + bs[lo..hi] + bs[hi..];
    SpanAppend(bs[..lo] + bs[lo..hi], bs[hi..]);
    SpanAppend(bs[..lo], bs[lo..hi]);
  }

  /** Headers lie at increasing offsets: each block's header starts after
      the whole of every block before it. */
  lemma OffsetGrows(bs: seq<Block>, j: nat, i: nat)
    requires j < i <= |bs|
    ensures Offset(bs, j) + HEADER_SIZE + bs[j].size <= Offset(bs, i)
  {
    var p := bs[..i];
    assert p == p[..j + 1] + p[j + 1..];
    SpanAppend(p[..j + 1], p[j + 1..]);
    assert p[..j + 1][..j] == bs[..j];
  }

  /** Block i's successor starts right after block i's payload. */
  lemma OffsetNext(bs: seq<Block>, i: nat)
    requires i < |bs|
    ensures Offset(bs, i + 1) == Offset(bs, i) + HEADER_SIZE + bs[i].size
  {
    assert bs[..i + 1][..i] == bs[..i];
  }

  /** The used and free payload of the first i blocks never exceed the span
      of the whole list. */
  lemma PrefixUsage(bs: seq<Block>, i: nat)
    requires i <= |bs|
    ensures UsedBytes(bs[..i]) + FreeBytes(bs[..i]) <= Span(bs)
  {
    SpanAccounts(bs[..i]);
    if i < |bs| {
      OffsetGrows(bs, i, |bs|);
    }
    assert bs[..|bs|] == bs;
  }

  /** A fitting block with no fitting block before it is the first fit. */
  lemma {:induction false} FirstFitIs(bs: seq<Block>, n: nat, from: nat, i: nat)
    requires from <= i < |bs| && Fits(bs[i], n)
    requires forall j :: from <= j < i ==> !Fits(bs[j], n)
    ensures FirstFit(bs, n, from) == Some(i)
    decreases i - from
  {
    if from < i {
      FirstFitIs(bs, n, from + 1, i);
    }
  }

  /** A pointer kmalloc returned for block i names block i and no other. */
  lemma FindPayload(h: HeapState, i: nat)
    requires i < |h.blocks|
    ensures FindBlock(h, Payload(h, i), 0) == Some(i)
  {
    forall j: nat | j < i
      ensures Payload(h, j) != Payload(h, i)
    {
      OffsetGrows(h.blocks, j, i);
    }
    FindFrom(h, Payload(h, i), 0, i);
  }

  lemma {:induction false} FindFrom(h: HeapState, ptr: nat, from: nat, i: nat)
    requires from <= i < |h.blocks| && Payload(h, i) == ptr
    requires forall j :: from <= j < i ==> Payload(h, j) != ptr
    ensures FindBlock(h, ptr, from) == Some(i)
    decreases i - from
  {
    if from < i {
      FindFrom(h, ptr, from + 1, i);
    }
  }

  /** Every block's payload lies inside the heap. */
  lemma PayloadInHeap(h: HeapState, i: nat)
    requires Wf(h) && i < |h.blocks|
    ensures h.start < Payload(h, i) && Payload(h, i) + h.blocks[i].size <= h.start + h.heapSize
  {
    OffsetGrows(h.blocks, i, |h.blocks|);
    assert h.blocks[..|h.blocks|] == h.blocks;
  }

  // ---------------------------------------------------------------------
  // Neighbours
  // ---------------------------------------------------------------------

  /** A splice keeps free blocks apart when mid does and its free ends do
      not meet free neighbours. */
  lemma SpliceNoAdjacent(bs: seq<Block>, lo: nat, hi: nat, mid: seq<Block>)
    requires lo <= hi <= |bs| && |mid| > 0
    requires NoAdjacentFree(bs) && NoAdjacentFree(mid)
    requires lo > 0 && mid[0].isFree ==> !bs[lo - 1].isFree
    requires hi < |bs| && mid[|mid| - 1].isFree ==> !bs[hi].isFree
    ensures NoAdjacentFree(Splice(bs, lo, hi, mid))
  {
    var r := Splice(bs, lo, hi, mid);
    var e := lo + |mid|;
    forall j | 0 < j < |r|
      ensures !(r[j - 1].isFree && r[j].isFree)
    {
      if j < lo {
        assert r[j - 1] == bs[j - 1] && r[j] == bs[j];
      } else if j == lo {
        assert r[j - 1] == bs[lo - 1] && r[j] == mid[0];
      } else if j < e {
        assert r[j - 1] == mid[j - 1 - lo] && r[j] == mid[j - lo];
      } else if j == e {
        assert r[j - 1] == mid[|mid| - 1] && r[j] == bs[hi];
      } else {
        assert r[j - 1] == bs[j - 1 - e + hi] && r[j] == bs[j - e + hi];
      }
    }
  }

  // ---------------------------------------------------------------------
  // kmalloc
  // ---------------------------------------------------------------------

  /** Handing out a block keeps the tiling and keeps free blocks apart. */
  lemma PlaceWf(bs: seq<Block>, i: nat, n: nat)
    requires i < |bs| && Fits(bs[i], n) && NoAdjacentFree(bs)
    ensures Span(Place(bs, i, n)) == Span(bs) && NoAdjacentFree(Place(bs, i, n))
  {
    assert bs[i..i + 1] == [bs[i]];
    SpanOne(bs[i]);
    if bs[i].size >= n + HEADER_SIZE + MIN_REMAINDER {
      var mid := [Block(n, false), Block(bs[i].size - n - HEADER_SIZE, true)];
      assert mid == [mid[0]] + [mid[1]];
      SpanAppend([mid[0]], [mid[1]]);
      SpanOne(mid[0]);
      SpanOne(mid[1]);
      SpanSplice(bs, i, i + 1, mid);
      if i + 1 < |bs| {
        assert !bs[i + 1].isFree;
      }
      SpliceNoAdjacent(bs, i, i + 1, mid);
    } else {
      var mid := [Block(bs[i].size, false)];
      SpanOne(mid[0]);
      SpanSplice(bs, i, i + 1, mid);
      SpliceNoAdjacent(bs, i, i + 1, mid);
    }
  }

  /** kmalloc keeps a well-formed heap well formed. */
  lemma MallocWf(h: HeapState, size: nat)
    requires Wf(h) && IsU32(size)
    ensures Wf(Malloc(h, size).0)
  {
    if size > 0 {
      var n := Align4(size);
      match FirstFit(h.blocks, n, 0)
      case None =>
      case Some(i) => PlaceWf(h.blocks, i, n);
    }
  }

  /** kmalloc returns null exactly for a zero request or when no free block
      holds the rounded-up request; otherwise it returns the payload of the
      first free block that does, now allocated, at least as large as the
      request, inside the heap, and a pointer kfree accepts. */
  lemma MallocEffect(h: HeapState, size: nat)
    requires Wf(h) && IsU32(size)
    ensures var (h', r) := Malloc(h, size);
      && (r == 0 <==> size == 0 || forall j :: 0 <= j < |h.blocks| ==> !Fits(h.blocks[j], Align4(size)))
      && (r == 0 ==> h' == h)
      && (r != 0 ==> FirstFit(h.blocks, Align4(size), 0).Some?)
    ensures var (h', r) := Malloc(h, size);
      r != 0 ==>
        var i := FirstFit(h.blocks, Align4(size), 0).value;
        && r == Payload(h, i) && FindBlock(h', r, 0) == Some(i)
        && !h'.blocks[i].isFree && h'.blocks[i].size >= Align4(size)
        && r + h'.blocks[i].size <= h.start + h.heapSize
  {
    if size > 0 {
      var n := Align4(size);
      match FirstFit(h.blocks, n, 0)
      case None =>
      case Some(i) =>
        var h' := Malloc(h, size).0;
        PlaceWf(h.blocks, i, n);
        assert Payload(h', i) == Payload(h, i);
        FindPayload(h', i);
        PayloadInHeap(h', i);
    }
  }

  /** A request of one of the three largest 32-bit sizes rounds to 0 and
      is granted whenever any block is free, though no heap can hold it. */
  lemma HugeRequestGranted(h: HeapState, size: nat, j: nat)
    requires Wf(h) && U32 - 3 <= size < U32 && j < |h.blocks| && h.blocks[j].isFree
    ensures Align4(size) == 0 && Malloc(h, size).1 != 0
  {
    MallocEffect(h, size);
  }

  // ---------------------------------------------------------------------
  // kfree
  // ---------------------------------------------------------------------

  /** The first block kfree folds together: the free predecessor, if any. */
  function CoalesceLo(bs: seq<Block>, i: nat): (r: nat)
    requires i < |bs|
    ensures r <= i
  {
    if i > 0 && bs[i - 1].isFree then i - 1 else i
  }

  /** One past the last block kfree folds together. */
  function CoalesceHi(bs: seq<Block>, i: nat): (r: nat)
    requires i < |bs|
    ensures i < r <= |bs|
  {
    if i + 1 < |bs| && bs[i + 1].isFree then i + 2 else i + 1
  }

  /** Blocks lo .. hi-1 folded into one free block whose payload is
      everything they cover but its own header. */
  function Coalesced(bs: seq<Block>, lo: nat, hi: nat): (r: seq<Block>)
    requires lo < hi <= |bs|
  {
    Splice(bs, lo, hi, [Block(Span(bs[lo..hi]) - HEADER_SIZE, true)])
  }

  /** kfree replaces block i and its free neighbours by one free block
      covering all of them. */
  lemma ReleaseShape(bs: seq<Block>, i: nat)
    requires i < |bs|
    ensures Release(bs, i) == Coalesced(bs, CoalesceLo(bs, i), CoalesceHi(bs, i))
  {
    var lo, hi := CoalesceLo(bs, i), CoalesceHi(bs, i);
    var merged := MarkAndAbsorbNext(bs, i);
    AbsorbNextShape(bs, i);
    if i > 0 && merged[i - 1].isFree {
      SpanOfPair(bs, lo, i, hi);
      assert merged[..i - 1] == bs[..lo];
      assert merged[i + 1..] == bs[hi..];
    }
  }

  /** Marking block i free and absorbing a free successor folds block i
      and that successor into one free block. */
  lemma AbsorbNextShape(bs: seq<Block>, i: nat)
    requires i < |bs|
    ensures MarkAndAbsorbNext(bs, i) == Coalesced(bs, i, CoalesceHi(bs, i))
  {
    var hi := CoalesceHi(bs, i);
    var marked := Splice(bs, i, i + 1, [Block(bs[i].size, true)]);
    SpanOfRun(bs, i, hi);
    if hi == i + 2 {
      assert marked[i + 1] == bs[i + 1];
      assert marked[..i] == bs[..i] && marked[i + 2..] == bs[i + 2..];
      assert MarkAndAbsorbNext(bs, i) == Merge(marked, i);
    } else {
      assert MarkAndAbsorbNext(bs, i) == marked;
    }
  }

  /** The span of one or two blocks starting at i. */
  lemma SpanOfRun(bs: seq<Block>, i: nat, hi: nat)
    requires i < hi <= |bs| && hi <= i + 2
    ensures Span(bs[i..hi]) == HEADER_SIZE + bs[i].size + (if hi == i + 2 then HEADER_SIZE + bs[i + 1].size else 0)
  {
    SpanOne(bs[i]);
    if hi == i + 2 {
      assert bs[i..hi] == [bs[i]] + [bs[i + 1]];
      SpanAppend([bs[i]], [bs[i + 1]]);
      SpanOne(bs[i + 1]);
    } else {
      assert bs[i..hi] == [bs[i]];
    }
  }

  /** The span of block lo followed by the run i .. hi-1. */
  lemma SpanOfPair(bs: seq<Block>, lo: nat, i: nat, hi: nat)
    requires lo + 1 == i < hi <= |bs|
    ensures Span(bs[lo..hi]) == HEADER_SIZE + bs[lo].size + Span(bs[i..hi])
  {
    assert bs[lo..hi] == [bs[lo]] + bs[i..hi];
    SpanAppend([bs[lo]], bs[i..hi]);
    SpanOne(bs[lo]);
  }

  /** Folding a run of blocks keeps the tiling. */
  lemma CoalescedSpan(bs: seq<Block>, lo: nat, hi: nat)
    requires lo < hi <= |bs|
    ensures Span(Coalesced(bs, lo, hi)) == Span(bs)
  {
    var mid := [Block(Span(bs[lo..hi]) - HEADER_SIZE, true)];
    SpanOne(mid[0]);
    assert Span(bs[lo..hi]) >= HEADER_SIZE by {
      OffsetGrows(bs[lo..hi], 0, hi - lo);
      assert bs[lo..hi][..hi - lo] == bs[lo..hi];
    }
    SpanSplice(bs, lo, hi, mid);
  }

  /** Folding a free block with all its free neighbours keeps free blocks
      apart. */
  lemma CoalescedNoAdjacent(bs: seq<Block>, lo: nat, hi: nat)
    requires lo < hi <= |bs| && NoAdjacentFree(bs)
    requires lo > 0 ==> !bs[lo - 1].isFree
    requires hi < |bs| ==> !bs[hi].isFree
    ensures NoAdjacentFree(Coalesced(bs, lo, hi))
  {
    SpliceNoAdjacent(bs, lo, hi, [Block(Span(bs[lo..hi]) - HEADER_SIZE, true)]);
  }

  /** kfree keeps the tiling and keeps free blocks apart. */
  lemma ReleaseWf(bs: seq<Block>, i: nat)
    requires i < |bs| && NoAdjacentFree(bs)
    ensures Span(Release(bs, i)) == Span(bs) && NoAdjacentFree(Release(bs, i))
  {
    var lo, hi := CoalesceLo(bs, i), CoalesceHi(bs, i);
    ReleaseShape(bs, i);
    if lo > 0 {
      assert !bs[lo - 1].isFree;
    }
    if hi < |bs| {
      assert !bs[hi].isFree;
    }
    CoalescedSpan(bs, lo, hi);
    CoalescedNoAdjacent(bs, lo, hi);
  }

  /** kfree keeps a well-formed heap well formed. */
  lemma FreeWf(h: HeapState, ptr: nat)
    requires Wf(h) && (ptr == 0 || IsBlockPtr(h, ptr))
    ensures Wf(Free(h, ptr))
  {
    if ptr != 0 {
      ReleaseWf(h.blocks, FindBlock(h, ptr, 0).value);
    }
  }

  /** kfree of the pointer kmalloc just returned gives back the heap as it
      was before the kmalloc: the split remainder is absorbed again and no
      neighbour is touched. */
  lemma FreeUndoesMalloc(h: HeapState, size: nat)
    requires Wf(h) && IsU32(size) && Malloc(h, size).1 != 0
    ensures IsBlockPtr(Malloc(h, size).0, Malloc(h, size).1)
    ensures Free(Malloc(h, size).0, Malloc(h, size).1) == h
  {
    MallocEffect(h, size);
    var n := Align4(size);
    var i := FirstFit(h.blocks, n, 0).value;
    ReleasePlace(h.blocks, i, n);
  }

  /** Releasing a block just handed out restores the list. */
  lemma ReleasePlace(bs: seq<Block>, i: nat, n: nat)
    requires i < |bs| && Fits(bs[i], n) && NoAdjacentFree(bs)
    ensures Release(Place(bs, i, n), i) == bs
  {
    var bs' := Place(bs, i, n);
    ReleaseShape(bs', i);
    if i > 0 {
      assert !bs[i - 1].isFree;
    }
    if i + 1 < |bs| {
      assert !bs[i + 1].isFree;
    }
    if bs[i].size >= n + HEADER_SIZE + MIN_REMAINDER {
      ReleaseSplit(bs, i, n);
    } else {
      ReleaseWhole(bs, i, n);
    }
  }

  /** Folding a split block back together restores it. */
  lemma ReleaseSplit(bs: seq<Block>, i: nat, n: nat)
    requires i < |bs| && Fits(bs[i], n) && bs[i].size >= n + HEADER_SIZE + MIN_REMAINDER
    ensures Coalesced(Place(bs, i, n), i, i + 2) == bs
  {
    var bs' := Place(bs, i, n);
    SpanOfRun(bs', i, i + 2);
    assert bs'[i + 2..] == bs[i + 1..];
    assert bs == bs[..i] + [bs[i]] + bs[i + 1..];
  }

  /** Marking a block handed out whole free again restores it. */
  lemma ReleaseWhole(bs: seq<Block>, i: nat, n: nat)
    requires i < |bs| && Fits(bs[i], n) && bs[i].size < n + HEADER_SIZE + MIN_REMAINDER
    ensures Coalesced(Place(bs, i, n), i, i + 1) == bs
  {
    var bs' := Place(bs, i, n);
    SpanOfRun(bs', i, i + 1);
    assert bs'[i + 1..] == bs[i + 1..];
    assert bs == bs[..i] + [bs[i]] + bs[i + 1..];
  }

  // ---------------------------------------------------------------------
  // heap_get_stats
  // ---------------------------------------------------------------------

  /** Every byte of a list is a header, a used payload byte or a free
      payload byte. */
  lemma {:induction false} SpanAccounts(bs: seq<Block>)
    ensures Span(bs) == UsedBytes(bs) + FreeBytes(bs) + HEADER_SIZE * |bs|
  {
    if |bs| > 0 {
      SpanAccounts(bs[..|bs| - 1]);
    }
  }

  /** heap_get_stats: the used and free totals and one header per block
      add up to heap_size. */
  lemma StatsAccount(h: HeapState)
    requires Wf(h)
    ensures UsedBytes(h.blocks) + FreeBytes(h.blocks) + HEADER_SIZE * |h.blocks| == h.heapSize
  {
    SpanAccounts(h.blocks);
  }

  /** heap_init sets up a well-formed heap. */
  lemma InitWf(heapAddr: nat)
    requires heapAddr + HEAP_SIZE <= U32
    ensures Wf(Init(heapAddr))
  {
  }
}

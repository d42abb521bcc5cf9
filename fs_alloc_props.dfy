/** Properties of the SFS block allocator (kernel/fs.c:21-71): first fit for
    a file's first block, growth only into the very next block, release of a
    file's span, and the free-count invariant that format establishes and
    allocation and release keep. */
module FsAllocProps {
  import opened Word
  import opened FsLayout
  import FsBitmap
  import opened FsSpec

  /** free_blocks counts exactly the clear bits below total_blocks. */
  predicate Consistent(v: Volume)
    requires VolumeOk(v)
  {
    BitmapFits(v) && v.sb.freeBlocks + FsBitmap.Count(v.bitmap, v.sb.totalBlocks) == v.sb.totalBlocks
  }

  /** Slots other than s are left alone. */
  predicate OthersUnchanged(a: seq<DirEntry>, b: seq<DirEntry>, s: nat)
    requires |a| == |b| == FS_MAX_FILES
  {
    forall j :: 0 <= j < FS_MAX_FILES && j != s ==> a[j] == b[j]
  }

  /** A first allocation claims the lowest clear block in [4, total_blocks),
      makes it the entry's only block and takes one from free_blocks; it
      fails exactly when every block there is in use. */
  lemma AllocateFirstFit(v: Volume, s: nat)
    requires VolumeOk(v) && BitmapFits(v) && s < FS_MAX_FILES && v.dir[s].blocks == 0
    ensures var r := Allocate(v, s);
      && (r.None? <==> forall c :: 4 <= c < v.sb.totalBlocks ==> FsBitmap.Test(v.bitmap, c))
      && (r.Some? ==>
            var b := r.value.dir[s].firstBlock;
            && 4 <= b < v.sb.totalBlocks && !FsBitmap.Test(v.bitmap, b)
            && (forall c :: 4 <= c < b ==> FsBitmap.Test(v.bitmap, c))
            && r.value.dir[s] == v.dir[s].(firstBlock := b, blocks := 1)
            && r.value.bitmap == FsBitmap.Set(v.bitmap, b)
            && r.value.sb == v.sb.(freeBlocks := Wrap32(v.sb.freeBlocks - 1))
            && OthersUnchanged(r.value.dir, v.dir, s))
  {
    var fc := FsBitmap.FirstClear(v.bitmap, 4, v.sb.totalBlocks);
    if fc.Some? {
      assert !FsBitmap.Test(v.bitmap, fc.value);
    }
  }

  /** Growing claims only block first_block + blocks, and fails, changing
      nothing, when that block is past the end or already in use, however
      many other blocks are free. */
  lemma AllocateGrowth(v: Volume, s: nat)
    requires VolumeOk(v) && BitmapFits(v) && s < FS_MAX_FILES && v.dir[s].blocks > 0
    ensures var e := v.dir[s];
      var next := Wrap32(e.firstBlock + e.blocks);
      var r := Allocate(v, s);
      && (r.None? <==> next >= v.sb.totalBlocks || FsBitmap.Test(v.bitmap, next))
      && (r.Some? ==>
            && r.value.dir[s] == e.(blocks := Wrap32(e.blocks + 1))
            && r.value.bitmap == FsBitmap.Set(v.bitmap, next)
            && r.value.sb == v.sb.(freeBlocks := Wrap32(v.sb.freeBlocks - 1))
            && OthersUnchanged(r.value.dir, v.dir, s))
  {
  }

  /** Allocation keeps free_blocks equal to the number of clear bits, and
      then takes exactly one from it without wrapping. */
  lemma AllocateKeepsCount(v: Volume, s: nat)
    requires VolumeOk(v) && Consistent(v) && s < FS_MAX_FILES
    ensures var r := Allocate(v, s);
      r.Some? ==> Consistent(r.value) && r.value.sb.freeBlocks + 1 == v.sb.freeBlocks
  {
    var r := Allocate(v, s);
    if r.Some? {
      var e := v.dir[s];
      var b := if e.blocks == 0 then FsBitmap.FirstClear(v.bitmap, 4, v.sb.totalBlocks).value
        else Wrap32(e.firstBlock + e.blocks);
      assert b < v.sb.totalBlocks && !FsBitmap.Test(v.bitmap, b);
      assert r.value.bitmap == FsBitmap.Set(v.bitmap, b);
      FsBitmap.CountSet(v.bitmap, b, v.sb.totalBlocks);
      FsBitmap.CountBelowWithClear(v.bitmap, b, v.sb.totalBlocks);
    }
  }

  /** The blocks first + i, ..., first + n - 1 (in 32-bit arithmetic) that
      fs_free_blocks visits from index i on. */
  function Span(first: nat, i: nat, n: nat): (r: set<nat>)
    decreases n - i
  {
    if i >= n then {} else {Wrap32(first + i)} + Span(first, i + 1, n)
  }

  /** The release loop clears exactly the set bits of the span that lie
      below total, and counts each of them into free. */
  lemma {:induction false} ReleaseRangeEffect(bm: seq<byte>, free: nat, first: nat, i: nat, n: nat, total: nat)
    requires |bm| == FsBitmap.BITMAP_BYTES && total <= FsBitmap.BITMAP_BITS
    requires IsU32(free) && IsU32(first)
    requires free + FsBitmap.Count(bm, total) == total
    ensures var r := ReleaseRange(bm, free, first, i, n, total);
      && r.1 + FsBitmap.Count(r.0, total) == total
      && forall c :: 0 <= c < total ==>
           (FsBitmap.Test(r.0, c) <==> FsBitmap.Test(bm, c) && c !in Span(first, i, n))
    decreases n - i
  {
    if i < n {
      var b := Wrap32(first + i);
      if b < total && FsBitmap.Test(bm, b) {
        var bm' := FsBitmap.Clear(bm, b);
        FsBitmap.CountClear(bm, b, total);
        FsBitmap.CountPositiveWithSet(bm, b, total);
        ReleaseRangeEffect(bm', Wrap32(free + 1), first, i + 1, n, total);
      } else {
        ReleaseRangeEffect(bm, free, first, i + 1, n, total);
      }
    }
  }

  /** fs_free_blocks clears each set bit of the entry's span below
      total_blocks, adds one to free_blocks per cleared bit (keeping the
      free count consistent) and zeroes blocks, first_block and size; an
      entry without blocks is returned from early, untouched. */
  lemma ReleaseEffect(v: Volume, s: nat)
    requires VolumeOk(v) && Consistent(v) && s < FS_MAX_FILES
    ensures var r := Release(v, s);
      var e := v.dir[s];
      && Consistent(r)
      && (forall c :: 0 <= c < v.sb.totalBlocks ==>
            (FsBitmap.Test(r.bitmap, c) <==> FsBitmap.Test(v.bitmap, c) && c !in Span(e.firstBlock, 0, e.blocks)))
      && r.dir[s] == (if e.blocks == 0 then e else e.(blocks := 0, firstBlock := 0, size := 0))
      && OthersUnchanged(r.dir, v.dir, s)
      && r.sb == v.sb.(freeBlocks := r.sb.freeBlocks)
  {
    var e := v.dir[s];
    if e.blocks > 0 {
      ReleaseRangeEffect(v.bitmap, v.sb.freeBlocks, e.firstBlock, 0, e.blocks, v.sb.totalBlocks);
    }
  }

  /** fs_format, whatever its writes do: the fixed geometry, bits 0..3 set
      and no other, and free_blocks 1020, consistent with the bitmap. */
  lemma FormatGeometry(v: Volume)
    requires VolumeOk(v)
    ensures var r := Format(v).0;
      && r.sb.magic == FS_MAGIC && r.sb.blockSize == FS_BLOCK_SIZE
      && r.sb.totalBlocks == 1024 && r.sb.bitmapBlock == 1 && r.sb.rootDirBlock == 2
      && r.sb.freeBlocks == 1020
      && (forall c :: 0 <= c < FsBitmap.BITMAP_BITS ==> (FsBitmap.Test(r.bitmap, c) <==> c < 4))
      && Consistent(r)
  {
    FsBitmap.CountPrefix(FsBitmap.Formatted(), 4, 1024);
  }

  /** fs_format succeeds exactly when the four metadata blocks can all be
      written, and then every entry is EMPTY with an empty name, size 0 and
      no blocks. */
  lemma FormatDirectory(v: Volume)
    requires VolumeOk(v)
    ensures var (r, st) := Format(v);
      && (st == 0 <==> 0 in v.disk && 1 in v.disk && 2 in v.disk && 3 in v.disk)
      && (st == 0 ==> forall i :: 0 <= i < FS_MAX_FILES ==>
            && r.dir[i].etype == FS_TYPE_EMPTY && r.dir[i].name[0] == 0
            && r.dir[i].size == 0 && r.dir[i].firstBlock == 0 && r.dir[i].blocks == 0)
  {
    var (r, st) := Format(v);
    if st == 0 {
      assert r.dir == FormattedDir(v.dir);
    }
  }
}

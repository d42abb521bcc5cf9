/** Properties of fs_read and fs_write (kernel/fs.c:76-78, 82): a read hands
    back the file's bytes as the disk holds them, from the position on; a
    write moves the position and the size past every byte it copies; and
    bytes written to a new file, closed and read back through a fresh
    handle, come back unchanged. */
module FsIoProps {
  import opened Word
  import opened FsLayout
  import FsBitmap
  import opened FsSpec
  import opened FsAllocProps
  import opened FsDirProps

  /** Blocks lo .. hi - 1 are all on the disk. */
  predicate DiskHas(d: Disk, lo: nat, hi: nat) {
    forall b :: lo <= b < hi ==> b in d
  }

  /** The number of blocks the first n bytes of a file occupy. */
  function BlocksFor(n: nat): nat {
    (n + FS_BLOCK_SIZE - 1) / FS_BLOCK_SIZE
  }

  /** The blocks that hold the first p1 bytes of e, counted on from its
      first block, are on the disk and stop short of the NO_BLOCK marker
      (an empty file owns no block, whatever its first block says). */
  predicate Stored(first: nat, d: Disk, p1: nat) {
    0 < p1 ==> first + BlocksFor(p1) < NO_BLOCK && DiskHas(d, first, first + BlocksFor(p1))
  }

  /** Byte p of the file as the disk holds it, its blocks taken one after
      the other from the first (0 where the disk has no such block). */
  function DiskByte(first: nat, d: Disk, p: nat): byte {
    var b := first + p / FS_BLOCK_SIZE;
    if b in d && |d[b]| == FS_BLOCK_SIZE then d[b][p % FS_BLOCK_SIZE] else 0
  }

  /** The n bytes of the file from position p on, as the disk holds them. */
  function FileBytes(first: nat, d: Disk, p: nat, n: nat): (r: seq<byte>)
    ensures |r| == n
  {
    seq(n, i requires 0 <= i < n => DiskByte(first, d, p + i))
  }

  lemma FileBytesIndex(first: nat, d: Disk, p: nat, n: nat, i: nat)
    requires i < n
    ensures FileBytes(first, d, p, n)[i] == DiskByte(first, d, p + i)
  {
  }

  /** The m bytes from p, then the n bytes from q = p + m, are the m + n
      bytes from p. */
  lemma FileBytesJoin(first: nat, d: Disk, p: nat, m: nat, q: nat, n: nat, t: nat)
    requires q == p + m && t == m + n
    ensures FileBytes(first, d, p, m) + FileBytes(first, d, q, n) == FileBytes(first, d, p, t)
  {
    var x, y, z := FileBytes(first, d, p, m), FileBytes(first, d, q, n), FileBytes(first, d, p, t);
    forall i | 0 <= i < t
      ensures (x + y)[i] == z[i]
    {
      if i >= m {
        assert (x + y)[i] == y[i - m] == DiskByte(first, d, q + (i - m));
      }
    }
  }

  /** A handle's cached block, when it has one, is the block on the disk. */
  predicate Coherent(h: Handle, d: Disk) {
    h.bufferBlock == NO_BLOCK || (h.bufferBlock in d && h.buffer == d[h.bufferBlock])
  }

  /** Moving inside one block keeps the block and advances the offset. */
  lemma SameBlock(pos: nat, i: nat)
    requires pos % FS_BLOCK_SIZE + i < FS_BLOCK_SIZE
    ensures (pos + i) / FS_BLOCK_SIZE == pos / FS_BLOCK_SIZE
    ensures (pos + i) % FS_BLOCK_SIZE == pos % FS_BLOCK_SIZE + i
  {
    var q, m := pos / FS_BLOCK_SIZE, pos % FS_BLOCK_SIZE;
    assert pos + i == q * FS_BLOCK_SIZE + (m + i);
  }

  /** A byte before p1 lies in one of the blocks the first p1 bytes occupy. */
  lemma BlockBelow(p: nat, p1: nat)
    requires p < p1
    ensures p / FS_BLOCK_SIZE < BlocksFor(p1)
  {
    var q := p / FS_BLOCK_SIZE;
    assert q * FS_BLOCK_SIZE <= p;
    assert (q + 1) * FS_BLOCK_SIZE <= p1 + FS_BLOCK_SIZE - 1;
  }

  /** A chunk of fs_read's loop that stays below 2^32 advances the
      position by its length. */
  lemma ReadChunkPosition(h: Handle, e: DirEntry, d: Disk, size: nat, done: nat, pos: nat, last: nat)
    requires HandleOk(h) && DiskOk(d) && done < size
    requires h.position == pos && pos + (size - done) <= last < U32
    ensures var r := ReadChunk(h, e, d, size, done);
      r.0.position == pos + |r.1|
  {
  }

  /** A chunk of fs_read's loop copies the bytes of the file at the
      position, whether or not the block was cached, and leaves the handle
      caching that block as the disk has it. */
  lemma ReadChunkContent(h: Handle, e: DirEntry, d: Disk, size: nat, done: nat, pos: nat, last: nat)
    requires HandleOk(h) && DiskOk(d) && done < size && Coherent(h, d)
    requires h.position == pos && pos + (size - done) <= last < U32 && Stored(e.firstBlock, d, last)
    ensures var r := ReadChunk(h, e, d, size, done);
      r.1 == FileBytes(e.firstBlock, d, pos, |r.1|) && Coherent(r.0, d)
  {
    var r := ReadChunk(h, e, d, size, done);
    var q := pos / FS_BLOCK_SIZE;
    BlockBelow(pos, last);
    var diskBlock := e.firstBlock + q;
    assert diskBlock in d;
    assert r.0.buffer == d[diskBlock];
    forall k | 0 <= k < |r.1|
      ensures r.1[k] == FileBytes(e.firstBlock, d, pos, |r.1|)[k]
    {
      FileBytesIndex(e.firstBlock, d, pos, |r.1|, k);
      SameBlock(pos, k);
    }
  }

  /** fs_read's loop from `done` on, started at position pos, ends
      size - done bytes further on when that stays below 2^32. */
  lemma {:induction false} ReadLoopPosition(h: Handle, e: DirEntry, d: Disk, size: nat, done: nat,
                                            acc: seq<byte>, pos: nat, last: nat)
    requires HandleOk(h) && DiskOk(d) && done <= size
    requires h.position == pos && pos + (size - done) <= last < U32
    ensures ReadLoop(h, e, d, size, done, acc).0.position == pos + (size - done)
    decreases size - done
  {
    if done < size {
      var c := ReadChunk(h, e, d, size, done);
      ReadChunkPosition(h, e, d, size, done, pos, last);
      ReadLoopPosition(c.0, e, d, size, done + |c.1|, acc + c.1, pos + |c.1|, last);
    }
  }

  /** What fs_read's loop ended with: acc followed by the n file bytes from
      pos on. */
  predicate ReadOutcome(r: (Handle, seq<byte>), acc: seq<byte>, first: nat, d: Disk, pos: nat, n: nat) {
    r.1 == acc + FileBytes(first, d, pos, n)
  }

  /** One pass of fs_read's loop on a coherent handle: the handle stays
      coherent at the chunk's end, and the bytes the rest of the loop adds
      after the chunk make up the bytes from pos on. */
  lemma ReadLoopNext(h: Handle, e: DirEntry, d: Disk, size: nat, done: nat, acc: seq<byte>, pos: nat, last: nat)
    requires HandleOk(h) && DiskOk(d) && done < size && Coherent(h, d)
    requires h.position == pos && pos + (size - done) <= last < U32 && Stored(e.firstBlock, d, last)
    ensures var c := ReadChunk(h, e, d, size, done);
      && Coherent(c.0, d) && c.0.position == pos + |c.1|
      && (ReadOutcome(ReadLoop(c.0, e, d, size, done + |c.1|, acc + c.1), acc + c.1, e.firstBlock, d,
                      pos + |c.1|, size - (done + |c.1|))
          ==> ReadOutcome(ReadLoop(h, e, d, size, done, acc), acc, e.firstBlock, d, pos, size - done))
  {
    var c := ReadChunk(h, e, d, size, done);
    ReadChunkPosition(h, e, d, size, done, pos, last);
    ReadChunkContent(h, e, d, size, done, pos, last);
    ReadLoopStep(h, e, d, size, done, acc);
    var rest := FileBytes(e.firstBlock, d, pos + |c.1|, size - (done + |c.1|));
    FileBytesJoin(e.firstBlock, d, pos, |c.1|, pos + |c.1|, size - (done + |c.1|), size - done);
    Associative(acc, c.1, rest);
  }

  /** fs_read's loop from `done` on, started at position pos on a coherent
      handle, appends the size - done file bytes from pos on to what it
      already has. */
  lemma {:induction false} ReadLoopContent(h: Handle, e: DirEntry, d: Disk, size: nat, done: nat,
                                           acc: seq<byte>, pos: nat, last: nat)
    requires HandleOk(h) && DiskOk(d) && done <= size && Coherent(h, d)
    requires h.position == pos && pos + (size - done) <= last < U32 && Stored(e.firstBlock, d, last)
    ensures ReadOutcome(ReadLoop(h, e, d, size, done, acc), acc, e.firstBlock, d, pos, size - done)
    decreases size - done
  {
    if done < size {
      var c := ReadChunk(h, e, d, size, done);
      ReadLoopNext(h, e, d, size, done, acc, pos, last);
      ReadLoopContent(c.0, e, d, size, done + |c.1|, acc + c.1, pos + |c.1|, last);
      assert ReadOutcome(ReadLoop(h, e, d, size, done, acc), acc, e.firstBlock, d, pos, size - done);
    } else {
      assert ReadLoop(h, e, d, size, done, acc) == (h, acc);
    }
  }

  lemma Associative(a: seq<byte>, b: seq<byte>, c: seq<byte>)
    ensures a + b + c == a + (b + c)
  {
  }

  /** A handle that fs_read copies through: in use, open for reading, with
      an entry. */
  predicate Reading(v: Volume, f: nat)
    requires VolumeOk(v) && f < NUM_HANDLES
  {
    v.handles[f].inUse && v.handles[f].mode == 'r' && v.handles[f].dirent.Some?
  }

  /** fs_read on a handle open for reading whose cached block matches the
      disk: it returns min(size, file size - position), hands back exactly
      the file's bytes from the position on, and moves the position past
      them; nothing but the handle changes. Any other handle, one without an
      entry included, gets -1 and changes nothing. */
  lemma ReadEffect(v: Volume, f: nat, size: nat)
    requires VolumeOk(v) && f < NUM_HANDLES && IsU32(size)
    requires var h := v.handles[f];
      Reading(v, f) ==>
        && Coherent(h, v.disk) && h.position <= v.dir[h.dirent.value].size
        && h.position + size < U32
        && Stored(v.dir[h.dirent.value].firstBlock, v.disk, v.dir[h.dirent.value].size)
    ensures var (r, data, ret) := Read(v, Some(f), size);
      var h := v.handles[f];
      && (!Reading(v, f) ==> r == v && data == [] && ret == -1)
      && (Reading(v, f) ==>
            var e := v.dir[h.dirent.value];
            var n := Min(size, e.size - h.position);
            && ret == Signed32(n) && data == FileBytes(e.firstBlock, v.disk, h.position, n)
            && r == v.(handles := r.handles)
            && r.handles[f].position == h.position + n
            && (forall g :: 0 <= g < NUM_HANDLES && g != f ==> r.handles[g] == v.handles[g]))
  {
    var h := v.handles[f];
    if Reading(v, f) {
      var e := v.dir[h.dirent.value];
      var n := ReadCount(h.position, size, e.size);
      assert n == Min(size, e.size - h.position);
      ReadLoopPosition(h, e, v.disk, n, 0, [], h.position, e.size);
      ReadLoopContent(h, e, v.disk, n, 0, [], h.position, e.size);
    }
  }

  // ---------------------------------------------------------------------
  // fs_write: position, size and owned blocks
  // ---------------------------------------------------------------------

  function Max(a: nat, b: nat): nat {
    if a >= b then a else b
  }

  /** Handle f, on the entry in slot s, of a write started on a file of size s0 now stands at pos:
      the file's size is the larger of s0 and pos, the position lies inside
      the blocks the entry owns, and those blocks lie below total_blocks. */
  predicate Accounted(v: Volume, f: nat, s: nat, s0: nat, pos: nat) {
    && VolumeOk(v) && Active(v, f) && BitmapFits(v) && v.handles[f].dirent == Some(s) && s < FS_MAX_FILES
    && var h := v.handles[f];
    var e := v.dir[s];
    && h.position == pos && e.size == Max(s0, pos)
    && pos <= e.blocks * FS_BLOCK_SIZE
    && (e.blocks > 0 ==> e.firstBlock + e.blocks <= v.sb.totalBlocks)
  }

  /** fs_write's loop has placed `done` bytes of buf and stands at pos; the
      rest of buf ends at last, below 2^32. */
  predicate WritingAt(v: Volume, f: nat, buf: seq<byte>, done: nat, s: nat, s0: nat, pos: nat, last: nat) {
    && Accounted(v, f, s, s0, pos) && done <= |buf| < U32 && pos + (|buf| - done) == last < U32
  }

  /** After the growth step of fs_write's loop the position falls inside an
      owned block; growth changed only the entry's first block and count. */
  lemma EnsureBlockAccounted(v: Volume, f: nat, s: nat, s0: nat, pos: nat)
    requires Accounted(v, f, s, s0, pos)
    ensures var r := EnsureBlock(v, f);
      r.Some? ==> (Accounted(r.value, f, s, s0, pos) && pos / FS_BLOCK_SIZE < r.value.dir[s].blocks)
  {
    var e := v.dir[s];
    if pos / FS_BLOCK_SIZE >= e.blocks {
      if e.blocks == 0 {
        AllocateFirstFit(v, s);
      } else {
        assert pos == e.blocks * FS_BLOCK_SIZE;
        AllocateGrowth(v, s);
      }
    }
  }

  /** The copy step of fs_write's loop, inside an owned block and short of
      2^32: the position moves by the chunk, the size rises to it, and the
      entry keeps its blocks. */
  lemma WriteIntoAccounted(h: Handle, e: DirEntry, d: Disk, buf: seq<byte>, done: nat, pos: nat, last: nat)
    requires HandleOk(h) && DirEntryOk(e) && DiskOk(d) && done < |buf|
    requires h.position == pos && pos / FS_BLOCK_SIZE < e.blocks
    requires pos + (|buf| - done) <= last < U32
    ensures var w := WriteInto(h, e, d, buf, done);
      var n := ChunkLen(pos % FS_BLOCK_SIZE, |buf| - done);
      && w.0.position == pos + n && w.1 == e.(size := Max(e.size, pos + n))
      && pos + n <= e.blocks * FS_BLOCK_SIZE
  {
    var q := pos / FS_BLOCK_SIZE;
    assert pos == q * FS_BLOCK_SIZE + pos % FS_BLOCK_SIZE;
    assert (q + 1) * FS_BLOCK_SIZE <= e.blocks * FS_BLOCK_SIZE;
  }

  /** One pass of fs_write's loop keeps the accounting, pos advancing by the
      chunk. */
  lemma WriteChunkAccounted(v: Volume, f: nat, buf: seq<byte>, done: nat, s: nat, s0: nat, pos: nat, last: nat)
    requires WritingAt(v, f, buf, done, s, s0, pos, last) && done < |buf|
    ensures var r := WriteChunk(v, f, buf, done);
      var n := ChunkLen(v.handles[f].position % FS_BLOCK_SIZE, |buf| - done);
      r.Some? ==> WritingAt(r.value, f, buf, done + n, s, s0, pos + n, last)
  {
    EnsureBlockAccounted(v, f, s, s0, pos);
    var v1 := EnsureBlock(v, f);
    if v1.Some? {
      WriteIntoAccounted(v1.value.handles[f], v1.value.dir[s], v1.value.disk, buf, done, pos, last);
    }
  }

  /** One pass of fs_write's loop: it stops with -1 where growth fails,
      and otherwise goes on from the chunk's end with the accounting kept. */
  lemma WriteLoopNext(v: Volume, f: nat, buf: seq<byte>, done: nat, s: nat, s0: nat, pos: nat, last: nat)
    requires WritingAt(v, f, buf, done, s, s0, pos, last) && done < |buf|
    ensures var c := WriteChunk(v, f, buf, done);
      var n := ChunkLen(v.handles[f].position % FS_BLOCK_SIZE, |buf| - done);
      && (c.None? ==> WriteOutcome(WriteLoop(v, f, buf, done), f, buf, s, s0, last))
      && (c.Some? ==> WritingAt(c.value, f, buf, done + n, s, s0, pos + n, last))
      && (c.Some? && WriteOutcome(WriteLoop(c.value, f, buf, done + n), f, buf, s, s0, last) ==>
            WriteOutcome(WriteLoop(v, f, buf, done), f, buf, s, s0, last))
  {
    WriteChunkAccounted(v, f, buf, done, s, s0, pos, last);
    WriteLoopStep(v, f, buf, done);
  }

  /** Where fs_write gives up with -1: handle f stands short of last, past
      every block its entry owns, and fs_allocate_block refuses to add one
      (AllocateFirstFit and AllocateGrowth say when). */
  predicate GrowthFailed(v: Volume, f: nat, last: nat) {
    && VolumeOk(v) && BitmapFits(v) && Active(v, f) && v.handles[f].dirent.value < FS_MAX_FILES
    && var h := v.handles[f];
    && h.position < last && h.position / FS_BLOCK_SIZE >= v.dir[h.dirent.value].blocks
    && Allocate(v, h.dirent.value).None?
  }

  /** How fs_write's loop ended: growth failed (-1), or every byte was
      placed, the whole count returned, and the accounting holds at last. */
  predicate WriteOutcome(r: (Volume, int), f: nat, buf: seq<byte>, s: nat, s0: nat, last: nat) {
    || (r.1 == -1 && GrowthFailed(r.0, f, last))
    || (|buf| < U32 && r.1 == Signed32(|buf|) && Accounted(r.0, f, s, s0, last))
  }

  /** fs_write's loop from `done` on, at position pos: either growth fails
      (-1) or every remaining byte is placed, the return value is the whole
      count, and the accounting holds at the end position. */
  lemma {:induction false} WriteLoopAccounted(v: Volume, f: nat, buf: seq<byte>, done: nat,
                                              s: nat, s0: nat, pos: nat, last: nat)
    requires WritingAt(v, f, buf, done, s, s0, pos, last)
    ensures WriteOutcome(WriteLoop(v, f, buf, done), f, buf, s, s0, last)
    decreases |buf| - done
  {
    if done < |buf| {
      var n := ChunkLen(v.handles[f].position % FS_BLOCK_SIZE, |buf| - done);
      WriteLoopNext(v, f, buf, done, s, s0, pos, last);
      var c := WriteChunk(v, f, buf, done);
      if c.Some? {
        WriteLoopAccounted(c.value, f, buf, done + n, s, s0, pos + n, last);
        assert WriteOutcome(WriteLoop(v, f, buf, done), f, buf, s, s0, last);
      } else {
        assert WriteOutcome(WriteLoop(v, f, buf, done), f, buf, s, s0, last);
      }
    } else {
      WriteLoopEnd(v, f, buf, done, s, s0, pos, last);
      assert WriteOutcome(WriteLoop(v, f, buf, done), f, buf, s, s0, last);
    }
  }

  /** When every byte is placed the loop returns the count, at last. */
  lemma WriteLoopEnd(v: Volume, f: nat, buf: seq<byte>, done: nat, s: nat, s0: nat, pos: nat, last: nat)
    requires WritingAt(v, f, buf, done, s, s0, pos, last) && done == |buf|
    ensures WriteOutcome(WriteLoop(v, f, buf, done), f, buf, s, s0, last)
  {
    assert WriteLoop(v, f, buf, done) == (v, Signed32(|buf|));
  }

  /** A handle that fs_write copies through: in use, open for writing,
      with an entry. */
  predicate Writing(v: Volume, f: nat)
    requires VolumeOk(v) && f < NUM_HANDLES
  {
    v.handles[f].inUse && v.handles[f].mode == 'w' && v.handles[f].dirent.Some?
  }

  /** fs_write: -1 and no change unless the handle is open for writing with
      an entry. Otherwise -1 only where a needed block cannot be allocated;
      or the whole count, with the position advanced by it, the size raised
      to it, and the entry owning at least ceil(position / 512) blocks.
      Either way free_blocks still counts the clear bits of the bitmap if it
      did before; no other handle and no other entry changes, nor the
      entry's name and type; and, when the drive holds every block below
      total_blocks, the file as the handle sees it keeps its bytes before
      the starting position and reads buf from there up to where the
      write stopped. Assumed of the handle at the start: it is at or before
      the end of the file, inside the owned blocks, and the write stays
      below 2^32. */
  lemma WriteEffect(v: Volume, f: nat, buf: seq<byte>)
    requires VolumeOk(v) && f < NUM_HANDLES && WriteReady(v, Some(f)) && |buf| < U32
    requires var h := v.handles[f];
      Writing(v, f) ==>
        var e := v.dir[h.dirent.value];
        && h.position <= e.size && h.position + |buf| < U32
        && h.position <= e.blocks * FS_BLOCK_SIZE
        && (e.blocks > 0 ==> e.firstBlock + e.blocks <= v.sb.totalBlocks)
    ensures var (r, ret) := Write(v, Some(f), buf);
      var h := v.handles[f];
      && (!Writing(v, f) ==>
            r == v && ret == (if v.handles[f].inUse && v.handles[f].mode == 'w' && |buf| == 0 then 0 else -1))
      && (Writing(v, f) ==>
            var s := h.dirent.value;
            var e := v.dir[s];
            var h1 := r.handles[f];
            var e1 := r.dir[s];
            var p1 := h.position + |buf|;
            && ((ret == -1 && GrowthFailed(r, f, p1)) || (
                  && ret == Signed32(|buf|) && h1.position == p1 && h1.dirent == h.dirent
                  && e1.size == Max(e.size, p1)
                  && BlocksFor(p1) <= e1.blocks))
            && h.position <= h1.position <= p1
            && OthersUnchanged(r.dir, v.dir, s) && e1.name == e.name && e1.etype == e.etype
            && (forall g :: 0 <= g < NUM_HANDLES && g != f ==> r.handles[g] == v.handles[g])
            && (DiskHas(v.disk, 0, v.sb.totalBlocks) ==>
                  && (forall p :: 0 <= p < h.position ==>
                        Seen(h1, e1.firstBlock, r.disk, p) == Seen(h, e.firstBlock, v.disk, p))
                  && (forall k :: 0 <= k < h1.position - h.position ==>
                        Seen(h1, e1.firstBlock, r.disk, h.position + k) == buf[k])))
    ensures Consistent(v) ==> Consistent(Write(v, Some(f), buf).0)
  {
    if Writing(v, f) {
      var h := v.handles[f];
      var s := h.dirent.value;
      var e := v.dir[s];
      if Consistent(v) {
        WriteLoopKeepsCount(v, f, buf, 0);
      }
      WriteLoopAccounted(v, f, buf, 0, s, e.size, h.position, h.position + |buf|);
      assert Write(v, Some(f), buf) == WriteLoop(v, f, buf, 0);
      WriteKeeps(v, f, buf);
      var r := Write(v, Some(f), buf);
      if r.1 != -1 {
        var e1 := r.0.dir[s];
        assert (h.position + |buf| + FS_BLOCK_SIZE - 1) < (e1.blocks + 1) * FS_BLOCK_SIZE;
      }
    }
  }

  /** The part of WriteEffect that Filled carries: the handle has not gone
      back, nothing but the handle and the entry's size and blocks changed,
      and the handle sees the old bytes before its starting position and
      buf after it. */
  lemma WriteKeeps(v: Volume, f: nat, buf: seq<byte>)
    requires VolumeOk(v) && f < NUM_HANDLES && WriteReady(v, Some(f)) && |buf| < U32 && Writing(v, f)
    requires var h := v.handles[f];
      var e := v.dir[h.dirent.value];
      && h.position <= e.size && h.position + |buf| < U32
      && h.position <= e.blocks * FS_BLOCK_SIZE
      && (e.blocks > 0 ==> e.firstBlock + e.blocks <= v.sb.totalBlocks)
    ensures var r := Write(v, Some(f), buf).0;
      var h := v.handles[f];
      var s := h.dirent.value;
      var e := v.dir[s];
      var h1 := r.handles[f];
      var e1 := r.dir[s];
      && VolumeOk(r) && h.position <= h1.position <= h.position + |buf|
      && OthersUnchanged(r.dir, v.dir, s) && e1.name == e.name && e1.etype == e.etype
      && (forall g :: 0 <= g < NUM_HANDLES && g != f ==> r.handles[g] == v.handles[g])
      && (DiskHas(v.disk, 0, v.sb.totalBlocks) ==>
            && (forall p :: 0 <= p < h.position ==>
                  Seen(h1, e1.firstBlock, r.disk, p) == Seen(h, e.firstBlock, v.disk, p))
            && (forall k :: 0 <= k < h1.position - h.position ==>
                  Seen(h1, e1.firstBlock, r.disk, h.position + k) == buf[k]))
  {
    var h := v.handles[f];
    var s := h.dirent.value;
    var e := v.dir[s];
    var pre := SeenBytes(h, e.firstBlock, v.disk, h.position);
    assert Accounted(v, f, s, e.size, |pre| + 0);
    assert Filled(v, f, s, pre + buf, |pre| + 0, v, false);
    var w := WriteLoopFilled(v, f, buf, 0, s, e.size, pre, |pre|, h.position + |buf|, v, false);
    var r := w.0;
    assert Write(v, Some(f), buf).0 == r;
    WriteContent(v, r, f, s, pre, buf);
  }

  /** What Filled says about the handle's view once the write has stopped
      at position q: before the start, the bytes seen at the start; from
      the start, buf. */
  lemma WriteContent(v: Volume, r: Volume, f: nat, s: nat, pre: seq<byte>, buf: seq<byte>)
    requires VolumeOk(v) && f < NUM_HANDLES && s < FS_MAX_FILES
    requires pre == SeenBytes(v.handles[f], v.dir[s].firstBlock, v.disk, |pre|)
    requires VolumeOk(r) && Filled(r, f, s, pre + buf, r.handles[f].position, v, false)
    requires |pre| == v.handles[f].position <= r.handles[f].position
    requires |pre| == 0 || r.dir[s].firstBlock == v.dir[s].firstBlock
    ensures var h, h1 := v.handles[f], r.handles[f];
      DiskHas(v.disk, 0, v.sb.totalBlocks) ==>
        && (forall p :: 0 <= p < h.position ==>
              Seen(h1, r.dir[s].firstBlock, r.disk, p) == Seen(h, v.dir[s].firstBlock, v.disk, p))
        && (forall k :: 0 <= k < h1.position - h.position ==>
              Seen(h1, r.dir[s].firstBlock, r.disk, h.position + k) == buf[k])
  {
    var h1 := r.handles[f];
    if DiskHas(v.disk, 0, v.sb.totalBlocks) {
      forall k | 0 <= k < h1.position - |pre|
        ensures Seen(h1, r.dir[s].firstBlock, r.disk, |pre| + k) == buf[k]
      {
        assert (pre + buf)[|pre| + k] == buf[k];
      }
    }
  }

  /** One pass of fs_write's loop changes the bitmap and free_blocks only
      through fs_allocate_block, so it keeps them in step. */
  lemma WriteChunkKeepsCount(v: Volume, f: nat, buf: seq<byte>, done: nat)
    requires VolumeOk(v) && BitmapFits(v) && Active(v, f) && done < |buf| && Consistent(v)
    ensures var c := WriteChunk(v, f, buf, done);
      c.Some? ==> Consistent(c.value)
  {
    var h := v.handles[f];
    if h.position / FS_BLOCK_SIZE >= v.dir[h.dirent.value].blocks {
      AllocateKeepsCount(v, h.dirent.value);
    }
    var e := EnsureBlock(v, f);
    if e.Some? {
      var c := WriteChunk(v, f, buf, done);
      assert c.value.bitmap == e.value.bitmap && c.value.sb == e.value.sb;
    }
  }

  /** free_blocks agrees with the bitmap once fs_write's loop has ended. */
  predicate CountKept(r: (Volume, int)) {
    VolumeOk(r.0) && Consistent(r.0)
  }

  /** When the pass from `done` succeeds with w, the loop ends where the
      loop from w ends. */
  lemma WriteLoopCountNext(v: Volume, f: nat, buf: seq<byte>, done: nat, w: Volume, next: nat)
    requires VolumeOk(v) && BitmapFits(v) && Active(v, f) && done < |buf| < U32
    requires WriteChunk(v, f, buf, done) == Some(w)
    requires next == done + ChunkLen(v.handles[f].position % FS_BLOCK_SIZE, |buf| - done)
    requires VolumeOk(w) && BitmapFits(w) && Active(w, f) && next <= |buf|
    requires CountKept(WriteLoop(w, f, buf, next))
    ensures CountKept(WriteLoop(v, f, buf, done))
  {
    WriteLoopStep(v, f, buf, done);
  }

  /** fs_write's loop from `done` on keeps free_blocks equal to the number
      of clear bits, whether it completes or stops at a failed growth. */
  lemma {:induction false} WriteLoopKeepsCount(v: Volume, f: nat, buf: seq<byte>, done: nat)
    requires VolumeOk(v) && BitmapFits(v) && Active(v, f) && done <= |buf| < U32 && Consistent(v)
    ensures CountKept(WriteLoop(v, f, buf, done))
    decreases |buf| - done
  {
    if done < |buf| {
      var n := ChunkLen(v.handles[f].position % FS_BLOCK_SIZE, |buf| - done);
      WriteChunkKeepsCount(v, f, buf, done);
      var c := WriteChunk(v, f, buf, done);
      if c.Some? {
        var w, next := c.value, done + n;
        WriteLoopKeepsCount(w, f, buf, next);
        WriteLoopCountNext(v, f, buf, done, w, next);
      } else {
        WriteLoopStep(v, f, buf, done);
        assert WriteLoop(v, f, buf, done).0 == v;
      }
    } else {
      assert WriteLoop(v, f, buf, done) == (v, Signed32(done));
    }
  }

  // ---------------------------------------------------------------------
  // fs_write: the bytes of the file
  // ---------------------------------------------------------------------

  /** Byte p of the file with first block `first` as handle h sees it: from
      its cached block when p falls there, else from the disk. */
  function Seen(h: Handle, first: nat, d: Disk, p: nat): byte
    requires |h.buffer| == FS_BLOCK_SIZE
  {
    if first + p / FS_BLOCK_SIZE == h.bufferBlock then h.buffer[p % FS_BLOCK_SIZE] else DiskByte(first, d, p)
  }

  /** Through h, the file's first n bytes are buf's. */
  predicate SeenUpTo(h: Handle, first: nat, d: Disk, buf: seq<byte>, n: nat)
    requires |h.buffer| == FS_BLOCK_SIZE
  {
    n <= |buf| && forall p :: 0 <= p < n ==> Seen(h, first, d, p) == buf[p]
  }

  /** Two positions of one block: the earlier has the smaller offset. */
  lemma EarlierInBlock(p: nat, pos: nat)
    requires p < pos && p / FS_BLOCK_SIZE == pos / FS_BLOCK_SIZE
    ensures p % FS_BLOCK_SIZE < pos % FS_BLOCK_SIZE
  {
    var q := p / FS_BLOCK_SIZE;
    assert p == q * FS_BLOCK_SIZE + p % FS_BLOCK_SIZE;
    assert pos == q * FS_BLOCK_SIZE + pos % FS_BLOCK_SIZE;
  }

  /** Switching the cached block to B, the block of position pos, changes
      nothing any earlier byte looks like: the old cached block goes to the
      disk (or stays off it when the drive refuses it, in which case it is
      no block of the file), and the bytes of B before pos are loaded with
      it. */
  lemma SwitchSeen(h: Handle, first: nat, d: Disk, B: nat, pos: nat, p: nat, T: nat)
    requires HandleOk(h) && DiskOk(d) && DiskHas(d, 0, T) && B == first + pos / FS_BLOCK_SIZE < T < NO_BLOCK
    requires p < pos
    ensures var sw := SwitchBlock(d, h, B, pos % FS_BLOCK_SIZE);
      var h1 := h.(buffer := sw.1, bufferBlock := B);
      Seen(h1, first, sw.0, p) == Seen(h, first, d, p)
  {
    var bb := h.bufferBlock;
    var bp := first + p / FS_BLOCK_SIZE;
    assert bp <= B by {
      assert p / FS_BLOCK_SIZE <= pos / FS_BLOCK_SIZE;
    }
    assert bp in d && B in d;
    var sw := SwitchBlock(d, h, B, pos % FS_BLOCK_SIZE);
    var h1 := h.(buffer := sw.1, bufferBlock := B);
    if bb != B {
      var d1 := if bb != NO_BLOCK then StoreBlock(d, bb, h.buffer).0 else d;
      assert sw.0 == d1;
      if bp == B {
        EarlierInBlock(p, pos);
        assert sw.1 == d1[B] == d[B];
      } else if bp == bb {
        assert d1[bp] == h.buffer;
      } else {
        assert d1[bp] == d[bp];
      }
    }
  }

  /** Copying the chunk buf[done..done + n] in at offset pos % 512 of the
      cached block B: the bytes before pos look as before, and byte pos + k
      is buf[done + k]. */
  lemma CopySeen(h1: Handle, first: nat, d: Disk, buf: seq<byte>, done: nat, n: nat, B: nat, pos: nat, p: nat)
    requires |h1.buffer| == FS_BLOCK_SIZE && h1.bufferBlock == B && B == first + pos / FS_BLOCK_SIZE
    requires pos % FS_BLOCK_SIZE + n <= FS_BLOCK_SIZE && done + n <= |buf| && p < pos + n
    ensures var offset := pos % FS_BLOCK_SIZE;
      var b := h1.buffer[..offset] + buf[done..done + n] + h1.buffer[offset + n..];
      Seen(h1.(buffer := b), first, d, p) == if p < pos then Seen(h1, first, d, p) else buf[done + (p - pos)]
  {
    var offset := pos % FS_BLOCK_SIZE;
    var b := h1.buffer[..offset] + buf[done..done + n] + h1.buffer[offset + n..];
    if p < pos {
      if first + p / FS_BLOCK_SIZE == B {
        EarlierInBlock(p, pos);
        assert b[p % FS_BLOCK_SIZE] == h1.buffer[p % FS_BLOCK_SIZE];
      }
    } else {
      SameBlock(pos, p - pos);
      assert b[offset + (p - pos)] == buf[done..done + n][p - pos];
    }
  }

  /** The copy step of fs_write's loop, buf[done..] going to position
      pos = |pre| + done: with the position inside an owned block, all
      blocks below T on the disk and the handle seeing the first pos bytes
      of pre + buf, it sees the first pos + n after the chunk, and caches a
      block below T. */
  lemma WriteIntoSeen(h: Handle, e: DirEntry, d: Disk, pre: seq<byte>, buf: seq<byte>, done: nat, T: nat)
    requires HandleOk(h) && DirEntryOk(e) && DiskOk(d) && done < |buf|
    requires h.position == |pre| + done && h.position / FS_BLOCK_SIZE < e.blocks
    requires e.firstBlock + e.blocks <= T < NO_BLOCK && DiskHas(d, 0, T)
    requires SeenUpTo(h, e.firstBlock, d, pre + buf, |pre| + done)
    ensures var w := WriteInto(h, e, d, buf, done);
      var n := ChunkLen(h.position % FS_BLOCK_SIZE, |buf| - done);
      SeenUpTo(w.0, e.firstBlock, w.2, pre + buf, |pre| + done + n) && w.0.bufferBlock < T
  {
    var first := e.firstBlock;
    var pos := h.position;
    var offset := pos % FS_BLOCK_SIZE;
    var n := ChunkLen(offset, |buf| - done);
    var B := Wrap32(e.firstBlock + pos / FS_BLOCK_SIZE);
    assert B == first + pos / FS_BLOCK_SIZE && B < T;
    var sw := SwitchBlock(d, h, B, offset);
    var w := WriteInto(h, e, d, buf, done);
    assert w.0.bufferBlock == B && w.2 == sw.0;
    forall p | 0 <= p < pos + n
      ensures Seen(w.0, first, w.2, p) == (pre + buf)[p]
    {
      ChunkSeen(h, w.0, first, d, pre, buf, done, n, B, p, T);
    }
  }

  /** Byte p after one pass of fs_write's copy at position pos = |pre| +
      done, for the handle h2 that results: byte p of pre + buf, given
      that h saw it before pos. */
  lemma ChunkSeen(h: Handle, h2: Handle, first: nat, d: Disk, pre: seq<byte>, buf: seq<byte>, done: nat,
                  n: nat, B: nat, p: nat, T: nat)
    requires HandleOk(h) && DiskOk(d) && DiskHas(d, 0, T)
    requires B == first + (|pre| + done) / FS_BLOCK_SIZE < T < NO_BLOCK
    requires (|pre| + done) % FS_BLOCK_SIZE + n <= FS_BLOCK_SIZE && done + n <= |buf| && p < |pre| + done + n
    requires p < |pre| + done ==> Seen(h, first, d, p) == (pre + buf)[p]
    requires var sw := SwitchBlock(d, h, B, (|pre| + done) % FS_BLOCK_SIZE);
      var offset := (|pre| + done) % FS_BLOCK_SIZE;
      && h2.bufferBlock == B
      && h2.buffer == sw.1[..offset] + buf[done..done + n] + sw.1[offset + n..]
    ensures Seen(h2, first, SwitchBlock(d, h, B, (|pre| + done) % FS_BLOCK_SIZE).0, p) == (pre + buf)[p]
  {
    var pos := |pre| + done;
    var sw := SwitchBlock(d, h, B, pos % FS_BLOCK_SIZE);
    var h1 := h.(buffer := sw.1, bufferBlock := B);
    CopySeen(h1, first, sw.0, buf, done, n, B, pos, p);
    if p < pos {
      SwitchSeen(h, first, d, B, pos, p, T);
    } else {
      assert (pre + buf)[p] == buf[done + (p - pos)];
    }
  }

  /** What fs_find_entry looks at in a slot: the name field and the type. */
  type Label = (seq<byte>, byte)

  function Labels(dir: seq<DirEntry>): (r: seq<Label>)
    ensures |r| == |dir|
  {
    seq(|dir|, i requires 0 <= i < |dir| => (dir[i].name, dir[i].etype))
  }

  /** Changing slot s other than in its name and type keeps the labels. */
  lemma LabelsKept(a: seq<DirEntry>, b: seq<DirEntry>, s: nat)
    requires |a| == |b| == FS_MAX_FILES && s < FS_MAX_FILES && OthersUnchanged(a, b, s)
    requires a[s].name == b[s].name && a[s].etype == b[s].etype
    ensures Labels(a) == Labels(b)
  {
    assert forall i :: 0 <= i < |a| ==> Labels(a)[i] == Labels(b)[i];
  }

  /** The file's first n bytes as handle h sees them. */
  function SeenBytes(h: Handle, first: nat, d: Disk, n: nat): (r: seq<byte>)
    requires |h.buffer| == FS_BLOCK_SIZE
    ensures |r| == n
  {
    seq(n, p requires 0 <= p < n => Seen(h, first, d, p))
  }

  /** Since v0, only handle f and slot s's size, blocks and (while it
      owned none) first block have changed in the volume's tables, apart
      from the bitmap, free_blocks and the disk. */
  predicate WriteFrame(v: Volume, f: nat, s: nat, v0: Volume)
    requires f < |v.handles| == |v0.handles| && s < |v.dir| == |v0.dir|
  {
    var e := v.dir[s];
    && v.sb.totalBlocks == v0.sb.totalBlocks && v.mounted == v0.mounted
    && v.dir == v0.dir[s := e] && e.name == v0.dir[s].name && e.etype == v0.dir[s].etype
    && (v0.dir[s].blocks > 0 ==> e.firstBlock == v0.dir[s].firstBlock && e.blocks > 0)
    && v.handles == v0.handles[f := v.handles[f]]
  }

  /** When v0's drive held every block below total_blocks, v's still does,
      and through handle f the file in slot s reads t's first n bytes. */
  predicate Shows(v: Volume, f: nat, s: nat, t: seq<byte>, n: nat, v0: Volume)
    requires f < |v.handles| && s < |v.dir| && |v.handles[f].buffer| == FS_BLOCK_SIZE
  {
    DiskHas(v0.disk, 0, v0.sb.totalBlocks) ==>
      DiskHas(v.disk, 0, v.sb.totalBlocks) && SeenUpTo(v.handles[f], v.dir[s].firstBlock, v.disk, t, n)
  }

  /** fs_format's geometry (bitmap in block 1, directory in 2 and 3), handle
      f in mode 'w' caching no block or one below total_blocks, and the
      file in slot s lying past the metadata. */
  predicate FormatLayout(v: Volume, f: nat, s: nat)
    requires f < |v.handles| && s < |v.dir|
  {
    var h, e := v.handles[f], v.dir[s];
    && v.sb.bitmapBlock == 1 && v.sb.rootDirBlock == 2
    && h.mode == 'w' && (h.bufferBlock == NO_BLOCK || h.bufferBlock < v.sb.totalBlocks)
    && (e.blocks > 0 ==> 4 <= e.firstBlock)
  }

  /** A write through handle f into the entry in slot s, begun on volume
      v0, that is to leave the file reading t, has reached position n:
      WriteFrame and Shows hold, and FormatLayout too when `layout` is
      asked for. */
  predicate Filled(v: Volume, f: nat, s: nat, t: seq<byte>, n: nat, v0: Volume, layout: bool) {
    && f < |v.handles| == |v0.handles| && s < |v.dir| == |v0.dir| && |v.handles[f].buffer| == FS_BLOCK_SIZE
    && WriteFrame(v, f, s, v0) && Shows(v, f, s, t, n, v0) && (layout ==> FormatLayout(v, f, s))
  }

  /** Growth keeps Filled: a first block is only chosen while the position
      is 0, and it lies past the metadata; nothing else the predicate
      looks at moves. */
  lemma EnsureBlockFilled(v: Volume, f: nat, s: nat, s0: nat, pos: nat, t: seq<byte>, v0: Volume, layout: bool)
    requires Accounted(v, f, s, s0, pos) && Filled(v, f, s, t, pos, v0, layout)
    ensures var r := EnsureBlock(v, f);
      r.Some? ==> Filled(r.value, f, s, t, pos, v0, layout)
  {
    var e := v.dir[s];
    if pos / FS_BLOCK_SIZE >= e.blocks {
      if e.blocks == 0 {
        AllocateFirstFit(v, s);
      } else {
        AllocateGrowth(v, s);
      }
    }
  }

  /** One pass of fs_write's loop, buf[done..] going to position pos =
      |pre| + done, keeps Filled with the chunk's bytes added. */
  lemma WriteChunkFilled(v: Volume, f: nat, buf: seq<byte>, done: nat, s: nat, s0: nat, pre: seq<byte>,
                         pos: nat, last: nat, v0: Volume, layout: bool)
    requires WritingAt(v, f, buf, done, s, s0, pos, last) && done < |buf| && pos == |pre| + done
    requires Filled(v, f, s, pre + buf, pos, v0, layout)
    ensures var c := WriteChunk(v, f, buf, done);
      var n := ChunkLen(v.handles[f].position % FS_BLOCK_SIZE, |buf| - done);
      c.Some? ==> Filled(c.value, f, s, pre + buf, pos + n, v0, layout)
  {
    EnsureBlockAccounted(v, f, s, s0, pos);
    EnsureBlockFilled(v, f, s, s0, pos, pre + buf, v0, layout);
    var v1 := EnsureBlock(v, f);
    if v1.Some? {
      var u := v1.value;
      var h, e := u.handles[f], u.dir[s];
      var w := WriteInto(h, e, u.disk, buf, done);
      assert w.0.bufferBlock == e.firstBlock + pos / FS_BLOCK_SIZE < u.sb.totalBlocks;
      if DiskHas(v0.disk, 0, v0.sb.totalBlocks) {
        assert DiskHas(u.disk, 0, u.sb.totalBlocks);
        WriteIntoSeen(h, e, u.disk, pre, buf, done, u.sb.totalBlocks);
      }
      var c := WriteChunk(v, f, buf, done).value;
      assert c == u.(disk := w.2, dir := u.dir[s := w.1], handles := u.handles[f := w.0]);
    }
  }

  /** Where fs_write's loop, writing t's bytes from position lo on
      towards last, left the handle: somewhere from lo to last, with
      Filled holding there. */
  predicate FilledOutcome(r: (Volume, int), f: nat, s: nat, t: seq<byte>, lo: nat, last: nat, v0: Volume,
                          layout: bool) {
    && f < |r.0.handles| && lo <= r.0.handles[f].position <= last
    && Filled(r.0, f, s, t, r.0.handles[f].position, v0, layout)
  }

  /** One pass of fs_write's loop keeps Filled, so that the rest of the
      loop decides the end. */
  lemma WriteLoopFilledNext(v: Volume, f: nat, buf: seq<byte>, done: nat, s: nat, s0: nat, pre: seq<byte>,
                            pos: nat, last: nat, v0: Volume, layout: bool)
    requires WritingAt(v, f, buf, done, s, s0, pos, last) && done < |buf| && pos == |pre| + done
    requires Filled(v, f, s, pre + buf, pos, v0, layout)
    ensures var c := WriteChunk(v, f, buf, done);
      var n := ChunkLen(v.handles[f].position % FS_BLOCK_SIZE, |buf| - done);
      && (c.None? ==> FilledOutcome(WriteLoop(v, f, buf, done), f, s, pre + buf, |pre|, last, v0, layout))
      && (c.Some? ==> WritingAt(c.value, f, buf, done + n, s, s0, pos + n, last)
                      && Filled(c.value, f, s, pre + buf, pos + n, v0, layout))
      && (c.Some? ==> WriteLoop(v, f, buf, done) == WriteLoop(c.value, f, buf, done + n))
  {
    WriteChunkAccounted(v, f, buf, done, s, s0, pos, last);
    WriteChunkFilled(v, f, buf, done, s, s0, pre, pos, last, v0, layout);
    WriteLoopStep(v, f, buf, done);
  }

  /** fs_write's loop from `done` on, placing buf[done..] from position
      pos = |pre| + done, returns w: the handle stops between |pre| and
      last, seeing pre + buf up to where it stopped. */
  lemma {:induction false} WriteLoopFilled(v: Volume, f: nat, buf: seq<byte>, done: nat, s: nat, s0: nat,
                                           pre: seq<byte>, pos: nat, last: nat, v0: Volume, layout: bool)
    returns (w: (Volume, int))
    requires WritingAt(v, f, buf, done, s, s0, pos, last) && pos == |pre| + done
    requires Filled(v, f, s, pre + buf, pos, v0, layout)
    ensures w == WriteLoop(v, f, buf, done)
    ensures FilledOutcome(w, f, s, pre + buf, |pre|, last, v0, layout)
    decreases |buf| - done
  {
    w := WriteLoop(v, f, buf, done);
    if done < |buf| {
      var n := ChunkLen(v.handles[f].position % FS_BLOCK_SIZE, |buf| - done);
      WriteLoopFilledNext(v, f, buf, done, s, s0, pre, pos, last, v0, layout);
      var c := WriteChunk(v, f, buf, done);
      if c.Some? {
        w := WriteLoopFilled(c.value, f, buf, done + n, s, s0, pre, pos + n, last, v0, layout);
      }
    } else {
      assert w == (v, Signed32(done));
    }
  }

  /** fs_flush_metadata writes blocks 0, the bitmap block and the two
      directory blocks; every other block keeps its contents. */
  lemma FlushOthers(v: Volume, c: nat)
    requires VolumeOk(v) && c in v.disk
    requires c != 0 && c != v.sb.bitmapBlock && c != v.sb.rootDirBlock && c != Wrap32(v.sb.rootDirBlock + 1)
    ensures Flush(v).0[c] == v.disk[c]
  {
  }

  /** So a file byte whose block is none of those four reads the same after
      the flush. */
  lemma FlushByte(v: Volume, first: nat, p: nat)
    requires VolumeOk(v) && v.sb.bitmapBlock == 1 && v.sb.rootDirBlock == 2
    requires 4 <= first + p / FS_BLOCK_SIZE
    ensures DiskByte(first, Flush(v).0, p) == DiskByte(first, v.disk, p)
  {
    var b := first + p / FS_BLOCK_SIZE;
    if b in v.disk {
      FlushOthers(v, b);
    }
    SameBlockByte(first, Flush(v).0, v.disk, p);
  }

  /** Two disks that agree on the block of file byte p agree on the byte. */
  lemma SameBlockByte(first: nat, d1: Disk, d2: Disk, p: nat)
    requires var b := first + p / FS_BLOCK_SIZE;
      (b in d1 <==> b in d2) && (b in d1 ==> d1[b] == d2[b])
    ensures DiskByte(first, d1, p) == DiskByte(first, d2, p)
  {
  }

  /** fs_close's write-back of a 'w' handle's cached block puts on the disk
      exactly what the handle saw. */
  lemma WriteBackSeen(h: Handle, first: nat, d: Disk, p: nat)
    requires HandleOk(h) && DiskOk(d) && h.mode == 'w' && (h.bufferBlock == NO_BLOCK || h.bufferBlock in d)
    requires first + p / FS_BLOCK_SIZE < NO_BLOCK
    ensures var d1 := if h.mode == 'w' && h.bufferBlock != NO_BLOCK
        then StoreBlock(d, h.bufferBlock, h.buffer).0 else d;
      DiskByte(first, d1, p) == Seen(h, first, d, p)
  {
  }

  /** fs_close on an open handle: its write-back, then the metadata flush. */
  lemma CloseDisk(v: Volume, f: nat)
    requires VolumeOk(v) && f < NUM_HANDLES && v.handles[f].inUse
    ensures var h := v.handles[f];
      var d := if h.mode == 'w' && h.bufferBlock != NO_BLOCK
        then StoreBlock(v.disk, h.bufferBlock, h.buffer).0 else v.disk;
      Close(v, Some(f)).0.disk == Flush(v.(disk := d)).0
  {
  }

  /** Handle f has written all of buf from position 0 into slot s since
      v0, on a volume with fs_format's geometry whose drive holds every
      block below total_blocks. */
  predicate WroteAll(v: Volume, f: nat, s: nat, buf: seq<byte>, v0: Volume) {
    && Accounted(v, f, s, 0, |buf|) && Filled(v, f, s, buf, |buf|, v0, true)
    && DiskHas(v0.disk, 0, v0.sb.totalBlocks)
  }

  /** After fs_close on such a handle the disk holds byte p of buf where
      the file's byte p belongs: the cached block is written back and the
      metadata flush touches only blocks 0 to 3. */
  lemma CloseByte(v: Volume, f: nat, s: nat, buf: seq<byte>, p: nat, v0: Volume)
    requires WroteAll(v, f, s, buf, v0) && p < |buf|
    ensures DiskByte(v.dir[s].firstBlock, Close(v, Some(f)).0.disk, p) == buf[p]
  {
    var h := v.handles[f];
    var e := v.dir[s];
    var first := e.firstBlock;
    var bp := first + p / FS_BLOCK_SIZE;
    BlockBelow(p, |buf|);
    assert BlocksFor(|buf|) <= e.blocks;
    assert 4 <= bp < v.sb.totalBlocks;
    assert DiskHas(v.disk, 0, v.sb.totalBlocks);
    var d := if h.mode == 'w' && h.bufferBlock != NO_BLOCK
      then StoreBlock(v.disk, h.bufferBlock, h.buffer).0 else v.disk;
    WriteBackSeen(h, first, v.disk, p);
    FlushByte(v.(disk := d), first, p);
    CloseDisk(v, f);
  }

  /** A volume whose slot s holds a file of |buf| bytes that owns blocks
      on the disk for all of them and holds exactly buf there, with the
      table's names and types L. */
  predicate Holding(v: Volume, s: nat, buf: seq<byte>, L: seq<Label>) {
    && VolumeOk(v) && s < FS_MAX_FILES && Labels(v.dir) == L
    && var e := v.dir[s];
    && e.size == |buf| && Stored(e.firstBlock, v.disk, |buf|)
    && FileBytes(e.firstBlock, v.disk, 0, |buf|) == buf
  }

  /** The outcome of fs_write of all of buf on handle f writing slot s,
      followed by fs_close: either the write failed (-1), or it returned
      the count and after the close the file holds buf, the handle is free
      and the volume is still mounted as it was. */
  predicate WrittenAndClosed(w: (Volume, int), f: nat, s: nat, buf: seq<byte>, L: seq<Label>, mounted: bool) {
    (w.1 == -1 && GrowthFailed(w.0, f, |buf|)) || (
      && |buf| < U32 && w.1 == Signed32(|buf|) && VolumeOk(w.0) && f < NUM_HANDLES
      && var v2 := Close(w.0, Some(f)).0;
      Holding(v2, s, buf, L) && !v2.handles[f].inUse && v2.mounted == mounted)
  }

  /** fs_close after fs_write has placed all of buf from position 0: the
      file holds buf, the table's names and types are v0's, and the handle
      is released. */
  lemma CloseAfterWrite(v: Volume, f: nat, s: nat, buf: seq<byte>, v0: Volume)
    requires WroteAll(v, f, s, buf, v0)
    ensures var v2 := Close(v, Some(f)).0;
      Holding(v2, s, buf, Labels(v0.dir)) && !v2.handles[f].inUse && v2.mounted == v.mounted
  {
    var v2 := Close(v, Some(f)).0;
    assert v2.dir == v.dir && v2.disk.Keys == v.disk.Keys;
    LabelsKept(v.dir, v0.dir, s);
    CloseContent(v, f, s, buf, v0);
    assert BlocksFor(|buf|) <= v.dir[s].blocks;
  }

  /** After that fs_close the file's bytes on the disk are buf. */
  lemma CloseContent(v: Volume, f: nat, s: nat, buf: seq<byte>, v0: Volume)
    requires WroteAll(v, f, s, buf, v0)
    ensures FileBytes(v.dir[s].firstBlock, Close(v, Some(f)).0.disk, 0, |buf|) == buf
  {
    var d2 := Close(v, Some(f)).0.disk;
    var first := v.dir[s].firstBlock;
    var bytes := FileBytes(first, d2, 0, |buf|);
    forall p | 0 <= p < |buf|
      ensures bytes[p] == buf[p]
    {
      CloseByte(v, f, s, buf, p, v0);
      FileBytesIndex(first, d2, 0, |buf|, p);
    }
  }

  /** fs_write of all of buf on a handle just opened for writing on an
      empty entry, then fs_close: unless growth fails (-1), the return value
      is the count and the closed file holds exactly buf, with the table's
      names and types as before. */
  lemma WriteThenClose(v: Volume, f: nat, s: nat, buf: seq<byte>)
    requires VolumeOk(v) && BitmapFits(v) && f < NUM_HANDLES && s < FS_MAX_FILES && |buf| < U32
    requires v.sb.bitmapBlock == 1 && v.sb.rootDirBlock == 2 && DiskHas(v.disk, 0, v.sb.totalBlocks)
    requires var h := v.handles[f];
      && h.inUse && h.mode == 'w' && h.dirent == Some(s) && h.position == 0 && h.bufferBlock == NO_BLOCK
    requires v.dir[s].size == 0 && v.dir[s].blocks == 0
    ensures WrittenAndClosed(Write(v, Some(f), buf), f, s, buf, Labels(v.dir), v.mounted)
  {
    var none: seq<byte> := [];
    assert none + buf == buf;
    assert Accounted(v, f, s, 0, 0);
    assert Filled(v, f, s, none + buf, 0, v, true);
    WriteLoopAccounted(v, f, buf, 0, s, 0, 0, |buf|);
    var w := WriteLoopFilled(v, f, buf, 0, s, 0, none, 0, |buf|, v, true);
    assert Write(v, Some(f), buf) == w;
    if !(w.1 == -1 && GrowthFailed(w.0, f, |buf|)) {
      CloseAfterWrite(w.0, f, s, buf, v);
    }
  }

  /** Slots with the same name field and type match a path of at most 31
      bytes alike: strcmp never reads past the name field. */
  lemma MatchesByLabel(a: seq<DirEntry>, b: seq<DirEntry>, path: seq<byte>, j: nat)
    requires EntriesOk(a) && EntriesOk(b) && PathOk(path) && |path| < FS_MAX_FILENAME && j < FS_MAX_FILES
    requires a[j].name == b[j].name && a[j].etype == b[j].etype
    ensures Matches(a, path, j) == Matches(b, path, j)
  {
    RecordPrefixIsName(a[j], |path| + 1);
    RecordPrefixIsName(b[j], |path| + 1);
  }

  /** fs_find_entry gives the same answer on two tables with the same names
      and types, for a path of at most 31 bytes. */
  lemma {:induction false} FindEntrySame(a: seq<DirEntry>, b: seq<DirEntry>, path: seq<byte>, i: nat)
    requires EntriesOk(a) && EntriesOk(b) && PathOk(path) && |path| < FS_MAX_FILENAME
    requires Labels(a) == Labels(b)
    ensures FindEntry(a, path, i) == FindEntry(b, path, i)
    decreases FS_MAX_FILES - i
  {
    if i < FS_MAX_FILES {
      assert Labels(a)[i] == Labels(b)[i];
      MatchesByLabel(a, b, path, i);
      FindEntrySame(a, b, path, i + 1);
    }
  }

  /** fs_open(path, "r") hands out a handle on the volume, and fs_read of
      |buf| bytes on it returns exactly buf and the count. */
  predicate ReadsBack(v: Volume, path: seq<byte>, buf: seq<byte>) {
    && VolumeOk(v) && PathOk(path) && |buf| < U32
    && var o := Open(v, path, 'r');
    && o.1.Some?
    && var rd := Read(o.0, o.1, |buf|);
    rd.1 == buf && rd.2 == |buf|
  }

  /** Reopening a closed file for reading and reading |buf| bytes returns
      the bytes the disk holds for it, and the count. */
  lemma ReopenRead(v: Volume, path: seq<byte>, s: nat, buf: seq<byte>)
    requires VolumeOk(v) && PathOk(path) && v.mounted && FreeHandle(v.handles, 0).Some?
    requires FindEntry(v.dir, path, 0) == Some(s) && |buf| < 0x8000_0000
    requires var e := v.dir[s];
      e.size == |buf| && Stored(e.firstBlock, v.disk, |buf|) && FileBytes(e.firstBlock, v.disk, 0, |buf|) == buf
    ensures ReadsBack(v, path, buf)
  {
    OpenForRead(v, path);
    var (v1, g) := Open(v, path, 'r');
    ReadEffect(v1, g.value, |buf|);
  }

  /** Handle f is freshly opened for writing on slot s, which holds path
      as an empty FILE, on a mounted volume with the standard layout. */
  predicate FreshFile(v: Volume, f: nat, s: nat, path: seq<byte>) {
    && VolumeOk(v) && BitmapFits(v) && v.mounted && f < NUM_HANDLES && s < FS_MAX_FILES
    && PathOk(path) && |path| < FS_MAX_FILENAME
    && v.sb.bitmapBlock == 1 && v.sb.rootDirBlock == 2 && DiskHas(v.disk, 0, v.sb.totalBlocks)
    && var h := v.handles[f];
    && h.inUse && h.mode == 'w' && h.dirent == Some(s) && h.position == 0 && h.bufferBlock == NO_BLOCK
    && v.dir[s].size == 0 && v.dir[s].blocks == 0
    && FindEntry(v.dir, path, 0) == Some(s)
  }

  /** fs_open(path, "w") of a name not in the table, when it succeeds,
      creates the entry and opens a fresh handle on it. */
  lemma OpenFresh(v: Volume, path: seq<byte>)
    requires VolumeOk(v) && BitmapFits(v) && v.mounted && PathOk(path) && |path| < FS_MAX_FILENAME
    requires v.sb.bitmapBlock == 1 && v.sb.rootDirBlock == 2 && DiskHas(v.disk, 0, v.sb.totalBlocks)
    requires FindEntry(v.dir, path, 0).None?
    ensures var o := Open(v, path, 'w');
      o.1.Some? ==> exists s :: FreshFile(o.0, o.1.value, s, path)
  {
    var (v1, f) := Open(v, path, 'w');
    if f.Some? {
      OpenForWrite(v, path);
      var s := FindFree(v.dir, 0).value;
      ShortNameFits(v.dir[s], path, FS_TYPE_FILE);
      FindNewName(v, v1, path, s);
      assert FreshFile(v1, f.value, s, path);
    }
  }

  /** Writing buf on a fresh file and closing it leaves a volume on which
      the file reads back as buf. */
  lemma WriteCloseReadBack(v: Volume, f: nat, s: nat, path: seq<byte>, buf: seq<byte>)
    requires FreshFile(v, f, s, path) && |buf| < 0x8000_0000
    ensures var w := Write(v, Some(f), buf);
      (w.1 == -1 && GrowthFailed(w.0, f, |buf|)) || (w.1 == |buf| && ReadsBack(Close(w.0, Some(f)).0, path, buf))
  {
    WriteThenClose(v, f, s, buf);
    var w := Write(v, Some(f), buf);
    if w.1 != -1 {
      var v2 := Close(w.0, Some(f)).0;
      assert !v2.handles[f].inUse;
      FindEntrySame(v.dir, v2.dir, path, 0);
      ReopenRead(v2, path, s, buf);
    }
  }

  /** The round trip through the file system: on a mounted volume with the
      standard layout, fs_open(path, "w") of a name not yet in the table,
      fs_write of buf, fs_close, then fs_open(path, "r") and fs_read of
      |buf| bytes give back exactly buf. Only the first open (no free
      handle or slot) and the write may fail, the write only where the
      file cannot grow by another block. */
  lemma RoundTrip(v: Volume, path: seq<byte>, buf: seq<byte>)
    requires VolumeOk(v) && BitmapFits(v) && v.mounted && PathOk(path) && |path| < FS_MAX_FILENAME
    requires v.sb.bitmapBlock == 1 && v.sb.rootDirBlock == 2 && DiskHas(v.disk, 0, v.sb.totalBlocks)
    requires FindEntry(v.dir, path, 0).None? && |buf| < 0x8000_0000
    ensures var o := Open(v, path, 'w');
      o.1.Some? ==>
        && WriteReady(o.0, o.1)
        && var w := Write(o.0, o.1, buf);
        (w.1 == -1 && GrowthFailed(w.0, o.1.value, |buf|))
        || (w.1 == |buf| && ReadsBack(Close(w.0, o.1).0, path, buf))
  {
    OpenFresh(v, path);
    var o := Open(v, path, 'w');
    if o.1.Some? {
      var s :| FreshFile(o.0, o.1.value, s, path);
      WriteCloseReadBack(o.0, o.1.value, s, path, buf);
    }
  }

  /** After fs_open(path, "w") created path in slot s, fs_find_entry finds
      it there: the slots before s were not EMPTY and did not match. */
  lemma FindNewName(v: Volume, v1: Volume, path: seq<byte>, s: nat)
    requires VolumeOk(v) && VolumeOk(v1) && PathOk(path) && |path| < FS_MAX_FILENAME
    requires FindEntry(v.dir, path, 0).None? && FindFree(v.dir, 0) == Some(s)
    requires v1.dir[s] == NewEntry(v.dir[s], path, FS_TYPE_FILE) && OthersUnchanged(v1.dir, v.dir, s)
    ensures FindEntry(v1.dir, path, 0) == Some(s)
  {
    ShortNameFits(v.dir[s], path, FS_TYPE_FILE);
    assert Matches(v1.dir, path, s);
    var found := FindEntry(v1.dir, path, 0);
    if found.value != s {
      assert Matches(v.dir, path, found.value);
      assert false;
    }
  }
}

/** The SFS routines of kernel/fs.c as they run: the statics superblock,
    fs_bitmap, root_dir, file_handles and mounted are the fields of one
    FileSystem object, updated in place by loops over the arrays; every
    method is proved to leave exactly the volume that the matching function
    of FsSpec describes. */
module Fs {
  import opened Word
  import opened FsLayout
  import FsBitmap
  import opened FsSpec

  /** The well-formed values the statics hold: the record shapes and 32-bit
      fields that the C declarations fix. */
  type Sb = sb: Superblock | SuperblockOk(sb)
    witness Superblock(0, 0, 0, 0, 0, 0, seq(SB_RESERVED, _ => 0 as byte))
  type Entry = e: DirEntry | DirEntryOk(e)
    witness DirEntry(seq(FS_MAX_FILENAME, _ => 0 as byte), FS_TYPE_EMPTY, 0, 0, 0,
      seq(DIRENT_RESERVED, _ => 0 as byte))
  type File = h: Handle | HandleOk(h)
    witness Handle(false, 0 as char, 0, None, seq(FS_BLOCK_SIZE, _ => 0 as byte), 0)
  type Drive = d: Disk | DiskOk(d)
    witness map[]

  class FileSystem {
    var sb: Sb
    const bitmap: array<byte>
    const dir: array<Entry>
    const handles: array<File>
    var mounted: bool
    /** The drive behind ata_read_sectors/ata_write_sectors. */
    var disk: Drive

    /** The array sizes of the C declarations; they never change. */
    ghost predicate Valid() {
      && bitmap.Length == FsBitmap.BITMAP_BYTES && dir.Length == FS_MAX_FILES
      && handles.Length == NUM_HANDLES
    }

    /** The statics as one volume value. */
    function Abs(): (v: Volume)
      reads this, bitmap, dir, handles
      ensures Valid() ==> VolumeOk(v)
    {
      Volume(sb, bitmap[..], dir[..], handles[..], mounted, disk)
    }

    /** The zero-filled statics over a drive. */
    constructor (d: Disk)
      requires DiskOk(d)
      ensures Valid() && Abs() == Boot(d)
    {
      var b := Boot(d);
      sb := b.sb;
      bitmap := new byte[FsBitmap.BITMAP_BYTES](_ => 0);
      var es: seq<Entry> := b.dir;
      var hs: seq<File> := b.handles;
      dir := new Entry[FS_MAX_FILES]((i: nat) requires i < FS_MAX_FILES => es[i]);
      handles := new File[NUM_HANDLES]((i: nat) requires i < NUM_HANDLES => hs[i]);
      mounted := false;
      disk := d;
      new;
      assert bitmap[..] == b.bitmap;
      assert dir[..] == b.dir;
      assert handles[..] == b.handles;
    }

    // -------------------------------------------------------------------
    // Bitmap and block device
    // -------------------------------------------------------------------

    /** fs_bitmap_test. */
    method BitmapTest(b: nat) returns (used: bool)
      requires Valid() && b < FsBitmap.BITMAP_BITS
      ensures used == FsBitmap.Test(bitmap[..], b)
    {
      used := bitmap[b / 8] & FsBitmap.Mask(b % 8) != 0;
    }

    /** fs_bitmap_set. */
    method BitmapSet(b: nat)
      requires Valid() && b < FsBitmap.BITMAP_BITS
      modifies bitmap
      ensures bitmap[..] == FsBitmap.Set(old(bitmap[..]), b)
    {
      bitmap[b / 8] := bitmap[b / 8] | FsBitmap.Mask(b % 8);
    }

    /** fs_bitmap_clear. */
    method BitmapClear(b: nat)
      requires Valid() && b < FsBitmap.BITMAP_BITS
      modifies bitmap
      ensures bitmap[..] == FsBitmap.Clear(old(bitmap[..]), b)
    {
      bitmap[b / 8] := bitmap[b / 8] & FsBitmap.NotMask(b % 8);
    }

    /** fs_write_block: true when the drive took the block. */
    method WriteBlock(b: nat, data: seq<byte>) returns (ok: bool)
      requires |data| == FS_BLOCK_SIZE
      modifies this
      ensures sb == old(sb) && mounted == old(mounted)
      ensures (disk, ok) == StoreBlock(old(disk), b, data)
    {
      ok := b in disk;
      if ok {
        disk := disk[b := data];
      }
    }

    /** fs_flush_metadata, with its return value. */
    method FlushMetadata() returns (st: int)
      requires Valid()
      modifies this
      ensures Abs() == old(Abs()).(disk := disk)
      ensures var (d, ok) := Flush(old(Abs()));
        disk == d && st == (if ok then 0 else -1)
    {
      ghost var v := Abs();
      var ok := WriteBlock(0, SuperblockBlock(sb));
      if !ok {
        assert Flush(v) == (disk, false);
        return -1;
      }
      ok := WriteBlock(sb.bitmapBlock, bitmap[..]);
      if !ok {
        assert Flush(v) == (disk, false);
        return -1;
      }
      ok := WriteBlock(sb.rootDirBlock, DirBlockLow(dir[..]));
      if !ok {
        assert Flush(v) == (disk, false);
        return -1;
      }
      ok := WriteBlock(Wrap32(sb.rootDirBlock + 1), DirBlockHigh(dir[..]));
      assert Flush(v) == (disk, ok);
      if !ok { return -1; }
      return 0;
    }

    // -------------------------------------------------------------------
    // fs_allocate_block and fs_free_blocks
    // -------------------------------------------------------------------

    /** The first-fit scan of fs_allocate_block: the lowest block from 4 on,
        below total_blocks, whose bit is clear. */
    method ScanFree() returns (r: Option<nat>)
      requires Valid() && BitmapFits(Abs())
      ensures r == FsBitmap.FirstClear(bitmap[..], 4, sb.totalBlocks)
    {
      var block := 4;
      while block < sb.totalBlocks
        invariant 4 <= block && (block <= sb.totalBlocks || block == 4)
        invariant forall c :: 4 <= c < block ==> FsBitmap.Test(bitmap[..], c)
      {
        var used := BitmapTest(block);
        if !used {
          FsBitmap.FirstClearIs(bitmap[..], 4, sb.totalBlocks, block);
          return Some(block);
        }
        block := block + 1;
      }
      return None;
    }

    /** fs_allocate_block on root_dir[s]: 0 and the allocated volume, or -1
        with nothing changed. */
    method AllocateBlock(s: nat) returns (st: int)
      requires Valid() && BitmapFits(Abs()) && s < FS_MAX_FILES
      modifies this, bitmap, dir
      ensures var r := Allocate(old(Abs()), s);
        && (st == 0 || st == -1) && (st == 0 <==> r.Some?)
        && Abs() == (if r.Some? then r.value else old(Abs()))
    {
      ghost var v := Abs();
      var e := dir[s];
      if e.blocks == 0 {
        var found := ScanFree();
        if found.None? {
          return -1;
        }
        BitmapSet(found.value);
        dir[s] := e.(firstBlock := found.value, blocks := 1);
        sb := sb.(freeBlocks := Wrap32(sb.freeBlocks - 1));
        assert Abs() == Allocate(v, s).value;
        return 0;
      }
      var next := Wrap32(e.firstBlock + e.blocks);
      if next >= sb.totalBlocks {
        return -1;
      }
      var used := BitmapTest(next);
      if used {
        return -1;
      }
      BitmapSet(next);
      dir[s] := e.(blocks := Wrap32(e.blocks + 1));
      sb := sb.(freeBlocks := Wrap32(sb.freeBlocks - 1));
      assert Abs() == Allocate(v, s).value;
      return 0;
    }

    /** One pass of fs_free_blocks' loop: a block below total_blocks whose
        bit is set is cleared and counted back into free_blocks. */
    method ReleaseBlock(block: nat)
      requires Valid() && BitmapFits(Abs())
      modifies this, bitmap
      ensures sb == old(sb).(freeBlocks := sb.freeBlocks)
      ensures mounted == old(mounted) && disk == old(disk)
      ensures (bitmap[..], sb.freeBlocks)
        == if block < sb.totalBlocks && FsBitmap.Test(old(bitmap[..]), block)
           then (FsBitmap.Clear(old(bitmap[..]), block), Wrap32(old(sb.freeBlocks) + 1))
           else (old(bitmap[..]), old(sb.freeBlocks))
    {
      if block < sb.totalBlocks {
        var used := BitmapTest(block);
        if used {
          BitmapClear(block);
          sb := sb.(freeBlocks := Wrap32(sb.freeBlocks + 1));
        }
      }
    }

    /** Pass i of fs_free_blocks' loop, as one step of ReleaseRange. */
    method ReleaseNext(first: nat, i: nat, n: nat)
      requires Valid() && BitmapFits(Abs()) && IsU32(first) && i < n
      modifies this, bitmap
      ensures sb == old(sb).(freeBlocks := sb.freeBlocks)
      ensures mounted == old(mounted) && disk == old(disk)
      ensures ReleaseRange(bitmap[..], sb.freeBlocks, first, i + 1, n, sb.totalBlocks)
        == ReleaseRange(old(bitmap[..]), old(sb.freeBlocks), first, i, n, sb.totalBlocks)
    {
      ReleaseStep(bitmap[..], sb.freeBlocks, first, i, n, sb.totalBlocks);
      ReleaseBlock(Wrap32(first + i));
    }

    /** The loop of fs_free_blocks over blocks first, first + 1, ...,
        first + n - 1. */
    method ReleaseSpan(first: nat, n: nat)
      requires Valid() && BitmapFits(Abs()) && IsU32(first)
      modifies this, bitmap
      ensures sb == old(sb).(freeBlocks := sb.freeBlocks)
      ensures mounted == old(mounted) && disk == old(disk)
      ensures (bitmap[..], sb.freeBlocks)
        == ReleaseRange(old(bitmap[..]), old(sb.freeBlocks), first, 0, n, sb.totalBlocks)
    {
      ghost var sb0, goal := sb, ReleaseRange(bitmap[..], sb.freeBlocks, first, 0, n, sb.totalBlocks);
      var i := 0;
      while i < n
        invariant i <= n && sb == sb0.(freeBlocks := sb.freeBlocks)
        invariant mounted == old(mounted) && disk == old(disk)
        invariant ReleaseRange(bitmap[..], sb.freeBlocks, first, i, n, sb0.totalBlocks) == goal
      {
        ReleaseNext(first, i, n);
        i := i + 1;
      }
    }

    /** fs_free_blocks on root_dir[s]. */
    method FreeBlocks(s: nat)
      requires Valid() && BitmapFits(Abs()) && s < FS_MAX_FILES
      modifies this, bitmap, dir
      ensures Abs() == Release(old(Abs()), s)
    {
      var e := dir[s];
      if e.blocks == 0 {
        return;
      }
      ReleaseSpan(e.firstBlock, e.blocks);
      dir[s] := e.(blocks := 0, firstBlock := 0, size := 0);
    }

    // -------------------------------------------------------------------
    // fs_init, fs_format, fs_mount
    // -------------------------------------------------------------------

    /** fs_init: every handle's in_use cleared; returns 0. */
    method Init() returns (st: int)
      requires Valid()
      modifies handles
      ensures Abs() == FsSpec.Init(old(Abs())) && st == 0
    {
      var i := 0;
      while i < NUM_HANDLES
        invariant i <= NUM_HANDLES
        invariant forall j :: 0 <= j < NUM_HANDLES ==>
          handles[j] == if j < i then old(handles[j]).(inUse := false) else old(handles[j])
      {
        handles[i] := handles[i].(inUse := false);
        i := i + 1;
      }
      assert handles[..] == FsSpec.Init(old(Abs())).handles;
      return 0;
    }

    /** The zeroing loop of fs_format over fs_bitmap. */
    method ZeroBitmap()
      requires Valid()
      modifies bitmap
      ensures bitmap[..] == FsBitmap.Zeroes()
    {
      var i := 0;
      while i < FsBitmap.BITMAP_BYTES
        invariant i <= FsBitmap.BITMAP_BYTES
        invariant forall j :: 0 <= j < i ==> bitmap[j] == 0
      {
        bitmap[i] := 0;
        i := i + 1;
      }
    }

    /** fs_format's loop marking blocks 0..3 (boot, bitmap, two directory
        blocks) as used. */
    method MarkReserved()
      requires Valid()
      modifies bitmap
      ensures bitmap[..] == FsBitmap.SetFirst(old(bitmap[..]), 4)
    {
      var block := 0;
      while block < 4
        invariant block <= 4
        invariant bitmap[..] == FsBitmap.SetFirst(old(bitmap[..]), block)
      {
        BitmapSet(block);
        block := block + 1;
      }
    }

    /** fs_format's loop over root_dir. */
    method ResetDir()
      requires Valid()
      modifies dir
      ensures dir[..] == FormattedDir(old(dir[..]))
    {
      var i := 0;
      while i < FS_MAX_FILES
        invariant i <= FS_MAX_FILES
        invariant forall j :: 0 <= j < FS_MAX_FILES ==>
          dir[j] == if j < i then FormattedDir(old(dir[..]))[j] else old(dir[j])
      {
        dir[i] := dir[i].(etype := FS_TYPE_EMPTY);
        dir[i] := dir[i].(name := dir[i].name[0 := 0]);
        dir[i] := dir[i].(size := 0, firstBlock := 0, blocks := 0);
        i := i + 1;
      }
    }

    /** fs_format. */
    method Format() returns (st: int)
      requires Valid()
      modifies this, bitmap, dir
      ensures (Abs(), st) == FsSpec.Format(old(Abs()))
    {
      sb := sb.(magic := FS_MAGIC, blockSize := FS_BLOCK_SIZE, totalBlocks := 1024,
                rootDirBlock := 2, bitmapBlock := 1);
      ZeroBitmap();
      MarkReserved();
      sb := sb.(freeBlocks := Wrap32(sb.totalBlocks - 4));
      var ok := WriteBlock(0, SuperblockBlock(sb));
      if !ok {
        return -1;
      }
      st := FormatDir();
    }

    /** fs_format after the superblock write. */
    method FormatDir() returns (st: int)
      requires Valid()
      modifies this, dir
      ensures (Abs(), st) == FsSpec.FormatDir(old(Abs()))
    {
      ResetDir();
      var ok := WriteBlock(sb.bitmapBlock, bitmap[..]);
      if !ok {
        return -1;
      }
      st := WriteRootDir();
    }

    /** The directory writes that end fs_format. */
    method WriteRootDir() returns (st: int)
      requires Valid()
      modifies this
      ensures (Abs(), st) == StoreRootDir(old(Abs()))
    {
      var ok := WriteBlock(sb.rootDirBlock, DirBlockLow(dir[..]));
      if !ok {
        return -1;
      }
      ok := WriteBlock(Wrap32(sb.rootDirBlock + 1), DirBlockHigh(dir[..]));
      st := if ok then 0 else -1;
    }

    /** fs_read_block into fs_bitmap. */
    method ReadBitmap(b: nat) returns (ok: bool)
      requires Valid()
      modifies bitmap
      ensures ok == (b in disk)
      ensures bitmap[..] == if ok then disk[b] else old(bitmap[..])
    {
      ok := b in disk;
      if ok {
        forall i | 0 <= i < FsBitmap.BITMAP_BYTES {
          bitmap[i] := disk[b][i];
        }
      }
    }

    /** fs_read_block into &root_dir[k]: eight entries. */
    method ReadDir(b: nat, k: nat) returns (ok: bool)
      requires Valid() && k + 8 <= FS_MAX_FILES
      modifies dir
      ensures ok == (b in disk)
      ensures dir[..] == if ok then LoadDirBlock(old(dir[..]), k, disk[b]) else old(dir[..])
    {
      ok := b in disk;
      if ok {
        var es := DecodeEntries(disk[b]);
        forall i | 0 <= i < 8 {
          dir[k + i] := es[i];
        }
        assert dir[..] == LoadDirBlock(old(dir[..]), k, disk[b]);
      }
    }

    /** The reads that end fs_mount. */
    method ReadMetadata() returns (st: int)
      requires Valid()
      modifies this, bitmap, dir
      ensures (Abs(), st) == LoadMetadata(old(Abs()))
    {
      var ok := ReadBitmap(sb.bitmapBlock);
      if !ok {
        return -1;
      }
      st := ReadRootDir();
    }

    /** The directory reads of fs_mount. */
    method ReadRootDir() returns (st: int)
      requires Valid()
      modifies this, dir
      ensures (Abs(), st) == LoadRootDir(old(Abs()))
    {
      var ok := ReadDir(sb.rootDirBlock, 0);
      if !ok {
        return -1;
      }
      st := ReadRootDirHigh();
    }

    /** The last read of fs_mount and the mounted flag. */
    method ReadRootDirHigh() returns (st: int)
      requires Valid()
      modifies this, dir
      ensures (Abs(), st) == LoadRootDirHigh(old(Abs()))
    {
      var ok := ReadDir(Wrap32(sb.rootDirBlock + 1), 64);
      if !ok {
        return -1;
      }
      mounted := true;
      st := 0;
    }

    /** The magic test of fs_mount: format a volume without FS_MAGIC. */
    method CheckVolume() returns (st: int)
      requires Valid()
      modifies this, bitmap, dir
      ensures (Abs(), st) == CheckMagic(old(Abs()))
    {
      if sb.magic != FS_MAGIC {
        st := Format();
      } else {
        st := 0;
      }
    }

    /** fs_mount. */
    method Mount() returns (st: int)
      requires Valid()
      modifies this, bitmap, dir
      ensures (Abs(), st) == FsSpec.Mount(old(Abs()))
    {
      ghost var v := Abs();
      if 0 !in disk {
        return -1;
      }
      sb := LoadSuperblock(sb, disk[0]);
      ghost var v1 := Abs();
      MountStages(v, v1);
      st := CheckVolume();
      if st != 0 {
        return -1;
      }
      st := ReadMetadata();
    }

    // -------------------------------------------------------------------
    // fs_read and fs_write
    // -------------------------------------------------------------------

    /** fs_read. */
    method Read(f: Option<nat>, size: nat) returns (data: seq<byte>, ret: int)
      requires Valid() && HandleRef(f) && IsU32(size)
      modifies handles
      ensures (Abs(), data, ret) == FsSpec.Read(old(Abs()), f, size)
    {
      if f.None? || !handles[f.value].inUse || handles[f.value].mode != 'r' || handles[f.value].dirent.None? {
        return [], -1;
      }
      var fi := f.value;
      var n := size;
      var pos, fileSize := handles[fi].position, dir[handles[fi].dirent.value].size;
      if Wrap32(pos + n) > fileSize {
        n := Wrap32(fileSize as int - pos);
      }
      var h;
      h, data := ReadLoopAll(handles[fi], dir[handles[fi].dirent.value], disk, n);
      handles[fi] := h;
      ret := Signed32(n);
    }

    /** The part of one pass of fs_write's loop after growth, on handle fi
        of entry s: on a cache miss write back the cached block, load the
        target block when the chunk starts inside it, then copy the chunk
        in, advance the position and raise the size past it. */
    method WriteInBlock(fi: nat, s: nat, buf: seq<byte>, written: nat, block: nat, offset: nat, toWrite: nat)
      returns (written': nat)
      requires Valid() && fi < NUM_HANDLES && s < FS_MAX_FILES && written < |buf|
      requires block == handles[fi].position / FS_BLOCK_SIZE && offset == handles[fi].position % FS_BLOCK_SIZE
      requires toWrite == ChunkLen(offset, |buf| - written)
      modifies this, dir, handles
      ensures var r := WriteInto(old(handles[fi]), old(dir[s]), old(disk), buf, written);
        && handles[..] == old(handles[..])[fi := r.0] && dir[..] == old(dir[..])[s := r.1]
        && disk == r.2 && sb == old(sb) && mounted == old(mounted)
      ensures written' == written + toWrite
    {
      var diskBlock := Wrap32(dir[s].firstBlock + block);
      SwitchBlockTo(fi, diskBlock, offset);
      var b := CopyIn(handles[fi].buffer, offset, buf, written, toWrite);
      written' := written + toWrite;
      var pos := Wrap32(handles[fi].position + toWrite);
      handles[fi] := handles[fi].(buffer := b, position := pos);
      if pos > dir[s].size {
        dir[s] := dir[s].(size := pos);
      }
    }

    /** The cache switch of fs_write: when handle fi caches another block,
        write that block back (if it caches one at all) and load diskBlock
        when the chunk starts at a non-zero offset. */
    method SwitchBlockTo(fi: nat, diskBlock: nat, offset: nat)
      requires Valid() && fi < NUM_HANDLES && IsU32(diskBlock)
      modifies this, handles
      ensures var sw := SwitchBlock(old(disk), old(handles[fi]), diskBlock, offset);
        && handles[..] == old(handles[..])[fi := old(handles[fi]).(buffer := sw.1, bufferBlock := diskBlock)]
        && disk == sw.0 && sb == old(sb) && mounted == old(mounted)
    {
      var h := handles[fi];
      if h.bufferBlock != diskBlock {
        if h.bufferBlock != NO_BLOCK {
          var ignored := WriteBlock(h.bufferBlock, h.buffer);
        }
        if offset > 0 {
          handles[fi] := handles[fi].(buffer := LoadBlock(disk, diskBlock, h.buffer));
        }
        handles[fi] := handles[fi].(bufferBlock := diskBlock);
      }
    }

    /** One pass of fs_write's loop: grow the file when the position is past
        its last block (failing, with nothing changed, when growth fails),
        then write the chunk. */
    method WriteNext(fi: nat, buf: seq<byte>, written: nat) returns (ok: bool, written': nat)
      requires Valid() && Active(Abs(), fi) && BitmapFits(Abs()) && written < |buf|
      modifies this, bitmap, dir, handles
      ensures var r := WriteChunk(old(Abs()), fi, buf, written);
        && (ok <==> r.Some?)
        && (ok ==> Abs() == r.value)
        && (!ok ==> Abs() == old(Abs()))
      ensures ok ==> written' == written + ChunkLen(old(handles[fi]).position % FS_BLOCK_SIZE, |buf| - written)
    {
      ghost var v := Abs();
      var block := handles[fi].position / FS_BLOCK_SIZE;
      var offset := handles[fi].position % FS_BLOCK_SIZE;
      var toWrite := FS_BLOCK_SIZE - offset;
      if toWrite > |buf| - written {
        toWrite := |buf| - written;
      }
      var s := handles[fi].dirent.value;
      if block >= dir[s].blocks {
        var st := AllocateBlock(s);
        if st != 0 {
          return false, written;
        }
      }
      ghost var v1 := Abs();
      assert EnsureBlock(v, fi) == Some(v1);
      ok := true;
      written' := WriteInBlock(fi, s, buf, written, block, offset, toWrite);
      ghost var w := WriteInto(v1.handles[fi], v1.dir[s], v1.disk, buf, written);
      assert Abs() == v1.(disk := w.2, dir := v1.dir[s := w.1], handles := v1.handles[fi := w.0]);
    }

    /** fs_write. */
    method Write(f: Option<nat>, buf: seq<byte>) returns (ret: int)
      requires Valid() && HandleRef(f) && WriteReady(Abs(), f) && |buf| < U32
      modifies this, bitmap, dir, handles
      ensures (Abs(), ret) == FsSpec.Write(old(Abs()), f, buf)
    {
      if f.None? || !handles[f.value].inUse || handles[f.value].mode != 'w' {
        return -1;
      }
      if handles[f.value].dirent.None? {
        return if |buf| == 0 then 0 else -1;
      }
      var fi := f.value;
      ghost var goal := WriteLoop(Abs(), fi, buf, 0);
      assert FsSpec.Write(Abs(), f, buf) == goal;
      var written := 0;
      while written < |buf|
        invariant written <= |buf| && Active(Abs(), fi) && BitmapFits(Abs())
        invariant WriteLoop(Abs(), fi, buf, written) == goal
        decreases |buf| - written
      {
        ghost var v := Abs();
        WriteLoopStep(v, fi, buf, written);
        var ok;
        ok, written := WriteNext(fi, buf, written);
        if !ok {
          assert goal == (v, -1);
          return -1;
        }
      }
      ret := Signed32(written);
    }

    // -------------------------------------------------------------------
    // The directory table: fs_find_entry, fs_find_free_entry, strcpy
    // -------------------------------------------------------------------

    /** fs_find_entry: the first non-EMPTY slot whose name compares equal. */
    method FindEntryScan(path: seq<byte>) returns (r: Option<nat>)
      requires Valid() && PathOk(path)
      ensures r == FindEntry(dir[..], path, 0)
    {
      var i := 0;
      while i < FS_MAX_FILES
        invariant i <= FS_MAX_FILES
        invariant forall j :: 0 <= j < i ==> !Matches(dir[..], path, j)
      {
        if dir[i].etype != FS_TYPE_EMPTY {
          var c := Strcmp(EncodeEntry(dir[i]), path);
          if c == 0 {
            assert Matches(dir[..], path, i);
            return Some(i);
          }
        }
        i := i + 1;
      }
      return None;
    }

    /** fs_find_free_entry: the first EMPTY slot. */
    method FindFreeScan() returns (r: Option<nat>)
      requires Valid()
      ensures r == FindFree(dir[..], 0)
    {
      var i := 0;
      while i < FS_MAX_FILES
        invariant i <= FS_MAX_FILES
        invariant forall j :: 0 <= j < i ==> dir[j].etype != FS_TYPE_EMPTY
      {
        if dir[i].etype == FS_TYPE_EMPTY {
          return Some(i);
        }
        i := i + 1;
      }
      return None;
    }

    /** strcpy(root_dir[s].name, path): the bytes of the record from the
        name on are overwritten one by one, then the terminator. */
    method CopyPath(s: nat, path: seq<byte>)
      requires Valid() && s < FS_MAX_FILES && PathOk(path)
      modifies dir
      ensures dir[..] == old(dir[..])[s := CopyName(old(dir[s]), path)]
    {
      var rec := Strcpy(EncodeEntry(dir[s]), path);
      dir[s] := DecodeEntry(rec);
    }

    /** The entry fs_create and fs_open("w") set up in slot s. */
    method MakeEntry(s: nat, path: seq<byte>, t: byte)
      requires Valid() && s < FS_MAX_FILES && PathOk(path)
      modifies dir
      ensures dir[..] == old(dir[..])[s := NewEntry(old(dir[s]), path, t)]
    {
      CopyPath(s, path);
      dir[s] := dir[s].(etype := t, size := 0, firstBlock := 0, blocks := 0);
    }

    // -------------------------------------------------------------------
    // fs_open, fs_close, fs_seek, fs_list, fs_create, fs_delete
    // -------------------------------------------------------------------

    /** The first free handle. */
    method FreeHandleScan() returns (r: Option<nat>)
      requires Valid()
      ensures r == FreeHandle(handles[..], 0)
    {
      var i := 0;
      while i < NUM_HANDLES
        invariant i <= NUM_HANDLES
        invariant forall j :: 0 <= j < i ==> handles[j].inUse
      {
        if !handles[i].inUse {
          return Some(i);
        }
        i := i + 1;
      }
      return None;
    }

    /** fs_open once handle hi has been picked and the name looked up. */
    method OpenWith(hi: nat, path: seq<byte>, found: Option<nat>, m: char) returns (f: Option<nat>)
      requires Valid() && PathOk(path) && hi < NUM_HANDLES
      requires found.Some? ==> found.value < FS_MAX_FILES
      modifies dir, handles
      ensures (Abs(), f) == OpenIn(old(Abs()), hi, path, found, m)
    {
      if m == 'r' {
        if found.None? {
          return None;
        }
        AttachHandle(hi, 'r', found);
      } else if m == 'w' {
        if found.None? {
          f := OpenNewFile(hi, path);
          return;
        }
        AttachHandle(hi, 'w', found);
      } else {
        AttachHandle(hi, handles[hi].mode, found);
      }
      return Some(hi);
    }

    /** fs_open("w") of a name that does not exist. */
    method OpenNewFile(hi: nat, path: seq<byte>) returns (f: Option<nat>)
      requires Valid() && PathOk(path) && hi < NUM_HANDLES
      modifies dir, handles
      ensures (Abs(), f) == OpenNew(old(Abs()), hi, path)
    {
      var entry := FindFreeScan();
      if entry.None? {
        return None;
      }
      MakeEntry(entry.value, path, FS_TYPE_FILE);
      AttachHandle(hi, 'w', entry);
      return Some(hi);
    }

    /** The tail of fs_open: handle hi in use at position 0, on the entry,
        with nothing cached. */
    method AttachHandle(hi: nat, mode: char, entry: Option<nat>)
      requires Valid() && hi < NUM_HANDLES && (entry.Some? ==> entry.value < FS_MAX_FILES)
      modifies handles
      ensures Abs() == Attach(old(Abs()), hi, mode, entry)
    {
      handles[hi] := handles[hi].(mode := mode);
      handles[hi] := handles[hi].(inUse := true, position := 0, dirent := entry, bufferBlock := NO_BLOCK);
    }

    /** fs_open. */
    method Open(path: seq<byte>, m: char) returns (f: Option<nat>)
      requires Valid() && PathOk(path)
      modifies dir, handles
      ensures (Abs(), f) == FsSpec.Open(old(Abs()), path, m)
    {
      if !mounted {
        return None;
      }
      var h := FreeHandleScan();
      if h.None? {
        return None;
      }
      var entry := FindEntryScan(path);
      f := OpenWith(h.value, path, entry, m);
    }

    /** fs_close. */
    method Close(f: Option<nat>) returns (st: int)
      requires Valid() && HandleRef(f)
      modifies this, handles
      ensures (Abs(), st) == FsSpec.Close(old(Abs()), f)
    {
      if f.None? || !handles[f.value].inUse {
        return -1;
      }
      var h := handles[f.value];
      if h.mode == 'w' && h.bufferBlock != NO_BLOCK {
        var ignored := WriteBlock(h.bufferBlock, h.buffer);
      }
      var ignored := FlushMetadata();
      handles[f.value] := h.(inUse := false);
      return 0;
    }

    /** fs_seek. */
    method Seek(f: Option<nat>, offset: nat) returns (st: int)
      requires Valid() && HandleRef(f) && IsU32(offset)
      modifies handles
      ensures (Abs(), st) == FsSpec.Seek(old(Abs()), f, offset)
    {
      if f.None? || !handles[f.value].inUse || handles[f.value].dirent.None? {
        return -1;
      }
      var pos := offset;
      var size := dir[handles[f.value].dirent.value].size;
      if pos > size {
        pos := size;
      }
      handles[f.value] := handles[f.value].(position := pos);
      return 0;
    }

    /** fs_list: the count of FILE entries, or -1 when not mounted. */
    method List(path: seq<byte>) returns (count: int)
      requires Valid()
      ensures count == FsSpec.List(Abs(), path)
    {
      if !mounted {
        return -1;
      }
      count := 0;
      var i := 0;
      while i < FS_MAX_FILES
        invariant i <= FS_MAX_FILES && count == CountFiles(dir[..], i)
      {
        if dir[i].etype == FS_TYPE_FILE {
          count := count + 1;
        }
        i := i + 1;
      }
    }

    /** fs_create. */
    method Create(path: seq<byte>, t: byte) returns (st: int)
      requires Valid() && PathOk(path)
      modifies this, dir
      ensures (Abs(), st) == FsSpec.Create(old(Abs()), path, t)
    {
      if !mounted {
        return -1;
      }
      var found := FindEntryScan(path);
      if found.Some? {
        return -1;
      }
      var entry := FindFreeScan();
      if entry.None? {
        return -1;
      }
      CreateAt(entry.value, path, t);
      return 0;
    }

    /** The tail of fs_create on slot s. */
    method CreateAt(s: nat, path: seq<byte>, t: byte)
      requires Valid() && s < FS_MAX_FILES && PathOk(path)
      modifies this, dir
      ensures Abs() == CreateIn(old(Abs()), s, path, t)
    {
      MakeEntry(s, path, t);
      WriteDirBlocks();
    }

    /** The two directory writes of fs_create, results ignored. */
    method WriteDirBlocks()
      requires Valid()
      modifies this
      ensures Abs() == StoreDirBlocks(old(Abs()))
    {
      var ignored := WriteBlock(sb.rootDirBlock, DirBlockLow(dir[..]));
      ignored := WriteBlock(Wrap32(sb.rootDirBlock + 1), DirBlockHigh(dir[..]));
    }

    /** fs_delete. */
    method Delete(path: seq<byte>) returns (st: int)
      requires Valid() && PathOk(path) && BitmapFits(Abs())
      modifies this, bitmap, dir
      ensures (Abs(), st) == FsSpec.Delete(old(Abs()), path)
    {
      if !mounted {
        return -1;
      }
      var found := FindEntryScan(path);
      if found.None? {
        return -1;
      }
      DeleteAt(found.value);
      return 0;
    }

    /** The tail of fs_delete on slot s. */
    method DeleteAt(s: nat)
      requires Valid() && BitmapFits(Abs()) && s < FS_MAX_FILES
      modifies this, bitmap, dir
      ensures Abs() == DeleteIn(old(Abs()), s)
    {
      FreeBlocks(s);
      dir[s] := dir[s].(etype := FS_TYPE_EMPTY);
      dir[s] := dir[s].(name := dir[s].name[0 := 0]);
      var ignored := FlushMetadata();
    }
  }

  /** One pass of fs_read's loop on handle h of entry e: on a cache miss
      the block is read into the handle's buffer, the chunk is copied out
      after `data`, and the position advances. */
  method ReadNext(h: Handle, e: DirEntry, d: Disk, n: nat, read: nat, data: seq<byte>)
    returns (h': Handle, read': nat, data': seq<byte>)
    requires HandleOk(h) && DiskOk(d) && read < n
    ensures var r := ReadChunk(h, e, d, n, read);
      h' == r.0 && data' == data + r.1 && read' == read + |r.1|
  {
    h' := h;
    var block := h'.position / FS_BLOCK_SIZE;
    var offset := h'.position % FS_BLOCK_SIZE;
    var toRead := FS_BLOCK_SIZE - offset;
    if toRead > n - read {
      toRead := n - read;
    }
    assert toRead == ChunkLen(offset, n - read);
    var diskBlock := Wrap32(e.firstBlock + block);
    if h'.bufferBlock != diskBlock {
      h' := h'.(buffer := LoadBlock(d, diskBlock, h'.buffer));
      h' := h'.(bufferBlock := diskBlock);
    }
    ghost var buf := h'.buffer;
    data' := CopyOut(h'.buffer, offset, toRead, data);
    read' := read + toRead;
    h' := h'.(position := Wrap32(h'.position + toRead));
    assert h' == h.(buffer := buf, bufferBlock := diskBlock, position := h'.position);
  }

  /** fs_read's loop over n bytes on handle h of entry e. */
  method ReadLoopAll(h: Handle, e: DirEntry, d: Disk, n: nat) returns (h': Handle, data: seq<byte>)
    requires HandleOk(h) && DiskOk(d)
    ensures (h', data) == ReadLoop(h, e, d, n, 0, [])
  {
    h', data := h, [];
    var read := 0;
    while read < n
      invariant read <= n && HandleOk(h')
      invariant ReadLoop(h', e, d, n, read, data) == ReadLoop(h, e, d, n, 0, [])
      decreases n - read
    {
      ghost var h0, read0, data0 := h', read, data;
      h', read, data := ReadNext(h', e, d, n, read, data);
      ReadLoopAdvance(h0, e, d, n, read0, data0, h', read, data);
    }
  }

  /** A pass of the read loop that did what ReadChunk says leaves the rest
      of the loop with the same outcome. */
  lemma ReadLoopAdvance(h: Handle, e: DirEntry, d: Disk, n: nat, read: nat, data: seq<byte>,
                        h': Handle, read': nat, data': seq<byte>)
    requires HandleOk(h) && DiskOk(d) && read < n
    requires var r := ReadChunk(h, e, d, n, read);
      h' == r.0 && data' == data + r.1 && read' == read + |r.1|
    ensures read' <= n && HandleOk(h')
    ensures ReadLoop(h', e, d, n, read', data') == ReadLoop(h, e, d, n, read, data)
  {
    ReadLoopStep(h, e, d, n, read, data);
  }

  /** The copy loop of fs_read: count bytes of buffer from offset on,
      appended to data. */
  method CopyOut(buffer: seq<byte>, offset: nat, count: nat, data: seq<byte>) returns (r: seq<byte>)
    requires offset + count <= |buffer|
    ensures r == data + buffer[offset..offset + count]
  {
    r := data;
    var i := 0;
    while i < count
      invariant i <= count && r == data + buffer[offset..offset + i]
    {
      r := r + [buffer[offset + i]];
      i := i + 1;
    }
  }

  /** The copy loop of fs_write: count bytes of src from `from` on,
      placed into b from offset on. */
  method CopyIn(b: seq<byte>, offset: nat, src: seq<byte>, from: nat, count: nat) returns (r: seq<byte>)
    requires offset + count <= |b| && from + count <= |src|
    ensures r == b[..offset] + src[from..from + count] + b[offset + count..]
  {
    r := b;
    var i := 0;
    while i < count
      invariant i <= count && |r| == |b|
      invariant forall j :: 0 <= j < |r| ==> r[j] == if offset <= j < offset + i then src[from + j - offset] else b[j]
    {
      r := r[offset + i := src[from + i]];
      i := i + 1;
    }
    assert r == b[..offset] + src[from..from + count] + b[offset + count..];
  }

  /** strcpy(record, path) on the bytes of a directory record: the path's
      bytes one by one from the front, then the terminator. */
  method Strcpy(rec: seq<byte>, path: seq<byte>) returns (r: seq<byte>)
    requires |rec| == DIRENT_SIZE && PathOk(path)
    ensures r == path + [0] + rec[|path| + 1..]
  {
    r := rec;
    var k := 0;
    while k < |path|
      invariant k <= |path| && |r| == DIRENT_SIZE
      invariant forall j :: 0 <= j < DIRENT_SIZE ==> r[j] == if j < k then path[j] else rec[j]
    {
      r := r[k := path[k]];
      k := k + 1;
    }
    r := r[k := 0];
    assert r == path + [0] + rec[|path| + 1..];
  }

  /** strcmp(record, path) == 0 exactly when the record's bytes from the
      start spell path and its terminator. */
  method Strcmp(rec: seq<byte>, path: seq<byte>) returns (r: int)
    requires |rec| == DIRENT_SIZE && PathOk(path)
    ensures r == 0 <==> rec[..|path| + 1] == path + [0]
  {
    var s2 := path + [0];
    var k := 0;
    while rec[k] != 0 && rec[k] == s2[k]
      invariant k <= |path| && rec[..k] == path[..k]
      decreases |path| - k
    {
      k := k + 1;
    }
    r := rec[k] as int - s2[k] as int;
  }

  /** One pass of the release loop. */
  lemma ReleaseStep(bm: seq<byte>, free: nat, first: nat, i: nat, n: nat, total: nat)
    requires |bm| == FsBitmap.BITMAP_BYTES && total <= FsBitmap.BITMAP_BITS
    requires IsU32(free) && IsU32(first) && i < n
    ensures var b := Wrap32(first + i);
      ReleaseRange(bm, free, first, i, n, total)
      == if b < total && FsBitmap.Test(bm, b)
         then ReleaseRange(FsBitmap.Clear(bm, b), Wrap32(free + 1), first, i + 1, n, total)
         else ReleaseRange(bm, free, first, i + 1, n, total)
  {
  }
}

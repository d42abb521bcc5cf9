/** Properties of fs_mount and fs_flush_metadata (kernel/fs.c:25-31, 72):
    mount formats a volume without the magic, sets the mounted flag only
    after every read, and a remount after a flush brings back the
    superblock, the bitmap and only directory entries 0..7 and 64..71. */
module FsMountProps {
  import opened Word
  import opened FsLayout
  import opened FsSpec

  /** Superblocks whose first 24 bytes agree have the same six words. */
  lemma SuperblockWordsFromPrefix(a: Superblock, b: Superblock)
    requires SuperblockOk(a) && SuperblockOk(b)
    requires EncodeSuperblock(a)[..24] == EncodeSuperblock(b)[..24]
    ensures a.magic == b.magic && a.blockSize == b.blockSize
    ensures a.totalBlocks == b.totalBlocks && a.freeBlocks == b.freeBlocks
    ensures a.rootDirBlock == b.rootDirBlock && a.bitmapBlock == b.bitmapBlock
  {
    SuperblockRoundTrip(a);
    SuperblockRoundTrip(b);
    var ma, mb := EncodeSuperblock(a), EncodeSuperblock(b);
    assert ma[0..4] == mb[0..4] && ma[4..8] == mb[4..8] && ma[8..12] == mb[8..12];
    assert ma[12..16] == mb[12..16] && ma[16..20] == mb[16..20] && ma[20..24] == mb[20..24];
  }

  /** fs_mount sets the mounted flag only when it returns 0, fails with
      nothing changed when block 0 cannot be read, and installs the
      superblock read from block 0, formatted first when its magic is not
      FS_MAGIC. */
  lemma MountEffect(v: Volume)
    requires VolumeOk(v)
    ensures var (r, st) := Mount(v);
      && (st == 0 || st == -1)
      && (st == 0 ==> r.mounted)
      && (st != 0 ==> r.mounted == v.mounted)
      && (0 !in v.disk ==> r == v && st == -1)
      && (0 in v.disk ==>
            var sb1 := LoadSuperblock(v.sb, v.disk[0]);
            && (sb1.magic == FS_MAGIC ==> r.sb == sb1)
            && (sb1.magic != FS_MAGIC ==> r.sb == FormattedSuperblock(sb1)))
  {
    if 0 in v.disk {
      var v1 := v.(sb := LoadSuperblock(v.sb, v.disk[0]));
      MountStages(v, v1);
      CheckMagicEffect(v1);
    }
  }

  lemma CheckMagicEffect(v: Volume)
    requires VolumeOk(v)
    ensures var c := CheckMagic(v);
      && (v.sb.magic != FS_MAGIC ==> c.0.sb == FormattedSuperblock(v.sb))
      && (v.sb.magic == FS_MAGIC ==> c == (v, 0))
  {
  }

  /** The reads at the end of fs_mount set the flag only when all three
      succeed, and then memory holds the bitmap block and the two directory
      blocks as the disk has them; the other 112 slots are not touched. */
  lemma LoadMetadataEffect(v: Volume)
    requires VolumeOk(v)
    ensures var (r, st) := LoadMetadata(v);
      && (st == 0 || st == -1)
      && (st == 0 ==> r.mounted)
      && (st != 0 ==> r.mounted == v.mounted)
      && (st == 0 <==> v.sb.bitmapBlock in v.disk && v.sb.rootDirBlock in v.disk
                       && Wrap32(v.sb.rootDirBlock + 1) in v.disk)
      && (st == 0 ==>
            && r.bitmap == v.disk[v.sb.bitmapBlock]
            && r.dir[0..8] == DecodeEntries(v.disk[v.sb.rootDirBlock])
            && r.dir[64..72] == DecodeEntries(v.disk[Wrap32(v.sb.rootDirBlock + 1)])
            && forall i :: 8 <= i < 64 || 72 <= i < FS_MAX_FILES ==> r.dir[i] == v.dir[i])
  {
    var (r, st) := LoadMetadata(v);
    if st == 0 {
      var dir := LoadDirBlock(v.dir, 0, v.disk[v.sb.rootDirBlock]);
      assert r.dir == LoadDirBlock(dir, 64, v.disk[Wrap32(v.sb.rootDirBlock + 1)]);
      assert r.dir[0..8] == dir[0..8];
    }
  }

  /** The four metadata blocks of v's superblock: all on the disk and no
      two the same. */
  predicate MetadataBlocksDistinct(v: Volume)
    requires VolumeOk(v)
  {
    var bmb, d0, d1 := v.sb.bitmapBlock, v.sb.rootDirBlock, Wrap32(v.sb.rootDirBlock + 1);
    && 0 in v.disk && bmb in v.disk && d0 in v.disk && d1 in v.disk
    && 0 != bmb && 0 != d0 && 0 != d1 && bmb != d0 && bmb != d1 && d0 != d1
  }

  /** With four distinct metadata blocks on the disk, the flush succeeds
      and those blocks then hold the first 512 superblock bytes, the
      bitmap and directory entries 0..7 and 64..71; no other block
      changes. */
  lemma FlushContents(v: Volume)
    requires VolumeOk(v) && MetadataBlocksDistinct(v)
    ensures var (d, ok) := Flush(v);
      && ok
      && d[0] == SuperblockBlock(v.sb)
      && d[v.sb.bitmapBlock] == v.bitmap
      && d[v.sb.rootDirBlock] == DirBlockLow(v.dir)
      && d[Wrap32(v.sb.rootDirBlock + 1)] == DirBlockHigh(v.dir)
      && forall b :: b in v.disk && b !in {0, v.sb.bitmapBlock, v.sb.rootDirBlock, Wrap32(v.sb.rootDirBlock + 1)}
           ==> d[b] == v.disk[b]
  {
  }

  /** Mounting a disk that a flush of v wrote, from whatever state w memory
      is in: the mount succeeds without formatting, the superblock words
      and the bitmap come back, and so do entries 0..7 and 64..71; every
      other slot keeps what w held, so entries 8..63 and 72..127 are lost. */
  lemma RemountAfterFlush(v: Volume, w: Volume)
    requires VolumeOk(v) && VolumeOk(w) && MetadataBlocksDistinct(v)
    requires v.sb.magic == FS_MAGIC
    requires w.disk == Flush(v).0
    ensures var (r, st) := Mount(w);
      && st == 0 && r.mounted
      && r.sb.magic == v.sb.magic && r.sb.totalBlocks == v.sb.totalBlocks
      && r.sb.freeBlocks == v.sb.freeBlocks && r.sb.bitmapBlock == v.sb.bitmapBlock
      && r.sb.rootDirBlock == v.sb.rootDirBlock && r.sb.blockSize == v.sb.blockSize
      && r.bitmap == v.bitmap
      && (forall i :: 0 <= i < 8 || 64 <= i < 72 ==> r.dir[i] == v.dir[i])
      && (forall i :: 8 <= i < 64 || 72 <= i < FS_MAX_FILES ==> r.dir[i] == w.dir[i])
  {
    FlushContents(v);
    var sb1 := LoadSuperblock(w.sb, w.disk[0]);
    FlushedSuperblock(v, w.sb, w.disk[0]);
    var w1 := w.(sb := sb1);
    MountStages(w, w1);
    CheckMagicEffect(w1);
    LoadMetadataEffect(w1);
    DirBlocksRoundTrip(v, LoadMetadata(w1).0.dir, w1.dir);
  }

  /** Block 0 as a flush of v wrote it, read over any superblock, gives
      back v's six words. */
  lemma FlushedSuperblock(v: Volume, sb: Superblock, blk: seq<byte>)
    requires VolumeOk(v) && SuperblockOk(sb) && blk == SuperblockBlock(v.sb)
    ensures var sb1 := LoadSuperblock(sb, blk);
      && sb1.magic == v.sb.magic && sb1.blockSize == v.sb.blockSize
      && sb1.totalBlocks == v.sb.totalBlocks && sb1.freeBlocks == v.sb.freeBlocks
      && sb1.rootDirBlock == v.sb.rootDirBlock && sb1.bitmapBlock == v.sb.bitmapBlock
  {
    var sb1 := LoadSuperblock(sb, blk);
    assert EncodeSuperblock(sb1)[..24] == EncodeSuperblock(v.sb)[..24];
    SuperblockWordsFromPrefix(sb1, v.sb);
  }

  /** A table whose slots 0..7 and 64..71 were decoded from the two blocks
      that v's directory encodes to holds v's entries there. */
  lemma DirBlocksRoundTrip(v: Volume, r: seq<DirEntry>, w: seq<DirEntry>)
    requires VolumeOk(v) && EntriesOk(r) && EntriesOk(w)
    requires r[0..8] == DecodeEntries(DirBlockLow(v.dir))
    requires r[64..72] == DecodeEntries(DirBlockHigh(v.dir))
    requires forall i :: 8 <= i < 64 || 72 <= i < FS_MAX_FILES ==> r[i] == w[i]
    ensures forall i :: 0 <= i < 8 || 64 <= i < 72 ==> r[i] == v.dir[i]
  {
    EntriesRoundTrip(v.dir[0..8]);
    EntriesRoundTrip(v.dir[64..72]);
    forall i | 0 <= i < 8 || 64 <= i < 72
      ensures r[i] == v.dir[i]
    {
      if i < 8 {
        assert r[i] == r[0..8][i];
      } else {
        assert r[i] == r[64..72][i - 64];
      }
    }
  }
}

/** The SFS file system of kernel/fs.c as functions on a whole-volume value:
    the superblock, bitmap, directory table, handle pool and mounted flag
    held in memory, plus the disk behind them. Every function here is the
    effect of one C routine; the class in module Fs runs the same routines
    in place and is proved to produce exactly these values. */
module FsSpec {
  import opened Word
  import opened FsLayout
  import FsBitmap

  const NUM_HANDLES: nat := 16

  /** The block device behind ata_read_sectors/ata_write_sectors (drive 0,
      one sector per call): a block index outside the map is one the drive
      refuses, so the transfer fails. */
  type Disk = map<nat, seq<byte>>

  datatype Volume = Volume(
    sb: Superblock, bitmap: seq<byte>, dir: seq<DirEntry>,
    handles: seq<Handle>, mounted: bool, disk: Disk)

  predicate DiskOk(d: Disk) {
    forall b :: b in d ==> |d[b]| == FS_BLOCK_SIZE
  }

  predicate EntriesOk(dir: seq<DirEntry>) {
    |dir| == FS_MAX_FILES && forall i :: 0 <= i < |dir| ==> DirEntryOk(dir[i])
  }

  predicate HandlesOk(hs: seq<Handle>) {
    |hs| == NUM_HANDLES && forall i :: 0 <= i < |hs| ==> HandleOk(hs[i])
  }

  /** The shapes the C declarations fix: a 512-byte bitmap, 128 entries,
      16 handles, 512-byte disk blocks. */
  predicate VolumeOk(v: Volume) {
    && SuperblockOk(v.sb) && |v.bitmap| == FsBitmap.BITMAP_BYTES
    && EntriesOk(v.dir) && HandlesOk(v.handles) && DiskOk(v.disk)
  }

  /** The bitmap indexing stays inside fs_bitmap only while total_blocks
      is at most 4096; the routines that scan or update bits need this. */
  predicate BitmapFits(v: Volume) {
    v.sb.totalBlocks <= FsBitmap.BITMAP_BITS
  }

  function Min(a: nat, b: nat): nat {
    if a <= b then a else b
  }

  // ---------------------------------------------------------------------
  // The block device (fs_read_block / fs_write_block)
  // ---------------------------------------------------------------------

  /** A read into buf: the block when the drive delivers it, else buf as it
      was. */
  function LoadBlock(d: Disk, b: nat, buf: seq<byte>): (r: seq<byte>)
    requires DiskOk(d) && |buf| == FS_BLOCK_SIZE
    ensures |r| == FS_BLOCK_SIZE
    ensures b in d ==> r == d[b]
    ensures b !in d ==> r == buf
  {
    if b in d then d[b] else buf
  }

  /** A one-block write and whether it succeeded; a refused write leaves
      the disk as it was. */
  function StoreBlock(d: Disk, b: nat, data: seq<byte>): (r: (Disk, bool))
    requires DiskOk(d) && |data| == FS_BLOCK_SIZE
    ensures DiskOk(r.0) && r.0.Keys == d.Keys && r.1 == (b in d)
    ensures r.1 ==> r.0[b] == data
    ensures forall c :: c in d && c != b ==> r.0[c] == d[c]
  {
    if b in d then (d[b := data], true) else (d, false)
  }

  /** The first 512 of the superblock's 516 bytes: what block 0 receives. */
  function SuperblockBlock(sb: Superblock): (r: seq<byte>)
    requires SuperblockOk(sb)
    ensures |r| == FS_BLOCK_SIZE
  {
    EncodeSuperblock(sb)[..FS_BLOCK_SIZE]
  }

  /** The block written from &root_dir[0]: entries 0..7. */
  function DirBlockLow(dir: seq<DirEntry>): (r: seq<byte>)
    requires EntriesOk(dir)
    ensures |r| == FS_BLOCK_SIZE
  {
    EncodeEntries(dir[0..8])
  }

  /** The block written from &root_dir[64]: entries 64..71. */
  function DirBlockHigh(dir: seq<DirEntry>): (r: seq<byte>)
    requires EntriesOk(dir)
    ensures |r| == FS_BLOCK_SIZE
  {
    EncodeEntries(dir[64..72])
  }

  /** fs_flush_metadata: superblock, bitmap and the two directory blocks in
      that order, stopping at the first refused write. */
  function Flush(v: Volume): (r: (Disk, bool))
    requires VolumeOk(v)
    ensures DiskOk(r.0) && r.0.Keys == v.disk.Keys
  {
    var (d1, ok1) := StoreBlock(v.disk, 0, SuperblockBlock(v.sb));
    if !ok1 then (d1, false) else
    var (d2, ok2) := StoreBlock(d1, v.sb.bitmapBlock, v.bitmap);
    if !ok2 then (d2, false) else
    var (d3, ok3) := StoreBlock(d2, v.sb.rootDirBlock, DirBlockLow(v.dir));
    if !ok3 then (d3, false) else
    StoreBlock(d3, Wrap32(v.sb.rootDirBlock + 1), DirBlockHigh(v.dir))
  }

  // ---------------------------------------------------------------------
  // Block allocation (fs_allocate_block / fs_free_blocks)
  // ---------------------------------------------------------------------

  /** fs_allocate_block on the entry in slot s; None is the -1 return, after
      which nothing has changed. */
  function Allocate(v: Volume, s: nat): (r: Option<Volume>)
    requires VolumeOk(v) && BitmapFits(v) && s < FS_MAX_FILES
    ensures r.Some? ==> VolumeOk(r.value) && BitmapFits(r.value)
    ensures r.Some? ==> r.value.handles == v.handles && r.value.disk == v.disk
    ensures r.Some? ==> r.value.mounted == v.mounted
  {
    var e := v.dir[s];
    if e.blocks == 0 then
      match FsBitmap.FirstClear(v.bitmap, 4, v.sb.totalBlocks)
      case None => None
      case Some(b) =>
        Some(v.(bitmap := FsBitmap.Set(v.bitmap, b),
                dir := v.dir[s := e.(firstBlock := b, blocks := 1)],
                sb := v.sb.(freeBlocks := Wrap32(v.sb.freeBlocks - 1))))
    else
      var next := Wrap32(e.firstBlock + e.blocks);
      if next >= v.sb.totalBlocks then None
      else if FsBitmap.Test(v.bitmap, next) then None
      else
        Some(v.(bitmap := FsBitmap.Set(v.bitmap, next),
                dir := v.dir[s := e.(blocks := Wrap32(e.blocks + 1))],
                sb := v.sb.(freeBlocks := Wrap32(v.sb.freeBlocks - 1))))
  }

  /** The loop of fs_free_blocks from index i on: clears each set bit of
      first + i, first + i + 1, ... below total, counting each one into
      free. */
  function ReleaseRange(bm: seq<byte>, free: nat, first: nat, i: nat, n: nat, total: nat)
    : (r: (seq<byte>, nat))
    requires |bm| == FsBitmap.BITMAP_BYTES && total <= FsBitmap.BITMAP_BITS
    requires IsU32(free) && IsU32(first)
    ensures |r.0| == |bm| && IsU32(r.1)
    decreases n - i
  {
    if i >= n then (bm, free)
    else
      var b := Wrap32(first + i);
      if b < total && FsBitmap.Test(bm, b) then
        ReleaseRange(FsBitmap.Clear(bm, b), Wrap32(free + 1), first, i + 1, n, total)
      else
        ReleaseRange(bm, free, first, i + 1, n, total)
  }

  /** fs_free_blocks on slot s. */
  function Release(v: Volume, s: nat): (r: Volume)
    requires VolumeOk(v) && BitmapFits(v) && s < FS_MAX_FILES
    ensures VolumeOk(r) && BitmapFits(r)
    ensures r.handles == v.handles && r.disk == v.disk && r.mounted == v.mounted
  {
    var e := v.dir[s];
    if e.blocks == 0 then v
    else
      var (bm, free) := ReleaseRange(v.bitmap, v.sb.freeBlocks, e.firstBlock, 0, e.blocks, v.sb.totalBlocks);
      v.(bitmap := bm, sb := v.sb.(freeBlocks := free),
         dir := v.dir[s := e.(blocks := 0, firstBlock := 0, size := 0)])
  }

  // ---------------------------------------------------------------------
  // Names and the directory table
  // ---------------------------------------------------------------------

  /** A C string as fs.c receives it: no NUL inside, and short enough that
      strcmp and strcpy stay inside one 64-byte entry. */
  predicate PathOk(path: seq<byte>) {
    |path| < DIRENT_SIZE && forall i :: 0 <= i < |path| ==> path[i] != 0
  }

  /** strcmp(entry->name, path) == 0. The comparison reads the entry's
      bytes from the name field on, so a name that fills all 32 bytes runs
      on into the type and size fields. */
  predicate NameIs(e: DirEntry, path: seq<byte>)
    requires DirEntryOk(e) && PathOk(path)
  {
    EncodeEntry(e)[..|path| + 1] == path + [0]
  }

  /** The test fs_find_entry applies to slot j. */
  predicate Matches(dir: seq<DirEntry>, path: seq<byte>, j: nat)
    requires EntriesOk(dir) && PathOk(path) && j < FS_MAX_FILES
  {
    dir[j].etype != FS_TYPE_EMPTY && NameIs(dir[j], path)
  }

  /** fs_find_entry scanning from slot i: the first non-EMPTY entry whose
      name compares equal to path. */
  function FindEntry(dir: seq<DirEntry>, path: seq<byte>, i: nat): (r: Option<nat>)
    requires EntriesOk(dir) && PathOk(path)
    ensures r.Some? ==> i <= r.value < FS_MAX_FILES && Matches(dir, path, r.value)
    ensures r.Some? ==> forall j :: i <= j < r.value ==> !Matches(dir, path, j)
    ensures r.None? ==> forall j :: i <= j < FS_MAX_FILES ==> !Matches(dir, path, j)
    decreases FS_MAX_FILES - i
  {
    if i >= FS_MAX_FILES then None
    else if Matches(dir, path, i) then Some(i)
    else FindEntry(dir, path, i + 1)
  }

  /** fs_find_free_entry scanning from slot i: the first EMPTY entry. */
  function FindFree(dir: seq<DirEntry>, i: nat): (r: Option<nat>)
    requires EntriesOk(dir)
    ensures r.Some? ==> i <= r.value < FS_MAX_FILES && dir[r.value].etype == FS_TYPE_EMPTY
    ensures r.Some? ==> forall j :: i <= j < r.value ==> dir[j].etype != FS_TYPE_EMPTY
    ensures r.None? ==> forall j :: i <= j < FS_MAX_FILES ==> dir[j].etype != FS_TYPE_EMPTY
    decreases FS_MAX_FILES - i
  {
    if i >= FS_MAX_FILES then None
    else if dir[i].etype == FS_TYPE_EMPTY then Some(i)
    else FindFree(dir, i + 1)
  }

  /** strcpy(entry->name, path): path and its terminator overwrite the
      entry's bytes from the name field on, whatever field they land in. */
  function CopyName(e: DirEntry, path: seq<byte>): (r: DirEntry)
    requires DirEntryOk(e) && PathOk(path)
    ensures DirEntryOk(r)
    ensures EncodeEntry(r) == path + [0] + EncodeEntry(e)[|path| + 1..]
  {
    var m := path + [0] + EncodeEntry(e)[|path| + 1..];
    RecordRoundTrip(m);
    DecodeEntry(m)
  }

  /** The entry fs_create and fs_open("w") make: the copied name, then the
      type, and size, first block and block count zeroed. */
  function NewEntry(e: DirEntry, path: seq<byte>, t: byte): (r: DirEntry)
    requires DirEntryOk(e) && PathOk(path)
    ensures DirEntryOk(r)
  {
    CopyName(e, path).(etype := t, size := 0, firstBlock := 0, blocks := 0)
  }

  /** What fs_delete and fs_format leave in a slot: EMPTY, name[0] = 0. */
  function EmptiedEntry(e: DirEntry): (r: DirEntry)
    requires DirEntryOk(e)
    ensures DirEntryOk(r)
  {
    e.(etype := FS_TYPE_EMPTY, name := e.name[0 := 0])
  }

  /** The number of FILE entries among slots 0..n-1. */
  function CountFiles(dir: seq<DirEntry>, n: nat): (r: nat)
    requires n <= |dir|
    ensures r <= n
  {
    if n == 0 then 0
    else CountFiles(dir, n - 1) + (if dir[n - 1].etype == FS_TYPE_FILE then 1 else 0)
  }

  // ---------------------------------------------------------------------
  // fs_init, fs_format, fs_mount
  // ---------------------------------------------------------------------

  /** The statics of fs.c before any routine runs: zero-filled and not
      mounted, over the given disk. */
  function Boot(d: Disk): (r: Volume)
    requires DiskOk(d)
    ensures VolumeOk(r) && !r.mounted && r.disk == d
  {
    var zeroEntry := DirEntry(seq(FS_MAX_FILENAME, _ => 0 as byte), FS_TYPE_EMPTY, 0, 0, 0,
      seq(DIRENT_RESERVED, _ => 0 as byte));
    var zeroHandle := Handle(false, 0 as char, 0, None, seq(FS_BLOCK_SIZE, _ => 0 as byte), 0);
    Volume(Superblock(0, 0, 0, 0, 0, 0, seq(SB_RESERVED, _ => 0 as byte)), FsBitmap.Zeroes(),
      seq(FS_MAX_FILES, _ => zeroEntry), seq(NUM_HANDLES, _ => zeroHandle), false, d)
  }

  /** fs_init: every handle is released; nothing else changes. */
  function Init(v: Volume): (r: Volume)
    requires VolumeOk(v)
    ensures VolumeOk(r)
  {
    v.(handles := seq(NUM_HANDLES, i requires 0 <= i < NUM_HANDLES => v.handles[i].(inUse := false)))
  }

  /** The superblock fs_format writes: the reserved bytes are left as they
      were in memory. */
  function FormattedSuperblock(sb: Superblock): (r: Superblock)
    requires SuperblockOk(sb)
    ensures SuperblockOk(r)
  {
    sb.(magic := FS_MAGIC, blockSize := FS_BLOCK_SIZE, totalBlocks := 1024,
        rootDirBlock := 2, bitmapBlock := 1, freeBlocks := 1024 - 4)
  }

  /** fs_format's loop over root_dir: every entry EMPTY with an empty name
      and zero size, first block and blocks. */
  function FormattedDir(dir: seq<DirEntry>): (r: seq<DirEntry>)
    requires EntriesOk(dir)
    ensures EntriesOk(r)
  {
    seq(FS_MAX_FILES, i requires 0 <= i < FS_MAX_FILES =>
      EmptiedEntry(dir[i]).(size := 0, firstBlock := 0, blocks := 0))
  }

  /** fs_format and its return value. The superblock write comes before the
      directory is reset, so when it fails the directory is untouched. */
  function Format(v: Volume): (r: (Volume, int))
    requires VolumeOk(v)
    ensures VolumeOk(r.0) && r.0.disk.Keys == v.disk.Keys
    ensures r.0.handles == v.handles && r.0.mounted == v.mounted
    ensures r.1 == 0 || r.1 == -1
    ensures r.0.sb == FormattedSuperblock(v.sb) && r.0.bitmap == FsBitmap.Formatted()
    ensures r.1 == 0 ==> r.0.dir == FormattedDir(v.dir)
  {
    var v1 := v.(sb := FormattedSuperblock(v.sb), bitmap := FsBitmap.Formatted());
    var w := StoreBlock(v1.disk, 0, SuperblockBlock(v1.sb));
    if !w.1 then (v1, -1) else FormatDir(v1.(disk := w.0))
  }

  /** The rest of fs_format once the superblock is written: reset the
      directory, then write the bitmap and the two directory blocks. */
  function FormatDir(v: Volume): (r: (Volume, int))
    requires VolumeOk(v)
    ensures VolumeOk(r.0) && r.0.disk.Keys == v.disk.Keys
    ensures r.0.handles == v.handles && r.0.mounted == v.mounted
    ensures r.1 == 0 || r.1 == -1
    ensures r.0.sb == v.sb && r.0.bitmap == v.bitmap && r.0.dir == FormattedDir(v.dir)
  {
    var v1 := v.(dir := FormattedDir(v.dir));
    var w := StoreBlock(v1.disk, v1.sb.bitmapBlock, v1.bitmap);
    if !w.1 then (v1.(disk := w.0), -1) else StoreRootDir(v1.(disk := w.0))
  }

  /** The two directory writes that end fs_format. */
  function StoreRootDir(v: Volume): (r: (Volume, int))
    requires VolumeOk(v)
    ensures VolumeOk(r.0) && r.0.disk.Keys == v.disk.Keys
    ensures r.0 == v.(disk := r.0.disk) && (r.1 == 0 || r.1 == -1)
  {
    var w := StoreBlock(v.disk, v.sb.rootDirBlock, DirBlockLow(v.dir));
    if !w.1 then (v.(disk := w.0), -1) else
    var w2 := StoreBlock(w.0, Wrap32(v.sb.rootDirBlock + 1), DirBlockHigh(v.dir));
    (v.(disk := w2.0), if w2.1 then 0 else -1)
  }

  /** The superblock after block 0 is read over the first 512 of its 516
      bytes. */
  function LoadSuperblock(sb: Superblock, blk: seq<byte>): (r: Superblock)
    requires SuperblockOk(sb) && |blk| == FS_BLOCK_SIZE
    ensures SuperblockOk(r)
    ensures EncodeSuperblock(r) == blk + EncodeSuperblock(sb)[FS_BLOCK_SIZE..]
  {
    var m := blk + EncodeSuperblock(sb)[FS_BLOCK_SIZE..];
    SuperblockBytesRoundTrip(m);
    DecodeSuperblock(m)
  }

  lemma SuperblockBytesRoundTrip(m: seq<byte>)
    requires |m| == SUPERBLOCK_SIZE
    ensures EncodeSuperblock(DecodeSuperblock(m)) == m
  {
    var sb := DecodeSuperblock(m);
    FromLE32RoundTrip(m[0..4]);
    FromLE32RoundTrip(m[4..8]);
    FromLE32RoundTrip(m[8..12]);
    FromLE32RoundTrip(m[12..16]);
    FromLE32RoundTrip(m[16..20]);
    FromLE32RoundTrip(m[20..24]);
    assert m[..8] == m[0..4] + m[4..8];
    assert m[..12] == m[..8] + m[8..12];
    assert m[..16] == m[..12] + m[12..16];
    assert m[..20] == m[..16] + m[16..20];
    assert m[..24] == m[..20] + m[20..24];
    assert m == m[..24] + m[24..];
  }

  /** Eight entries read from a block into slots k..k+7. */
  function LoadDirBlock(dir: seq<DirEntry>, k: nat, blk: seq<byte>): (r: seq<DirEntry>)
    requires EntriesOk(dir) && k + 8 <= FS_MAX_FILES && |blk| == FS_BLOCK_SIZE
    ensures EntriesOk(r)
    ensures r[k..k + 8] == DecodeEntries(blk)
    ensures forall i :: 0 <= i < FS_MAX_FILES && !(k <= i < k + 8) ==> r[i] == dir[i]
  {
    dir[..k] + DecodeEntries(blk) + dir[k + 8..]
  }

  /** fs_mount and its return value: format on a magic mismatch, then read
      the bitmap and the two directory blocks; mounted is set only once all
      of them have been read. */
  function Mount(v: Volume): (r: (Volume, int))
    requires VolumeOk(v)
    ensures VolumeOk(r.0) && r.0.handles == v.handles && r.0.disk.Keys == v.disk.Keys
  {
    if 0 !in v.disk then (v, -1) else
    var (v2, st) := CheckMagic(v.(sb := LoadSuperblock(v.sb, v.disk[0])));
    if st != 0 then (v2, -1) else LoadMetadata(v2)
  }

  /** fs_mount once block 0 has been read into the superblock: the magic
      test, then the metadata reads. */
  lemma MountStages(v: Volume, v1: Volume)
    requires VolumeOk(v) && 0 in v.disk && v1 == v.(sb := LoadSuperblock(v.sb, v.disk[0]))
    ensures var c := CheckMagic(v1);
      Mount(v) == (if c.1 != 0 then (c.0, -1) else LoadMetadata(c.0))
  {
  }

  /** The magic test of fs_mount: a volume without FS_MAGIC is formatted. */
  function CheckMagic(v: Volume): (r: (Volume, int))
    requires VolumeOk(v)
    ensures VolumeOk(r.0) && r.0.handles == v.handles && r.0.disk.Keys == v.disk.Keys
    ensures r.0.mounted == v.mounted && (r.1 == 0 || r.1 == -1)
  {
    if v.sb.magic != FS_MAGIC then Format(v) else (v, 0)
  }

  /** The reads that end fs_mount: the bitmap, then the two directory
      blocks, then the mounted flag. */
  function LoadMetadata(v: Volume): (r: (Volume, int))
    requires VolumeOk(v)
    ensures VolumeOk(r.0) && r.0.handles == v.handles && r.0.disk == v.disk
    ensures r.0.sb == v.sb && (r.1 == 0 || r.1 == -1)
    ensures r.0.mounted == (r.1 == 0 || v.mounted)
  {
    var bmb := v.sb.bitmapBlock;
    if bmb !in v.disk then (v, -1) else LoadRootDir(v.(bitmap := v.disk[bmb]))
  }

  /** The directory reads of fs_mount, from root_dir_block on. */
  function LoadRootDir(v: Volume): (r: (Volume, int))
    requires VolumeOk(v)
    ensures VolumeOk(r.0) && r.0.handles == v.handles && r.0.disk == v.disk
    ensures r.0.sb == v.sb && r.0.bitmap == v.bitmap && (r.1 == 0 || r.1 == -1)
    ensures r.0.mounted == (r.1 == 0 || v.mounted)
  {
    var d0 := v.sb.rootDirBlock;
    if d0 !in v.disk then (v, -1) else LoadRootDirHigh(v.(dir := LoadDirBlock(v.dir, 0, v.disk[d0])))
  }

  /** The last read of fs_mount, entries 64..71, and the mounted flag. */
  function LoadRootDirHigh(v: Volume): (r: (Volume, int))
    requires VolumeOk(v)
    ensures VolumeOk(r.0) && r.0.handles == v.handles && r.0.disk == v.disk
    ensures r.0.sb == v.sb && r.0.bitmap == v.bitmap && (r.1 == 0 || r.1 == -1)
    ensures r.0.mounted == (r.1 == 0 || v.mounted)
  {
    var d1 := Wrap32(v.sb.rootDirBlock + 1);
    if d1 !in v.disk then (v, -1) else (v.(dir := LoadDirBlock(v.dir, 64, v.disk[d1]), mounted := true), 0)
  }

  /** A read that reports failure: the block, or None. */
  function LoadOk(d: Disk, b: nat): (r: Option<seq<byte>>)
    requires DiskOk(d)
    ensures r.Some? <==> b in d
    ensures r.Some? ==> r.value == d[b] && |r.value| == FS_BLOCK_SIZE
  {
    if b in d then Some(d[b]) else None
  }

  // ---------------------------------------------------------------------
  // Handles: fs_open, fs_close, fs_seek
  // ---------------------------------------------------------------------

  /** The first handle not in use, scanning from i. */
  function FreeHandle(hs: seq<Handle>, i: nat): (r: Option<nat>)
    requires |hs| == NUM_HANDLES
    ensures r.Some? ==> i <= r.value < NUM_HANDLES && !hs[r.value].inUse
    ensures r.Some? ==> forall j :: i <= j < r.value ==> hs[j].inUse
    ensures r.None? ==> forall j :: i <= j < NUM_HANDLES ==> hs[j].inUse
    decreases NUM_HANDLES - i
  {
    if i >= NUM_HANDLES then None
    else if !hs[i].inUse then Some(i)
    else FreeHandle(hs, i + 1)
  }

  /** The common tail of fs_open: in use, at position 0, no cached block. */
  function Opened(h: Handle, mode: char, dirent: Option<nat>): (r: Handle)
    requires HandleOk(h) && (dirent.Some? ==> dirent.value < FS_MAX_FILES)
    ensures HandleOk(r)
  {
    h.(inUse := true, mode := mode, position := 0, dirent := dirent, bufferBlock := NO_BLOCK)
  }

  /** fs_open(path, mode) with mode[0] = m, returning the handle's index
      (None is the NULL return). 'r' needs an existing entry of any type;
      'w' reuses an existing entry or creates a FILE in the first EMPTY
      slot; any other mode keeps the handle's previous mode and may leave
      its entry NULL. */
  function Open(v: Volume, path: seq<byte>, m: char): (r: (Volume, Option<nat>))
    requires VolumeOk(v) && PathOk(path)
    ensures VolumeOk(r.0) && r.0.sb == v.sb && r.0.bitmap == v.bitmap
    ensures r.0.disk == v.disk && r.0.mounted == v.mounted
    ensures r.1.Some? ==> r.1.value < NUM_HANDLES
  {
    if !v.mounted then (v, None) else
    match FreeHandle(v.handles, 0)
    case None => (v, None)
    case Some(h) => OpenIn(v, h, path, FindEntry(v.dir, path, 0), m)
  }

  /** fs_open once handle h has been picked and the name looked up. */
  function OpenIn(v: Volume, h: nat, path: seq<byte>, found: Option<nat>, m: char): (r: (Volume, Option<nat>))
    requires VolumeOk(v) && PathOk(path) && h < NUM_HANDLES
    requires found.Some? ==> found.value < FS_MAX_FILES
    ensures VolumeOk(r.0) && r.0.sb == v.sb && r.0.bitmap == v.bitmap
    ensures r.0.disk == v.disk && r.0.mounted == v.mounted
    ensures r.1.Some? ==> r.1.value == h
  {
    if m == 'r' then
      if found.None? then (v, None) else (Attach(v, h, 'r', found), Some(h))
    else if m == 'w' then
      if found.Some? then (Attach(v, h, 'w', found), Some(h)) else OpenNew(v, h, path)
    else
      (Attach(v, h, v.handles[h].mode, found), Some(h))
  }

  /** fs_open in mode "w" on a name that does not exist: the file is made
      in the first EMPTY slot, or the open fails when there is none. */
  function OpenNew(v: Volume, h: nat, path: seq<byte>): (r: (Volume, Option<nat>))
    requires VolumeOk(v) && PathOk(path) && h < NUM_HANDLES
    ensures VolumeOk(r.0) && r.0.sb == v.sb && r.0.bitmap == v.bitmap
    ensures r.0.disk == v.disk && r.0.mounted == v.mounted
    ensures r.1.Some? ==> r.1.value == h
  {
    match FindFree(v.dir, 0)
    case None => (v, None)
    case Some(s) => (Attach(Install(v, s, NewEntry(v.dir[s], path, FS_TYPE_FILE)), h, 'w', Some(s)), Some(h))
  }

  /** Slot s of the table replaced by e; nothing else changes. */
  function Install(v: Volume, s: nat, e: DirEntry): (r: Volume)
    requires VolumeOk(v) && s < FS_MAX_FILES && DirEntryOk(e)
    ensures VolumeOk(r) && r == v.(dir := v.dir[s := e])
  {
    v.(dir := v.dir[s := e])
  }

  /** Handle h opened with the given mode and entry; nothing else changes. */
  function Attach(v: Volume, h: nat, mode: char, dirent: Option<nat>): (r: Volume)
    requires VolumeOk(v) && h < NUM_HANDLES && (dirent.Some? ==> dirent.value < FS_MAX_FILES)
    ensures VolumeOk(r)
    ensures r == v.(handles := r.handles) && |r.handles| == NUM_HANDLES
    ensures r.handles[h] == Opened(v.handles[h], mode, dirent)
    ensures forall j :: 0 <= j < NUM_HANDLES && j != h ==> r.handles[j] == v.handles[j]
  {
    v.(handles := v.handles[h := Opened(v.handles[h], mode, dirent)])
  }

  /** A handle pointer as the C API receives it: NULL or one of the 16. */
  predicate HandleRef(f: Option<nat>) {
    f.Some? ==> f.value < NUM_HANDLES
  }

  /** fs_close: a 'w' handle writes its cached block back (a refused write
      is ignored), the metadata is flushed (its result ignored too), and the
      handle is released. */
  function Close(v: Volume, f: Option<nat>): (r: (Volume, int))
    requires VolumeOk(v) && HandleRef(f)
    ensures VolumeOk(r.0) && r.0.disk.Keys == v.disk.Keys
    ensures r.0.sb == v.sb && r.0.bitmap == v.bitmap && r.0.dir == v.dir
    ensures r.0.mounted == v.mounted
  {
    if f.None? || !v.handles[f.value].inUse then (v, -1) else
    var h := v.handles[f.value];
    var d := if h.mode == 'w' && h.bufferBlock != NO_BLOCK
      then StoreBlock(v.disk, h.bufferBlock, h.buffer).0 else v.disk;
    var d2 := Flush(v.(disk := d)).0;
    (v.(disk := d2, handles := v.handles[f.value := h.(inUse := false)]), 0)
  }

  /** What fs_read, fs_write and fs_seek dereference: an in-use handle's
      entry pointer is not NULL. fs_open gives out handles without one (a
      mode other than "r" or "w" on a missing name), and those three
      routines, as written, dereference NULL on them; the model refuses
      such a handle with -1 instead. */
  predicate EntryAttached(v: Volume, f: Option<nat>)
    requires VolumeOk(v) && HandleRef(f)
  {
    f.Some? && v.handles[f.value].inUse ==> v.handles[f.value].dirent.Some?
  }

  /** fs_seek: the position becomes the offset, clamped to the size; -1 for
      NULL, a released handle or one without an entry. */
  function Seek(v: Volume, f: Option<nat>, offset: nat): (r: (Volume, int))
    requires VolumeOk(v) && HandleRef(f) && IsU32(offset)
    ensures VolumeOk(r.0)
  {
    if f.None? || !v.handles[f.value].inUse || v.handles[f.value].dirent.None? then (v, -1) else
    var h := v.handles[f.value];
    var size := v.dir[h.dirent.value].size;
    (v.(handles := v.handles[f.value := h.(position := Min(offset, size))]), 0)
  }

  // ---------------------------------------------------------------------
  // fs_read
  // ---------------------------------------------------------------------

  /** Bytes the next chunk moves: up to the end of the current block, and
      no more than remain. */
  function ChunkLen(offset: nat, remaining: nat): (r: nat)
    requires offset < FS_BLOCK_SIZE && 0 < remaining
    ensures 1 <= r <= remaining && offset + r <= FS_BLOCK_SIZE
  {
    Min(FS_BLOCK_SIZE - offset, remaining)
  }

  /** A handle that fs_read or fs_write can work on: in use with an entry. */
  predicate Active(v: Volume, f: nat)
    requires VolumeOk(v)
  {
    f < NUM_HANDLES && v.handles[f].inUse && v.handles[f].dirent.Some?
  }

  /** One pass of fs_read's loop on handle h of entry e: load the block on
      a cache miss, copy the chunk out, advance the position. */
  function ReadChunk(h: Handle, e: DirEntry, d: Disk, size: nat, done: nat): (r: (Handle, seq<byte>))
    requires HandleOk(h) && DiskOk(d) && done < size
    ensures HandleOk(r.0) && |r.1| == ChunkLen(h.position % FS_BLOCK_SIZE, size - done)
    ensures r.0.inUse == h.inUse && r.0.mode == h.mode && r.0.dirent == h.dirent
  {
    var offset := h.position % FS_BLOCK_SIZE;
    var n := ChunkLen(offset, size - done);
    var diskBlock := Wrap32(e.firstBlock + h.position / FS_BLOCK_SIZE);
    var buf := if h.bufferBlock != diskBlock then LoadBlock(d, diskBlock, h.buffer) else h.buffer;
    (h.(buffer := buf, bufferBlock := diskBlock, position := Wrap32(h.position + n)), buf[offset..offset + n])
  }

  /** fs_read's loop from `done` bytes on, with the bytes copied so far. */
  function ReadLoop(h: Handle, e: DirEntry, d: Disk, size: nat, done: nat, acc: seq<byte>)
    : (r: (Handle, seq<byte>))
    requires HandleOk(h) && DiskOk(d) && done <= size
    ensures HandleOk(r.0)
    decreases size - done
  {
    if done >= size then (h, acc)
    else
      var r := ReadChunk(h, e, d, size, done);
      ReadLoop(r.0, e, d, size, done + |r.1|, acc + r.1)
  }

  /** ReadLoop takes one chunk at a time. */
  lemma ReadLoopStep(h: Handle, e: DirEntry, d: Disk, size: nat, done: nat, acc: seq<byte>)
    requires HandleOk(h) && DiskOk(d) && done < size
    ensures var r := ReadChunk(h, e, d, size, done);
      ReadLoop(h, e, d, size, done, acc) == ReadLoop(r.0, e, d, size, done + |r.1|, acc + r.1)
  {
    var r := ReadChunk(h, e, d, size, done);
    assert ReadLoop(h, e, d, size, done, acc) == ReadLoop(r.0, e, d, size, done + |r.1|, acc + r.1);
  }

  /** The count fs_read actually moves: size, cut to what lies between the
      position and the end of the file (in 32-bit arithmetic, as the C
      compares and subtracts). */
  function ReadCount(pos: nat, size: nat, fileSize: nat): (r: nat)
    requires IsU32(pos) && IsU32(size) && IsU32(fileSize)
    ensures IsU32(r)
  {
    if Wrap32(pos + size) > fileSize then Wrap32(fileSize - pos) else size
  }

  /** fs_read: the volume after, the bytes placed in the caller's buffer,
      and the return value; -1 as well for a handle without an entry. */
  function Read(v: Volume, f: Option<nat>, size: nat): (r: (Volume, seq<byte>, int))
    requires VolumeOk(v) && HandleRef(f) && IsU32(size)
    ensures VolumeOk(r.0)
  {
    if f.None? || !v.handles[f.value].inUse || v.handles[f.value].mode != 'r'
       || v.handles[f.value].dirent.None? then (v, [], -1)
    else
      var h := v.handles[f.value];
      var e := v.dir[h.dirent.value];
      var n := ReadCount(h.position, size, e.size);
      var (h1, data) := ReadLoop(h, e, v.disk, n, 0, []);
      (v.(handles := v.handles[f.value := h1]), data, Signed32(n))
  }

  // ---------------------------------------------------------------------
  // fs_write
  // ---------------------------------------------------------------------

  /** The handle's entry owns the block the position falls in, allocating
      it when the position is past the last owned block. */
  function EnsureBlock(v: Volume, f: nat): (r: Option<Volume>)
    requires VolumeOk(v) && BitmapFits(v) && Active(v, f)
    ensures r.Some? ==> VolumeOk(r.value) && BitmapFits(r.value) && Active(r.value, f)
    ensures r.Some? ==> r.value.handles == v.handles && r.value.disk == v.disk
    ensures r.Some? ==> r.value.mounted == v.mounted
  {
    var h := v.handles[f];
    if h.position / FS_BLOCK_SIZE >= v.dir[h.dirent.value].blocks then Allocate(v, h.dirent.value)
    else Some(v)
  }

  /** On a cache miss: write back the cached block if there is one, and
      load the target block only when the chunk does not start at offset 0.
      The resulting disk and buffer. */
  function SwitchBlock(d: Disk, h: Handle, diskBlock: nat, offset: nat): (r: (Disk, seq<byte>))
    requires DiskOk(d) && HandleOk(h)
    ensures DiskOk(r.0) && r.0.Keys == d.Keys && |r.1| == FS_BLOCK_SIZE
  {
    if h.bufferBlock == diskBlock then (d, h.buffer)
    else
      var d1 := if h.bufferBlock != NO_BLOCK then StoreBlock(d, h.bufferBlock, h.buffer).0 else d;
      (d1, if offset > 0 then LoadBlock(d1, diskBlock, h.buffer) else h.buffer)
  }

  /** The part of one pass of fs_write's loop after growth, on handle h
      of entry e: switch the cached block if needed, copy the chunk into the
      buffer, advance the position and raise the size past it. The handle,
      the entry and the disk after. */
  function WriteInto(h: Handle, e: DirEntry, d: Disk, buf: seq<byte>, done: nat): (r: (Handle, DirEntry, Disk))
    requires HandleOk(h) && DirEntryOk(e) && DiskOk(d) && done < |buf|
    ensures HandleOk(r.0) && DirEntryOk(r.1) && DiskOk(r.2) && r.2.Keys == d.Keys
    ensures r.0.inUse == h.inUse && r.0.mode == h.mode && r.0.dirent == h.dirent
  {
    var offset := h.position % FS_BLOCK_SIZE;
    var n := ChunkLen(offset, |buf| - done);
    var diskBlock := Wrap32(e.firstBlock + h.position / FS_BLOCK_SIZE);
    var sw := SwitchBlock(d, h, diskBlock, offset);
    var b := sw.1[..offset] + buf[done..done + n] + sw.1[offset + n..];
    var pos := Wrap32(h.position + n);
    (h.(buffer := b, bufferBlock := diskBlock, position := pos),
     if pos > e.size then e.(size := pos) else e,
     sw.0)
  }

  /** One pass of fs_write's loop; None when growing the file fails. */
  function WriteChunk(v: Volume, f: nat, buf: seq<byte>, done: nat): (r: Option<Volume>)
    requires VolumeOk(v) && BitmapFits(v) && Active(v, f) && done < |buf|
    ensures r.Some? ==> VolumeOk(r.value) && BitmapFits(r.value) && Active(r.value, f)
    ensures r.Some? ==> r.value.mounted == v.mounted
  {
    match EnsureBlock(v, f)
    case None => None
    case Some(v1) =>
      var h := v1.handles[f];
      var s := h.dirent.value;
      var w := WriteInto(h, v1.dir[s], v1.disk, buf, done);
      Some(v1.(disk := w.2, dir := v1.dir[s := w.1], handles := v1.handles[f := w.0]))
  }

  /** fs_write's loop from `done` bytes on; the volume at the end (or where
      growth failed) and the return value. */
  function WriteLoop(v: Volume, f: nat, buf: seq<byte>, done: nat): (r: (Volume, int))
    requires VolumeOk(v) && BitmapFits(v) && Active(v, f) && done <= |buf| < U32
    ensures VolumeOk(r.0) && r.0.mounted == v.mounted
    decreases |buf| - done
  {
    if done >= |buf| then (v, Signed32(done))
    else
      var n := ChunkLen(v.handles[f].position % FS_BLOCK_SIZE, |buf| - done);
      match WriteChunk(v, f, buf, done)
      case None => (v, -1)
      case Some(v1) => WriteLoop(v1, f, buf, done + n)
  }

  /** WriteLoop takes one chunk at a time, and stops where growth fails. */
  lemma WriteLoopStep(v: Volume, f: nat, buf: seq<byte>, done: nat)
    requires VolumeOk(v) && BitmapFits(v) && Active(v, f) && done < |buf| < U32
    ensures var r := WriteChunk(v, f, buf, done);
      var n := ChunkLen(v.handles[f].position % FS_BLOCK_SIZE, |buf| - done);
      WriteLoop(v, f, buf, done) == if r.None? then (v, -1) else WriteLoop(r.value, f, buf, done + n)
  {
    var n := ChunkLen(v.handles[f].position % FS_BLOCK_SIZE, |buf| - done);
    match WriteChunk(v, f, buf, done)
    case None =>
    case Some(v1) =>
      assert WriteLoop(v, f, buf, done) == WriteLoop(v1, f, buf, done + n);
  }

  /** What fs_write needs of a volume before it writes through a handle:
      a bitmap that total_blocks fits. */
  predicate WriteReady(v: Volume, f: Option<nat>)
    requires VolumeOk(v) && HandleRef(f)
  {
    (f.Some? && v.handles[f.value].inUse && v.handles[f.value].mode == 'w' && v.handles[f.value].dirent.Some?)
      ==> BitmapFits(v)
  }

  /** fs_write: the volume after and the return value. On a handle without
      an entry, 0 for an empty buffer (the loop never runs) and -1 for any
      other. */
  function Write(v: Volume, f: Option<nat>, buf: seq<byte>): (r: (Volume, int))
    requires VolumeOk(v) && HandleRef(f) && WriteReady(v, f) && |buf| < U32
    ensures VolumeOk(r.0) && r.0.mounted == v.mounted
  {
    if f.None? || !v.handles[f.value].inUse || v.handles[f.value].mode != 'w' then (v, -1)
    else if v.handles[f.value].dirent.None? then (v, if |buf| == 0 then 0 else -1)
    else WriteLoop(v, f.value, buf, 0)
  }

  // ---------------------------------------------------------------------
  // fs_list, fs_create, fs_delete
  // ---------------------------------------------------------------------

  /** fs_list: -1 when unmounted, else the number of FILE entries; the path
      argument plays no part. */
  function List(v: Volume, path: seq<byte>): (r: int)
    requires VolumeOk(v)
  {
    if !v.mounted then -1 else CountFiles(v.dir, FS_MAX_FILES)
  }

  /** fs_create: refused when not mounted, when the name exists or when no
      slot is EMPTY; otherwise the entry is made in the first EMPTY slot. */
  function Create(v: Volume, path: seq<byte>, t: byte): (r: (Volume, int))
    requires VolumeOk(v) && PathOk(path)
    ensures VolumeOk(r.0) && r.0.disk.Keys == v.disk.Keys
    ensures r.0.sb == v.sb && r.0.bitmap == v.bitmap && r.0.handles == v.handles
    ensures r.0.mounted == v.mounted
  {
    if !v.mounted then (v, -1)
    else if FindEntry(v.dir, path, 0).Some? then (v, -1)
    else match FindFree(v.dir, 0)
      case None => (v, -1)
      case Some(s) => (CreateIn(v, s, path, t), 0)
  }

  /** fs_create once slot s is chosen: both directory blocks are written
      whether or not the first write succeeds, and their results are
      ignored. */
  function CreateIn(v: Volume, s: nat, path: seq<byte>, t: byte): (r: Volume)
    requires VolumeOk(v) && s < FS_MAX_FILES && PathOk(path)
    ensures VolumeOk(r) && r.disk.Keys == v.disk.Keys
    ensures r.sb == v.sb && r.bitmap == v.bitmap && r.handles == v.handles
    ensures r.mounted == v.mounted && r.dir == v.dir[s := NewEntry(v.dir[s], path, t)]
  {
    StoreDirBlocks(Install(v, s, NewEntry(v.dir[s], path, t)))
  }

  /** Both directory blocks written, the second whether or not the first
      write succeeded. */
  function StoreDirBlocks(v: Volume): (r: Volume)
    requires VolumeOk(v)
    ensures VolumeOk(r) && r.disk.Keys == v.disk.Keys && r == v.(disk := r.disk)
  {
    var d1 := StoreBlock(v.disk, v.sb.rootDirBlock, DirBlockLow(v.dir)).0;
    v.(disk := StoreBlock(d1, Wrap32(v.sb.rootDirBlock + 1), DirBlockHigh(v.dir)).0)
  }

  /** fs_delete: refused when not mounted or when the name is not found. */
  function Delete(v: Volume, path: seq<byte>): (r: (Volume, int))
    requires VolumeOk(v) && PathOk(path) && BitmapFits(v)
    ensures VolumeOk(r.0) && r.0.disk.Keys == v.disk.Keys
    ensures r.0.handles == v.handles && r.0.mounted == v.mounted
  {
    if !v.mounted then (v, -1)
    else match FindEntry(v.dir, path, 0)
      case None => (v, -1)
      case Some(s) => (DeleteIn(v, s), 0)
  }

  /** fs_delete on slot s: release the blocks, empty the slot, flush (its
      result ignored). */
  function DeleteIn(v: Volume, s: nat): (r: Volume)
    requires VolumeOk(v) && BitmapFits(v) && s < FS_MAX_FILES
    ensures VolumeOk(r) && r.disk.Keys == v.disk.Keys
    ensures r.handles == v.handles && r.mounted == v.mounted
  {
    var v1 := Release(v, s);
    var v2 := v1.(dir := v1.dir[s := EmptiedEntry(v1.dir[s])]);
    v2.(disk := Flush(v2).0)
  }
}

/** The SFS on-disk and in-memory layouts of kernel/fs.h: the constants, the
    packed superblock and directory entry with their byte encodings, and the
    file handle record. */
module FsLayout {
  import opened Word

  const FS_MAGIC: nat := 0x53465330
  const FS_BLOCK_SIZE: nat := 512
  const FS_MAX_FILES: nat := 128
  const FS_MAX_FILENAME: nat := 32
  const FS_MAX_FILESIZE: nat := 1024 * 1024
  const FS_TYPE_EMPTY: byte := 0
  const FS_TYPE_FILE: byte := 1
  const FS_TYPE_DIR: byte := 2

  /** Width of the reserved tails of the two packed structs. */
  const SB_RESERVED: nat := 492
  const DIRENT_RESERVED: nat := 19

  /** sizeof of the packed structs: six 4-byte words plus padding, and
      name + type + three 4-byte words + padding. */
  const SUPERBLOCK_SIZE: nat := 6 * 4 + SB_RESERVED
  const DIRENT_SIZE: nat := FS_MAX_FILENAME + 1 + 4 + 4 + 4 + DIRENT_RESERVED

  /** Byte offset of each directory-entry field inside its 64-byte record. */
  const OFF_TYPE: nat := FS_MAX_FILENAME
  const OFF_SIZE: nat := OFF_TYPE + 1
  const OFF_FIRST: nat := OFF_SIZE + 4
  const OFF_BLOCKS: nat := OFF_FIRST + 4
  const OFF_RESERVED: nat := OFF_BLOCKS + 4

  /** Directory entries that one block holds. */
  const ENTRIES_PER_BLOCK: nat := FS_BLOCK_SIZE / DIRENT_SIZE

  /** fs_superblock_t. The 492 reserved bytes are kept so that the 516-byte
      struct can be written and read as a 512-byte block exactly as the C code
      does. */
  datatype Superblock = Superblock(
    magic: nat, blockSize: nat, totalBlocks: nat, freeBlocks: nat,
    rootDirBlock: nat, bitmapBlock: nat, reserved: seq<byte>)

  predicate SuperblockOk(sb: Superblock) {
    && IsU32(sb.magic) && IsU32(sb.blockSize) && IsU32(sb.totalBlocks)
    && IsU32(sb.freeBlocks) && IsU32(sb.rootDirBlock) && IsU32(sb.bitmapBlock)
    && |sb.reserved| == SB_RESERVED
  }

  /** fs_dirent_t, byte for byte: the 32-byte name field is raw storage (a
      C string with whatever follows its terminator), as are the 19 reserved
      bytes. */
  datatype DirEntry = DirEntry(
    name: seq<byte>, etype: byte, size: nat, firstBlock: nat, blocks: nat,
    reserved: seq<byte>)

  predicate DirEntryOk(e: DirEntry) {
    && |e.name| == FS_MAX_FILENAME && |e.reserved| == DIRENT_RESERVED
    && IsU32(e.size) && IsU32(e.firstBlock) && IsU32(e.blocks)
  }

  /** fs_file_t. `dirent` stands for the pointer into root_dir (None is NULL);
      `bufferBlock` is the disk block the buffer mirrors, NO_BLOCK when none. */
  datatype Handle = Handle(
    inUse: bool, mode: char, position: nat, dirent: Option<nat>,
    buffer: seq<byte>, bufferBlock: nat)

  const NO_BLOCK: nat := 0xFFFF_FFFF

  /** A handle caches exactly one block: a 512-byte buffer and the index of
      the block it mirrors. */
  predicate HandleOk(h: Handle) {
    && |h.buffer| == FS_BLOCK_SIZE && IsU32(h.position) && IsU32(h.bufferBlock)
    && (h.dirent.Some? ==> h.dirent.value < FS_MAX_FILES)
  }

  /** The packed superblock in memory order: 516 bytes, four more than a
      block, so only its first 512 bytes ever reach the disk. */
  function EncodeSuperblock(sb: Superblock): (r: seq<byte>)
    requires SuperblockOk(sb)
    ensures |r| == SUPERBLOCK_SIZE == FS_BLOCK_SIZE + 4
    ensures r[..4] == LE32(sb.magic) && r[24..] == sb.reserved
  {
    LE32(sb.magic) + LE32(sb.blockSize) + LE32(sb.totalBlocks) + LE32(sb.freeBlocks)
      + LE32(sb.rootDirBlock) + LE32(sb.bitmapBlock) + sb.reserved
  }

  /** The superblock that 516 bytes of memory hold. */
  function DecodeSuperblock(m: seq<byte>): (sb: Superblock)
    requires |m| == SUPERBLOCK_SIZE
    ensures SuperblockOk(sb) && sb.reserved == m[24..]
    ensures sb.magic == FromLE32(m[..4])
  {
    Superblock(FromLE32(m[0..4]), FromLE32(m[4..8]), FromLE32(m[8..12]),
      FromLE32(m[12..16]), FromLE32(m[16..20]), FromLE32(m[20..24]), m[24..])
  }

  lemma SuperblockRoundTrip(sb: Superblock)
    requires SuperblockOk(sb)
    ensures DecodeSuperblock(EncodeSuperblock(sb)) == sb
  {
    var m := EncodeSuperblock(sb);
    assert m[0..4] == LE32(sb.magic);
    assert m[4..8] == LE32(sb.blockSize);
    assert m[8..12] == LE32(sb.totalBlocks);
    assert m[12..16] == LE32(sb.freeBlocks);
    assert m[16..20] == LE32(sb.rootDirBlock);
    assert m[20..24] == LE32(sb.bitmapBlock);
    LE32RoundTrip(sb.magic);
    LE32RoundTrip(sb.blockSize);
    LE32RoundTrip(sb.totalBlocks);
    LE32RoundTrip(sb.freeBlocks);
    LE32RoundTrip(sb.rootDirBlock);
    LE32RoundTrip(sb.bitmapBlock);
  }

  /** A 64-byte record in memory order. */
  function EncodeEntry(e: DirEntry): (r: seq<byte>)
    requires DirEntryOk(e)
    ensures |r| == DIRENT_SIZE == 64
    ensures r[..OFF_TYPE] == e.name && r[OFF_TYPE] == e.etype
    ensures r[OFF_RESERVED..] == e.reserved
  {
    e.name + [e.etype] + LE32(e.size) + LE32(e.firstBlock) + LE32(e.blocks) + e.reserved
  }

  /** The directory entry that a 64-byte record holds. */
  function DecodeEntry(r: seq<byte>): (e: DirEntry)
    requires |r| == DIRENT_SIZE
    ensures DirEntryOk(e)
    ensures e.name == r[..OFF_TYPE] && e.etype == r[OFF_TYPE]
    ensures e.reserved == r[OFF_RESERVED..]
  {
    DirEntry(r[..OFF_TYPE], r[OFF_TYPE], FromLE32(r[OFF_SIZE..OFF_FIRST]),
      FromLE32(r[OFF_FIRST..OFF_BLOCKS]), FromLE32(r[OFF_BLOCKS..OFF_RESERVED]),
      r[OFF_RESERVED..])
  }

  lemma EntryRoundTrip(e: DirEntry)
    requires DirEntryOk(e)
    ensures DecodeEntry(EncodeEntry(e)) == e
  {
    var r := EncodeEntry(e);
    assert r[OFF_SIZE..OFF_FIRST] == LE32(e.size);
    assert r[OFF_FIRST..OFF_BLOCKS] == LE32(e.firstBlock);
    assert r[OFF_BLOCKS..OFF_RESERVED] == LE32(e.blocks);
    LE32RoundTrip(e.size);
    LE32RoundTrip(e.firstBlock);
    LE32RoundTrip(e.blocks);
  }

  lemma RecordRoundTrip(r: seq<byte>)
    requires |r| == DIRENT_SIZE
    ensures EncodeEntry(DecodeEntry(r)) == r
  {
    FromLE32RoundTrip(r[33..37]);
    FromLE32RoundTrip(r[37..41]);
    FromLE32RoundTrip(r[41..45]);
    SplitRecord(r);
  }

  lemma SplitRecord(r: seq<byte>)
    requires |r| == 64
    ensures r == r[..32] + [r[32]] + r[33..37] + r[37..41] + r[41..45] + r[45..]
  {
    assert r[..33] == r[..32] + [r[32]];
    assert r[..37] == r[..33] + r[33..37];
    assert r[..41] == r[..37] + r[37..41];
    assert r[..45] == r[..41] + r[41..45];
    assert r == r[..45] + r[45..];
  }

  /** Consecutive entries serialised back to back, as a memcpy of a slice of
      root_dir. */
  function EncodeEntries(es: seq<DirEntry>): (r: seq<byte>)
    requires forall i :: 0 <= i < |es| ==> DirEntryOk(es[i])
    ensures |r| == DIRENT_SIZE * |es|
  {
    if es == [] then [] else EncodeEntry(es[0]) + EncodeEntries(es[1..])
  }

  /** The entries that a run of whole records holds. */
  function DecodeEntries(m: seq<byte>): (es: seq<DirEntry>)
    requires |m| % DIRENT_SIZE == 0
    ensures |es| == |m| / DIRENT_SIZE
    ensures forall i :: 0 <= i < |es| ==> DirEntryOk(es[i])
    decreases |m|
  {
    if m == [] then [] else [DecodeEntry(m[..DIRENT_SIZE])] + DecodeEntries(m[DIRENT_SIZE..])
  }

  lemma {:induction false} EntriesRoundTrip(es: seq<DirEntry>)
    requires forall i :: 0 <= i < |es| ==> DirEntryOk(es[i])
    ensures DecodeEntries(EncodeEntries(es)) == es
  {
    if es != [] {
      var m := EncodeEntries(es);
      assert m[..DIRENT_SIZE] == EncodeEntry(es[0]);
      assert m[DIRENT_SIZE..] == EncodeEntries(es[1..]);
      EntryRoundTrip(es[0]);
      EntriesRoundTrip(es[1..]);
    }
  }

  lemma {:induction false} RecordsRoundTrip(m: seq<byte>)
    requires |m| % DIRENT_SIZE == 0
    ensures EncodeEntries(DecodeEntries(m)) == m
    decreases |m|
  {
    if m != [] {
      RecordRoundTrip(m[..DIRENT_SIZE]);
      RecordsRoundTrip(m[DIRENT_SIZE..]);
      assert m == m[..DIRENT_SIZE] + m[DIRENT_SIZE..];
    }
  }

  /** One block holds exactly eight whole directory entries, so one block
      write persists eight consecutive slots of root_dir. */
  lemma EightEntriesPerBlock()
    ensures ENTRIES_PER_BLOCK == 8 && ENTRIES_PER_BLOCK * DIRENT_SIZE == FS_BLOCK_SIZE
  {
  }

  /** The big-endian value of a four-character ASCII tag. */
  function Tag(s: string): (v: nat)
    requires |s| == 4 && forall i :: 0 <= i < 4 ==> s[i] as int < 256
    ensures v < U32
  {
    ((s[0] as int * 256 + s[1] as int) * 256 + s[2] as int) * 256 + s[3] as int
  }

  /** FS_MAGIC spells "SFS0"; stored little-endian, block 0 starts with the
      ASCII bytes of "0SFS". */
  lemma MagicSpellsSFS0()
    ensures FS_MAGIC == Tag("SFS0")
    ensures LE32(FS_MAGIC) == [0x30, 0x53, 0x46, 0x53]
  {
    var b: seq<byte> := [0x30, 0x53, 0x46, 0x53];
    assert FromLE32(b) == FS_MAGIC;
    FromLE32RoundTrip(b);
  }

  /** The three entry type tags are pairwise distinct. */
  lemma TypeTagsDistinct()
    ensures FS_TYPE_EMPTY != FS_TYPE_FILE && FS_TYPE_FILE != FS_TYPE_DIR
    ensures FS_TYPE_EMPTY != FS_TYPE_DIR
  {
  }
}

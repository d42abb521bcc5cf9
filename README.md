# SUB OS kernel core in Dafny

A model of the core of the SUB OS kernel (i386, the x86 build), with proofs
of what its C code promises. Each kernel source file is modelled in the form
it is written in.

- **Code that updates statics and memory in place** becomes a Dafny class.
  Its fields are the statics; arrays and maps stand for the buffers and the
  heap memory the code writes. Its methods run the same loops and are proved
  to leave exactly the state a pure function of the old state describes.
- **The properties** are lemmas about those functions.

## Modules

- **`word.dfy`**: C's `unsigned int` wrap-around, signed reinterpretation,
  little-endian fields and NUL-terminated strings.
- **SFS, the on-disk file system of `kernel/fs.c` and `kernel/fs.h`:**
  - `fs_layout.dfy`: the packed superblock and directory entry as bytes;
  - `fs_bitmap.dfy`: the block bitmap;
  - `fs_spec.dfy`: every fs routine as a function on the whole volume;
  - `fs.dfy`: the routines in place on the statics;
  - `fs_alloc_props.dfy`, `fs_dir_props.dfy`, `fs_mount_props.dfy` and
    `fs_io_props.dfy`: format, mount, allocation and release, create and
    delete, and the write-close-read round trip.
- **The physical page allocator of `kernel/pmm.c`:** `pmm_spec.dfy`,
  `pmm_props.dfy` and `pmm.dfy`. The used-page counter is proved to track the
  bitmap under every operation.
- **The first-fit kernel heap of `kernel/heap.c`:** `heap_spec.dfy`,
  `heap_props.dfy` and `heap.dfy`.
  - The blocks tile the heap.
  - `kfree` undoes `kmalloc`.
  - `heap_get_stats` accounts for every byte.
- **The keyboard ring buffer and scancode table of `kernel/keyboard.c`:**
  `keyboard.dfy`.
- **Processes and the round-robin ready queue of `kernel/process.c` and
  `kernel/scheduler.c`:** `task_spec.dfy`, `task_props.dfy` and `tasks.dfy`.
  The PCB links are proved to chain exactly the queue.
- **Two-level paging of `kernel/paging.c`:** `paging_spec.dfy`,
  `paging_props.dfy` and `paging.dfy`.
  - Entries follow the hardware layout of table 4-6 in section 4.3 of the
    Intel 64 and IA-32 Architectures Software Developer's Manual, Volume 3A.
  - Translation is the MMU's view of the tables.
  - Fault codes follow section 4.7 of the same manual.
- **The system-call table and handlers of `kernel/syscall.c`:**
  `syscall.dfy`.
- **The command shell of `kernel/shell.c`:** `shell.dfy`.
- **The E820 memory census of `kernel/memory.c`:** `memory.dfy`.
- **The tick counter and PIT set-up of `kernel/timer.c`:** `timer.dfy`.
- **The PS/2 mouse packet handler of `kernel/mouse.c`:** `mouse.dfy`.
- **The VGA text console of `kernel/kernel.c`:** `console.dfy`.
  - `print_char`, `clear_screen`, `print_string` with its scroll;
  - `print_hex`.
- **The mode 13h back buffer of `kernel/graphics.c`:** `graphics.dfy`.
  - Pixels, rectangles, scrolling and text advance;
  - Bresenham lines, each plotted pixel within half a pixel of the ideal segment;
  - the mouse pointer's saved background.

## Conventions

- **Values from the outside world are parameters.** This covers:
  - the addresses `kmalloc` and `pmm_alloc_page` return, where those calls
    lie outside the module being modelled;
  - scancodes, mouse status and data bytes;
  - the E820 entries and the typed keys.
- **Waiting** is modelled as the awaited events arriving.
- **The disk** is a map from block index to 512 bytes. A block outside the
  map is one the drive refuses.
- **Bytes** are `bv8`.
- **32-bit arithmetic** is written out with `Wrap32` wherever the C code can
  wrap.

Where the code's own messages and its behaviour differ, the model follows
the behaviour. Example: `paging_init` prints "Identity mapped: 0x00000000 -
0x00400000" (kernel/paging.c:91), but its loop does not map each page to
itself (see Findings).

## Model

| member | source | states |
|---|---|---|
| Word.Wrap32 | kernel/timer.c:22 | the value an `unsigned int` holds after an assignment: below 2^32, unchanged when it fits, shifted by 2^32 one step above or below |
| Word.Signed32 | kernel/syscall.c:85-92 | an `unsigned int` read as a two's-complement `int` lies in [-2^31, 2^31), equals the value below 2^31 and wraps back to the same bits |
| Word.SignedByte | kernel/mouse.c:56-57 | a byte read through a signed `char` lies in [-128, 128), equals the byte below 128, and agrees with it modulo 256 |
| Word.LE32 | kernel/fs.h:16-22 | an `unsigned int` field takes four bytes |
| Word.FromLE32 | kernel/fs.h:16-22 | four bytes read as an `unsigned int` give a 32-bit value |
| Word.LE32RoundTrip | kernel/fs.h:16-22 | decoding the four little-endian bytes of an `unsigned int` field gives the value back |
| Word.FromLE32RoundTrip | kernel/fs.h:16-22 | any four bytes are the little-endian encoding of the word they decode to |
| Word.Text | kernel/shell.c:31-35 | the text of a C string ends at its first NUL: a prefix of the memory, followed by a NUL, with no NUL inside |
| Word.TextAt | kernel/shell.c:30-34 | a NUL at index i with none before it makes the text exactly the first i characters |
| Word.TextOfLiteral | kernel/kernel.c:49 | a literal stored with its terminator reads back as the literal |
| FsLayout.EncodeSuperblock | kernel/fs.h:16-24 | the packed superblock is 516 bytes, four more than a block; it starts with the little-endian magic and ends with the 492 reserved bytes |
| FsLayout.DecodeSuperblock | kernel/fs.h:16-24 | 516 bytes of memory read as a superblock: magic from the first four bytes, reserved from byte 24 on |
| FsLayout.SuperblockRoundTrip | kernel/fs.h:16-24 | decoding an encoded superblock gives it back |
| FsLayout.EncodeEntry | kernel/fs.h:26-33 | a directory entry packs into 32+1+4+4+4+19 = 64 bytes: name first, the type at byte 32, reserved at the end |
| FsLayout.DecodeEntry | kernel/fs.h:26-33 | a 64-byte record read as an entry keeps the raw name, type and reserved bytes |
| FsLayout.EntryRoundTrip | kernel/fs.h:26-33 | decoding an encoded entry gives it back |
| FsLayout.RecordRoundTrip | kernel/fs.h:26-33 | every 64-byte record is the encoding of the entry it decodes to |
| FsLayout.EncodeEntries | kernel/fs.c:28-29 | a slice of root_dir in memory is 64 bytes per entry, back to back |
| FsLayout.DecodeEntries | kernel/fs.c:28-29 | a run of whole records reads as one entry per 64 bytes |
| FsLayout.EntriesRoundTrip | kernel/fs.c:28-29 | decoding a serialised slice of entries gives the slice back |
| FsLayout.RecordsRoundTrip | kernel/fs.c:28-29 | every run of whole records is the serialisation of the entries it decodes to |
| FsLayout.EightEntriesPerBlock | kernel/fs.h:8-33 | one 512-byte block holds exactly eight 64-byte entries |
| FsLayout.Tag | kernel/fs.h:7 | the big-endian value of a four-character ASCII tag fits in 32 bits |
| FsLayout.MagicSpellsSFS0 | kernel/fs.h:7 | FS_MAGIC is the ASCII tag "SFS0"; stored little-endian, block 0 begins with the bytes of "0SFS" |
| FsLayout.TypeTagsDistinct | kernel/fs.h:12-14 | the EMPTY, FILE and DIR tags are pairwise distinct |
| FsBitmap.Set | kernel/fs.c:21 | setting block b's bit sets it and leaves every other block's bit as it was |
| FsBitmap.Clear | kernel/fs.c:22 | clearing block b's bit clears it and leaves every other block's bit as it was |
| FsBitmap.OrBit | kernel/fs.c:21 | OR-ing in 1 << k sets bit k and keeps the others |
| FsBitmap.AndNotBit | kernel/fs.c:22 | AND-ing with ~(1 << k) clears bit k and keeps the others |
| FsBitmap.Count | kernel/fs.c:21-23 | the number of set bits below n is at most n |
| FsBitmap.CountSet | kernel/fs.c:37-52 | setting a clear bit below n adds exactly one to the count below n, which is what the free_blocks decrement mirrors |
| FsBitmap.CountClear | kernel/fs.c:60-62 | clearing a set bit below n takes exactly one from the count below n, mirrored by the free_blocks increment |
| FsBitmap.CountBelowWithClear | kernel/fs.c:35-36 | a clear bit below n keeps the count strictly below n |
| FsBitmap.CountPositiveWithSet | kernel/fs.c:60 | a set bit below n makes the count positive |
| FsBitmap.FirstClear | kernel/fs.c:35-43 | the first-fit scan finds the lowest clear block in [from, total), with every block before it set; none means all are set |
| FsBitmap.FirstClearIs | kernel/fs.c:35-43 | a clear block preceded only by set blocks from `from` on is the one the scan finds |
| FsBitmap.Zeroes | kernel/fs.c:71 | the cleared bitmap has no bit set |
| FsBitmap.SetFirst | kernel/fs.c:71 | setting blocks 0..k-1 in turn sets exactly those bits on top of the old ones |
| FsBitmap.Formatted | kernel/fs.c:71 | the bitmap after format has exactly blocks 0 to 3 set |
| FsBitmap.CountPrefix | kernel/fs.c:71 | a bitmap whose set bits below n are exactly those below k counts k |
| FsSpec.LoadBlock | kernel/fs.c:18 | a block read fills the buffer with the block when the drive has it, and leaves the buffer as it was when the drive refuses |
| FsSpec.StoreBlock | kernel/fs.c:19 | a block write reports success exactly when the drive has the block, puts the data there, and changes no other block |
| FsSpec.SuperblockBlock | kernel/fs.c:26 | the superblock write sends one block: the first 512 of its 516 bytes |
| FsSpec.DirBlockLow | kernel/fs.c:28 | the first directory write sends one block, the bytes of entries 0 to 7 |
| FsSpec.DirBlockHigh | kernel/fs.c:29 | the second directory write sends one block, the bytes of entries 64 to 71 |
| FsSpec.Flush | kernel/fs.c:25-31 | the metadata flush only overwrites blocks the drive already has |
| FsSpec.Allocate | kernel/fs.c:33-54 | allocating a block for an entry keeps the handles, the disk and the mounted flag, and keeps the volume well formed |
| FsSpec.Release | kernel/fs.c:56-68 | releasing an entry's blocks keeps the handles, the disk and the mounted flag, and keeps the volume well formed |
| FsSpec.FindEntry | kernel/fs.c:73 | the lookup returns the first non-EMPTY slot whose name compares equal, with no match before it; none means no slot matches |
| FsSpec.FindFree | kernel/fs.c:74 | the free-slot search returns the first EMPTY slot, with none before it; none means no slot is EMPTY |
| FsSpec.CopyName | kernel/fs.c:16 | strcpy overwrites the entry's bytes from the name on with the path and its NUL, whatever fields they reach, and keeps the bytes after them |
| FsSpec.NewEntry | kernel/fs.c:75-80 | a freshly made entry is a well-formed 64-byte record |
| FsSpec.EmptiedEntry | kernel/fs.c:71-81 | an emptied entry is a well-formed 64-byte record |
| FsSpec.CountFiles | kernel/fs.c:79 | the number of FILE entries among the first n slots is at most n |
| FsSpec.List | kernel/fs.c:79 | fs_list ignores its path and counts FILE slots; what it returns is FsDirProps.ListCountsFiles |
| FsSpec.Boot | kernel/fs.c:9-13 | the zero-filled statics are unmounted and sit over the given disk |
| FsSpec.Init | kernel/fs.c:70 | fs_init leaves a well-formed volume |
| FsSpec.FormattedSuperblock | kernel/fs.c:71 | the formatted superblock is well formed |
| FsSpec.FormattedDir | kernel/fs.c:71 | the formatted directory is 128 well-formed entries |
| FsSpec.Format | kernel/fs.c:71 | format returns 0 or -1; it sets the formatted superblock and bitmap and keeps the handles and the mounted flag; on success the whole directory is reset |
| FsSpec.FormatDir | kernel/fs.c:71 | the part of format after the superblock write resets the directory and keeps superblock and bitmap |
| FsSpec.StoreRootDir | kernel/fs.c:71 | the directory writes at the end of format change only the disk, and return 0 or -1 |
| FsSpec.LoadSuperblock | kernel/fs.c:72 | reading block 0 over the 516-byte superblock replaces its first 512 bytes and keeps the last four |
| FsSpec.SuperblockBytesRoundTrip | kernel/fs.h:16-24 | every 516 bytes are the encoding of the superblock they decode to |
| FsSpec.LoadDirBlock | kernel/fs.c:72 | reading a directory block replaces exactly eight slots, k to k+7, with the entries the block holds |
| FsSpec.Mount | kernel/fs.c:72 | mount keeps the handles and the set of disk blocks |
| FsSpec.MountStages | kernel/fs.c:72 | once block 0 is read, mount is the magic check followed by the metadata reads |
| FsSpec.CheckMagic | kernel/fs.c:72 | the magic check keeps the handles, the disk's blocks and the mounted flag, and returns 0 or -1 |
| FsSpec.LoadMetadata | kernel/fs.c:72 | the metadata reads keep the superblock and the disk, and set mounted exactly when they all succeed |
| FsSpec.LoadRootDir | kernel/fs.c:72 | the directory reads keep superblock and bitmap, and set mounted exactly when they succeed |
| FsSpec.LoadRootDirHigh | kernel/fs.c:72 | the last directory read sets mounted exactly when it succeeds |
| FsSpec.LoadOk | kernel/fs.c:18 | a read reports success exactly when the drive has the block, and then returns that block |
| FsSpec.FreeHandle | kernel/fs.c:75 | the handle search returns the first handle not in use, with all before it in use; none means all 16 are in use |
| FsSpec.Opened | kernel/fs.c:75 | an opened handle is a well-formed record |
| FsSpec.Open | kernel/fs.c:75 | open changes neither superblock, bitmap, disk nor the mounted flag, and returns one of the 16 handles or none |
| FsSpec.OpenIn | kernel/fs.c:75 | open with a handle picked returns that handle or none, and changes only the directory and handles |
| FsSpec.OpenNew | kernel/fs.c:75 | opening a missing name for writing returns the picked handle or none, and changes only the directory and handles |
| FsSpec.Install | kernel/fs.c:75-80 | installing an entry replaces one slot and nothing else |
| FsSpec.Attach | kernel/fs.c:75 | attaching handle h opens it with the mode and entry and changes no other handle |
| FsSpec.Close | kernel/fs.c:76 | close keeps superblock, bitmap, directory, mounted flag and the disk's blocks |
| FsSpec.Seek | kernel/fs.c:82 | seek leaves a well-formed volume; its effect, including -1 for a handle without an entry, is FsDirProps.SeekClamps |
| FsSpec.ChunkLen | kernel/fs.c:77-78 | a chunk moves at least one byte, no more than remain, and never crosses the end of the block |
| FsSpec.ReadChunk | kernel/fs.c:77 | one pass of the read loop copies one chunk and keeps the handle's use, mode and entry |
| FsSpec.ReadLoopStep | kernel/fs.c:77 | the read loop takes one chunk at a time |
| FsSpec.ReadCount | kernel/fs.c:77 | the count read moves stays a 32-bit value |
| FsSpec.Read | kernel/fs.c:77 | read leaves a well-formed volume; any in-use handle may be passed, and its effect is FsIoProps.ReadEffect |
| FsSpec.EnsureBlock | kernel/fs.c:78 | making sure the position's block is owned keeps the handles, the disk and the mounted flag |
| FsSpec.SwitchBlock | kernel/fs.c:78 | switching the cached block only overwrites blocks the drive has, and gives a one-block buffer |
| FsSpec.WriteInto | kernel/fs.c:78 | one chunk written into the cache keeps the handle's use, mode and entry and the disk's blocks |
| FsSpec.WriteChunk | kernel/fs.c:78 | one pass of the write loop keeps the handle active and the mounted flag |
| FsSpec.WriteLoop | kernel/fs.c:78 | the write loop keeps the mounted flag |
| FsSpec.WriteLoopStep | kernel/fs.c:78 | the write loop takes one chunk at a time and stops where growth fails |
| FsSpec.Write | kernel/fs.c:78 | write keeps the mounted flag; its effect is FsIoProps.WriteEffect |
| FsSpec.Create | kernel/fs.c:80 | create keeps superblock, bitmap, handles and mounted flag |
| FsSpec.CreateIn | kernel/fs.c:80 | create with slot s chosen changes only slot s, to the new entry, and the disk |
| FsSpec.StoreDirBlocks | kernel/fs.c:80 | the two directory writes change only the disk |
| FsSpec.Delete | kernel/fs.c:81 | delete keeps the handles and the mounted flag |
| FsSpec.DeleteIn | kernel/fs.c:81 | delete on a found slot keeps the handles and the mounted flag |
| FsSpec.ReleaseRange | kernel/fs.c:56-68 | the freeing loop keeps the bitmap's size and the free count a 32-bit value |
| FsSpec.ReadLoop | kernel/fs.c:77 | the read loop keeps the handle well formed |
| FsAllocProps.AllocateFirstFit | kernel/fs.c:34-45 | a first allocation claims the lowest clear block in [4, total_blocks), makes it the entry's only block and takes one from free_blocks; it fails, changing nothing, exactly when every block there is set |
| FsAllocProps.AllocateGrowth | kernel/fs.c:47-53 | growth claims only block first_block + blocks and fails, changing nothing, when that block is past the end or set, however many other blocks are free |
| FsAllocProps.AllocateKeepsCount | kernel/fs.c:21-52 | allocation keeps free_blocks equal to the number of clear bits below total_blocks, taking exactly one from it without wrapping |
| FsAllocProps.ReleaseRangeEffect | kernel/fs.c:58-64 | the release loop clears exactly the set bits of the span that lie below total_blocks and counts each into free_blocks |
| FsAllocProps.ReleaseEffect | kernel/fs.c:56-68 | release clears each set bit of the entry's span below total_blocks, adds one to free_blocks per cleared bit, keeps the free count consistent, and zeroes blocks, first_block and size; an entry without blocks is left as it is |
| FsAllocProps.FormatGeometry | kernel/fs.c:71 | format sets total_blocks 1024, bitmap block 1, directory block 2, bits 0 to 3 and no other, and free_blocks 1020, consistent with the bitmap |
| FsAllocProps.FormatDirectory | kernel/fs.c:71 | format returns 0 exactly when all four metadata blocks can be written, and then every entry is EMPTY with an empty name, size 0 and no blocks |
| FsDirProps.RecordPrefixIsName | kernel/fs.h:26-27 | the first bytes of a record, up to 32, are the name's |
| FsDirProps.ShortNameFits | kernel/fs.c:80 | a name of at most 31 bytes fits the 32-byte field with its NUL, and the entry then compares equal to it (see also line 16) |
| FsDirProps.LongNameLost | kernel/fs.c:75-80 | a name of 32 bytes or more runs into the type and size fields, which are then written over, so the entry no longer compares equal to the name except for a 33-byte name whose last byte is the type (see also line 16) |
| FsDirProps.LongNameBytes | kernel/fs.c:75-80 | an entry made from a long name holds its first 32 bytes, then the type, then the low byte of size 0 (see also line 16) |
| FsDirProps.CreateEffect | kernel/fs.c:73-80 | create fails, changing nothing, exactly when unmounted, when a non-EMPTY entry has the name, or when no slot is EMPTY; otherwise only the first EMPTY slot changes, to the new entry |
| FsDirProps.CreateRefused | kernel/fs.c:80 | a refused create returns -1 and leaves the volume as it was |
| FsDirProps.CreateInSlot | kernel/fs.c:80 | an accepted create returns 0, writes the new entry to the first EMPTY slot and no other |
| FsDirProps.CreateThenFind | kernel/fs.c:73-80 | a file created under a name of at most 31 bytes is then found under that name, in the slot it was created in |
| FsDirProps.DeleteEffect | kernel/fs.c:56-81 | delete fails, changing nothing, when unmounted or when the name is not found; otherwise it releases the blocks, keeps the free count consistent and leaves the slot EMPTY with an empty name and no blocks |
| FsDirProps.CountFilesIsCard | kernel/fs.c:79 | the counting loop's result is the number of FILE slots |
| FsDirProps.ListCountsFiles | kernel/fs.c:79 | list returns -1 when unmounted and otherwise the number of FILE slots in the whole table, whatever path it is given |
| FsDirProps.OpenNeedsMountAndHandle | kernel/fs.c:75 | open fails, changing nothing, when unmounted or when all 16 handles are in use |
| FsDirProps.OpenForRead | kernel/fs.c:75 | read mode opens any existing entry, whatever its type, in the first free handle at position 0 with nothing cached, and fails without an entry; the directory is untouched |
| FsDirProps.OpenForWrite | kernel/fs.c:75 | write mode reuses an existing entry without truncating it, or creates a FILE entry in the first EMPTY slot, failing only when there is none |
| FsDirProps.OpenCreates | kernel/fs.c:75 | opening a missing name for writing installs a new FILE entry in the first EMPTY slot and attaches it to the handle |
| FsDirProps.OpenOtherMode | kernel/fs.c:75 | any other mode still hands out a handle, keeps the handle's previous mode, and leaves its entry NULL when the name is not found |
| FsDirProps.SeekClamps | kernel/fs.c:82 | seek sets the position to the offset clamped to the entry's size, and fails on a NULL or released handle |
| FsDirProps.StaleModeNullEntry | kernel/fs.c:75-76 | a handle opened in mode r or w on an existing name, closed, and handed out again for a missing name with another mode is in use, keeps mode r or w, and has a NULL entry |
| FsDirProps.NullEntryRefused | kernel/fs.c:77-82 | on an in-use handle with a NULL entry, read, seek and a non-empty write return -1 and change nothing, where the C code dereferences NULL; an empty write in mode w returns 0 as in C |
| FsMountProps.SuperblockWordsFromPrefix | kernel/fs.h:16-22 | superblocks whose first 24 bytes agree have the same six words |
| FsMountProps.MountEffect | kernel/fs.c:72 | mount sets mounted only when it returns 0, fails with nothing changed when block 0 cannot be read, and installs the superblock from block 0, formatted first when its magic is not FS_MAGIC |
| FsMountProps.CheckMagicEffect | kernel/fs.c:72 | the magic check formats exactly when the magic differs from FS_MAGIC and otherwise changes nothing |
| FsMountProps.LoadMetadataEffect | kernel/fs.c:72 | the reads at the end of mount set mounted only when all three succeed, and memory then holds the bitmap block and the two directory blocks; the other 112 slots are untouched |
| FsMountProps.FlushContents | kernel/fs.c:25-31 | with four distinct metadata blocks on the disk, the flush succeeds, and those blocks then hold the first 512 superblock bytes, the bitmap and entries 0 to 7 and 64 to 71; no other block changes |
| FsMountProps.RemountAfterFlush | kernel/fs.c:25-31 | mounting a disk a flush wrote succeeds without formatting and brings back the superblock words, the bitmap and entries 0 to 7 and 64 to 71; every other slot keeps what memory held, so entries 8 to 63 and 72 to 127 are lost (see also line 72) |
| FsMountProps.FlushedSuperblock | kernel/fs.c:72 | block 0 as the flush wrote it, read over any superblock, gives back the six words (see also line 26) |
| FsMountProps.DirBlocksRoundTrip | kernel/fs.c:72 | slots 0 to 7 and 64 to 71 decoded from the two flushed directory blocks hold the flushed entries (see also lines 28-29) |
| FsIoProps.FileBytes | kernel/fs.c:77 | the file's bytes from a position are n long |
| FsIoProps.FileBytesJoin | kernel/fs.c:77 | the bytes from p, then the bytes from p + m, are the bytes from p |
| FsIoProps.ReadChunkPosition | kernel/fs.c:77 | a chunk of the read loop below 2^32 advances the position by its length |
| FsIoProps.ReadChunkContent | kernel/fs.c:77 | a chunk of the read loop copies the file's bytes at the position, cached or not, and leaves the handle caching that block as the disk has it |
| FsIoProps.ReadLoopPosition | kernel/fs.c:77 | the read loop ends size - done bytes further on when that stays below 2^32 |
| FsIoProps.ReadLoopNext | kernel/fs.c:77 | one pass of the read loop keeps the cache coherent, and the rest of the loop completes the bytes from the position |
| FsIoProps.ReadLoopContent | kernel/fs.c:77 | the read loop appends exactly the file's size - done bytes from the position |
| FsIoProps.ReadEffect | kernel/fs.c:77 | read on a handle open for reading returns min(size, file size - position), hands back exactly the file's bytes from the position, and moves the position past them; nothing but that handle changes; any other handle, one in use with a NULL entry included, gets -1 and changes nothing |
| FsIoProps.EnsureBlockAccounted | kernel/fs.c:78 | after the growth step the position falls inside an owned block, and only the entry's first block and count changed |
| FsIoProps.WriteIntoAccounted | kernel/fs.c:78 | the copy step moves the position by the chunk, raises the size to it, and keeps the entry's blocks |
| FsIoProps.WriteChunkAccounted | kernel/fs.c:78 | one pass of the write loop keeps the size and block accounting, the position advancing by the chunk |
| FsIoProps.WriteLoopNext | kernel/fs.c:78 | one pass of the write loop stops with -1 where growth fails and otherwise goes on with the accounting kept |
| FsIoProps.WriteLoopAccounted | kernel/fs.c:78 | the write loop either fails with -1 or places every byte, returns the whole count and keeps the accounting at the end position |
| FsIoProps.WriteLoopEnd | kernel/fs.c:78 | with every byte placed, the loop returns the count |
| FsIoProps.WriteEffect | kernel/fs.c:78 | write returns -1 with no change unless the handle is open for writing with an entry, except that an empty write on a mode-w handle without one returns 0; otherwise -1 only when a block the write needs cannot be allocated, or the whole count with the position advanced by it, the size raised to max(old size, position), and the entry owning ceil(position / 512) blocks or more; either way free_blocks keeps counting the clear bits, no other handle or entry changes, the entry keeps its name and type, and (with every block of the volume on the drive) the file as the handle sees it keeps its bytes before the start position and reads buf from there to where the write stopped |
| FsIoProps.WriteChunkKeepsCount | kernel/fs.c:78 | one pass of the write loop, allocating a block or not, keeps free_blocks equal to the clear bits of the bitmap |
| FsIoProps.WriteLoopKeepsCount | kernel/fs.c:78 | the whole write loop, whether it finishes or fails, keeps free_blocks equal to the clear bits of the bitmap |
| FsIoProps.SwitchSeen | kernel/fs.c:78 | switching the cached block changes nothing an earlier byte looks like through the handle |
| FsIoProps.CopySeen | kernel/fs.c:78 | copying a chunk into the cached block keeps the earlier bytes and makes the chunk's bytes visible |
| FsIoProps.WriteIntoSeen | kernel/fs.c:78 | after the copy step of a write from position 0, the handle sees the first done + n bytes of the buffer |
| FsIoProps.ChunkSeen | kernel/fs.c:78 | after one copy, byte p through the handle is the chunk's byte inside it and what was seen before outside it |
| FsIoProps.LabelsKept | kernel/fs.c:78 | changing a slot in anything but name and type keeps what the lookup reads |
| FsIoProps.EnsureBlockFilled | kernel/fs.c:78 | growth keeps what the handle sees: a first block is chosen only before anything is written, past the metadata |
| FsIoProps.WriteChunkFilled | kernel/fs.c:78 | one pass of the write loop from position 0 adds the chunk's bytes to what the handle sees |
| FsIoProps.WriteLoopFilledNext | kernel/fs.c:78 | one pass of the write loop from position 0 keeps the handle seeing what was written |
| FsIoProps.WriteLoopFilled | kernel/fs.c:78 | the write loop from position 0 fails with -1 or leaves the handle seeing all of the buffer |
| FsIoProps.FlushOthers | kernel/fs.c:25-31 | the metadata flush changes no block other than block 0, the bitmap block and the two directory blocks |
| FsIoProps.FlushByte | kernel/fs.c:25-31 | a file byte outside those four blocks reads the same after the flush |
| FsIoProps.WriteBackSeen | kernel/fs.c:76 | close's write-back puts on the disk exactly what the handle saw |
| FsIoProps.CloseDisk | kernel/fs.c:76 | close on an open handle is the write-back followed by the flush |
| FsIoProps.CloseByte | kernel/fs.c:76 | after close, the disk holds byte p of the written buffer where the file's byte p belongs |
| FsIoProps.CloseAfterWrite | kernel/fs.c:76 | close after a full write from position 0 leaves the file holding the buffer and releases the handle |
| FsIoProps.CloseContent | kernel/fs.c:76 | after that close, the file's bytes on the disk are the buffer |
| FsIoProps.WriteThenClose | kernel/fs.c:76-78 | a write of the whole buffer on a freshly opened empty file, then close: either -1 because a needed block cannot be allocated, or the count is returned and the closed file holds exactly the buffer, with names and types as before |
| FsIoProps.MatchesByLabel | kernel/fs.c:73 | slots with the same name field and type match a path of at most 31 bytes alike (see also line 15) |
| FsIoProps.FindEntrySame | kernel/fs.c:73 | the lookup answers alike on two tables with the same names and types |
| FsIoProps.ReopenRead | kernel/fs.c:75-77 | reopening a closed file for reading and reading it returns the bytes the disk holds for it, and the count |
| FsIoProps.OpenFresh | kernel/fs.c:75 | opening a name not in the table for writing, when it succeeds, creates the entry and a fresh handle on it |
| FsIoProps.WriteCloseReadBack | kernel/fs.c:75-78 | writing a buffer on a fresh file and closing it leaves a volume on which the file reads back as that buffer, unless the write fails for want of a block |
| FsIoProps.RoundTrip | kernel/fs.c:75-78 | open for writing of a new name, write, close, open for reading and read give back exactly the bytes written, unless the first open fails or the file cannot grow by another block |
| FsIoProps.FindNewName | kernel/fs.c:73-75 | after open created the name in slot s, the lookup finds it there |
| Fs.FileSystem.Abs | kernel/fs.c:9-13 | the statics read as one volume value are well formed whenever the arrays have their declared sizes |
| Fs.FileSystem.constructor | kernel/fs.c:9-13 | the zero-filled statics over a drive are the boot volume |
| Fs.FileSystem.BitmapTest | kernel/fs.c:23 | the byte-and-mask test reports block b's bit |
| Fs.FileSystem.BitmapSet | kernel/fs.c:21 | the in-place OR sets block b's bit and no other |
| Fs.FileSystem.BitmapClear | kernel/fs.c:22 | the in-place AND clears block b's bit and no other |
| Fs.FileSystem.WriteBlock | kernel/fs.c:19 | a block write changes only the disk, as a one-block store, and reports whether the drive took it |
| Fs.FileSystem.FlushMetadata | kernel/fs.c:25-31 | the flush changes only the disk, writing superblock, bitmap and the two directory blocks in order and stopping at the first refused write |
| Fs.FileSystem.ScanFree | kernel/fs.c:35-43 | the scan loop finds the lowest clear block from 4 below total_blocks |
| Fs.FileSystem.AllocateBlock | kernel/fs.c:33-54 | in place, allocation returns 0 with the allocated volume or -1 with nothing changed, as FsSpec.Allocate |
| Fs.FileSystem.ReleaseBlock | kernel/fs.c:59-63 | one pass of the release loop clears a set bit below total_blocks and counts it into free_blocks, changing nothing else |
| Fs.FileSystem.ReleaseNext | kernel/fs.c:58-64 | pass i of the release loop leaves the rest of the loop the same outcome as before it |
| Fs.FileSystem.ReleaseSpan | kernel/fs.c:58-64 | the release loop over the span leaves the bitmap and free count of ReleaseRange |
| Fs.FileSystem.FreeBlocks | kernel/fs.c:56-68 | in place, release leaves exactly the volume of FsSpec.Release |
| Fs.FileSystem.Init | kernel/fs.c:70 | init clears every handle's in_use and returns 0 |
| Fs.FileSystem.ZeroBitmap | kernel/fs.c:71 | the zeroing loop leaves an all-zero bitmap |
| Fs.FileSystem.MarkReserved | kernel/fs.c:71 | the marking loop sets blocks 0 to 3 on top of the bitmap |
| Fs.FileSystem.ResetDir | kernel/fs.c:71 | the directory loop empties every entry |
| Fs.FileSystem.Format | kernel/fs.c:71 | in place, format leaves the volume and return value of FsSpec.Format |
| Fs.FileSystem.FormatDir | kernel/fs.c:71 | format after the superblock write leaves the volume and return value of FsSpec.FormatDir |
| Fs.FileSystem.WriteRootDir | kernel/fs.c:71 | the closing directory writes of format leave the volume and return value of StoreRootDir |
| Fs.FileSystem.ReadBitmap | kernel/fs.c:72 | reading the bitmap succeeds exactly when the drive has the block, and then the bitmap is that block; otherwise it is unchanged |
| Fs.FileSystem.ReadDir | kernel/fs.c:72 | reading a directory block succeeds exactly when the drive has it, and then replaces eight slots; otherwise the table is unchanged |
| Fs.FileSystem.ReadMetadata | kernel/fs.c:72 | the closing reads of mount leave the volume and return value of LoadMetadata |
| Fs.FileSystem.ReadRootDir | kernel/fs.c:72 | the directory reads of mount leave the volume and return value of LoadRootDir |
| Fs.FileSystem.ReadRootDirHigh | kernel/fs.c:72 | the last read of mount leaves the volume and return value of LoadRootDirHigh |
| Fs.FileSystem.CheckVolume | kernel/fs.c:72 | the magic check leaves the volume and return value of CheckMagic |
| Fs.FileSystem.Mount | kernel/fs.c:72 | in place, mount leaves the volume and return value of FsSpec.Mount |
| Fs.FileSystem.Read | kernel/fs.c:77 | in place, read leaves the volume, the bytes and the return value of FsSpec.Read |
| Fs.FileSystem.WriteInBlock | kernel/fs.c:78 | the copy part of one write pass leaves the handle, entry and disk of WriteInto and counts the chunk as written |
| Fs.FileSystem.SwitchBlockTo | kernel/fs.c:78 | the cache switch leaves the disk and buffer of SwitchBlock |
| Fs.FileSystem.WriteNext | kernel/fs.c:78 | one pass of the write loop fails with nothing changed where growth fails, and otherwise leaves the volume of WriteChunk with the chunk counted |
| Fs.FileSystem.Write | kernel/fs.c:78 | in place, write leaves the volume and return value of FsSpec.Write |
| Fs.FileSystem.FindEntryScan | kernel/fs.c:73 | the lookup loop returns the first non-EMPTY slot whose name compares equal |
| Fs.FileSystem.FindFreeScan | kernel/fs.c:74 | the free-slot loop returns the first EMPTY slot |
| Fs.FileSystem.CopyPath | kernel/fs.c:16 | strcpy into slot s overwrites that record's bytes from the name on and changes no other slot |
| Fs.FileSystem.MakeEntry | kernel/fs.c:75-80 | the set-up of a new entry changes slot s, to the new entry, and no other |
| Fs.FileSystem.FreeHandleScan | kernel/fs.c:75 | the handle loop returns the first handle not in use |
| Fs.FileSystem.OpenWith | kernel/fs.c:75 | open with a handle picked leaves the volume and result of OpenIn |
| Fs.FileSystem.OpenNewFile | kernel/fs.c:75 | opening a missing name for writing leaves the volume and result of OpenNew |
| Fs.FileSystem.AttachHandle | kernel/fs.c:75 | the tail of open changes handle h, and only it |
| Fs.FileSystem.Open | kernel/fs.c:75 | in place, open leaves the volume and handle of FsSpec.Open |
| Fs.FileSystem.Close | kernel/fs.c:76 | in place, close leaves the volume and return value of FsSpec.Close |
| Fs.FileSystem.Seek | kernel/fs.c:82 | in place, seek leaves the volume and return value of FsSpec.Seek |
| Fs.FileSystem.List | kernel/fs.c:79 | the listing loop returns -1 when unmounted and otherwise the number of FILE entries, whatever the path |
| Fs.FileSystem.Create | kernel/fs.c:80 | in place, create leaves the volume and return value of FsSpec.Create |
| Fs.FileSystem.CreateAt | kernel/fs.c:80 | create on a chosen slot leaves the volume of CreateIn |
| Fs.FileSystem.WriteDirBlocks | kernel/fs.c:80 | the two directory writes of create change only the disk |
| Fs.FileSystem.Delete | kernel/fs.c:81 | in place, delete leaves the volume and return value of FsSpec.Delete |
| Fs.FileSystem.DeleteAt | kernel/fs.c:81 | delete on a found slot leaves the volume of DeleteIn |
| Fs.ReadNext | kernel/fs.c:77 | one pass of the read loop loads the block on a cache miss, appends the chunk and advances the position, as ReadChunk |
| Fs.ReadLoopAll | kernel/fs.c:77 | the read loop over n bytes ends with the handle and bytes of ReadLoop |
| Fs.ReadLoopAdvance | kernel/fs.c:77 | a pass that did what ReadChunk says leaves the rest of the loop the same outcome |
| Fs.CopyOut | kernel/fs.c:77 | the copy loop of read appends count bytes of the cached block from the offset |
| Fs.CopyIn | kernel/fs.c:78 | the copy loop of write places count bytes of the source into the block at the offset and keeps the bytes around them |
| Fs.Strcpy | kernel/fs.c:16 | strcpy puts the path and a NUL at the front of the record and keeps the rest |
| Fs.Strcmp | kernel/fs.c:15 | strcmp returns 0 exactly when the record's bytes spell the path and its NUL |
| Fs.ReleaseStep | kernel/fs.c:59-63 | one pass of the release loop is one step of ReleaseRange |
| PmmSpec.BitmapBytesFor | kernel/pmm.c:51-52 | bitmap_size is the fewest bytes that cover total_pages bits: 8 times it is at least total_pages and less than total_pages + 8 |
| PmmSpec.PageOf | kernel/pmm.c:107-112 | an address names a page only when that page's byte lies inside the bitmap |
| PmmSpec.PageOfAddress | kernel/pmm.c:108-144 | the address of page p names p exactly when the bitmap covers it, and fits in 32 bits |
| PmmSpec.SetUsed | kernel/pmm.c:106-118 | marking a page used keeps the page count and bitmap size |
| PmmSpec.SetFree | kernel/pmm.c:121-133 | freeing a page keeps the page count and bitmap size |
| PmmSpec.AllocPage | kernel/pmm.c:136-154 | a single-page allocation keeps the page count and bitmap size |
| PmmSpec.FirstRun | kernel/pmm.c:166-193 | the run scan finds the lowest start of count clear pages below total_pages, with no such run before it; none means there is no run at all |
| PmmSpec.UseRun | kernel/pmm.c:184-186 | marking a run used keeps the page count and bitmap size |
| PmmSpec.AllocPages | kernel/pmm.c:162-197 | a multi-page allocation keeps the page count and bitmap size |
| PmmSpec.FreeRun | kernel/pmm.c:200-204 | freeing a run keeps the page count and bitmap size |
| PmmSpec.Fill | kernel/pmm.c:65-67 | the fill keeps the bitmap's length |
| PmmSpec.InitAsWritten | kernel/pmm.c:33-103 | the set-up as written leaves a well-formed state, with the counter as it was before the fill |
| PmmSpec.InitPages | kernel/pmm.c:73-90 | the two loops after the fill keep the page count and bitmap size |
| PmmSpec.FreeAboveFirstMb | kernel/pmm.c:73-75 | freeing the pages above 1 MiB keeps the page count and bitmap size |
| PmmSpec.FreePages | kernel/pmm.c:217-219 | total_pages - used_pages in 32 bits; with the counter right it is the number of clear bits (PmmProps.FreePagesCount) |
| PmmSpec.TotalMemory | kernel/pmm.c:222-224 | total_pages * 4096 in 32 bits; below 2^32 it is exact (PmmProps.FreePagesCount) |
| PmmSpec.UsedMemory | kernel/pmm.c:227-229 | used_pages * 4096 in 32 bits; used plus free memory is total memory when the counter is right (PmmProps.FreePagesCount) |
| PmmSpec.FreeMemory | kernel/pmm.c:232-234 | the free pages times 4096 in 32 bits (PmmProps.FreePagesCount) |
| PmmSpec.PagesAboveFirstMb | kernel/pmm.c:70-73 | the pages at or above 1 MiB are total_pages - 256, or none |
| PmmSpec.KernelPages | kernel/pmm.c:78-80 | the kernel takes at least one page, and fewer than 2^20 |
| PmmSpec.Init | kernel/pmm.c:33-103 | the corrected set-up leaves a well-formed state |
| PmmProps.ConsistentIffNoDrift | kernel/pmm.c:117-132 | the counter counts the used pages exactly when its 32-bit distance to the count is 0 and the bits past total_pages are set (see also line 26) |
| PmmProps.DriftStep | kernel/pmm.c:117-132 | moving the counter and the count by the same step keeps their 32-bit distance |
| PmmProps.SetNoop | kernel/pmm.c:115 | setting a bit that is already set changes nothing |
| PmmProps.ClearNoop | kernel/pmm.c:130 | clearing a bit that is already clear changes nothing |
| PmmProps.SetUsedEffect | kernel/pmm.c:106-118 | marking a covered page used sets its bit and counts it once if it was free, with no other bit changed; an address past the bitmap changes nothing |
| PmmProps.SetFreeEffect | kernel/pmm.c:121-133 | freeing a covered page clears its bit and uncounts it once if it was used, with no other bit changed; an address past the bitmap changes nothing |
| PmmProps.SetUsedIdempotent | kernel/pmm.c:114-117 | marking a page used twice is marking it once |
| PmmProps.SetFreeIdempotent | kernel/pmm.c:129-132 | freeing a page twice is freeing it once |
| PmmProps.SetUsedSlack | kernel/pmm.c:106-118 | marking a page used keeps the bits past total_pages set |
| PmmProps.SetUsedStep | kernel/pmm.c:106-118 | marking a page used either changes nothing or sets one existing page's bit and counts it |
| PmmProps.SetFreeSlack | kernel/pmm.c:121-133 | freeing an existing page keeps the bits past total_pages set |
| PmmProps.SetFreeStep | kernel/pmm.c:121-133 | freeing an existing page either changes nothing or clears one set bit and uncounts it |
| PmmProps.SetUsedDrift | kernel/pmm.c:106-118 | marking a page used keeps the counter's distance to the used-page count |
| PmmProps.SetFreeDrift | kernel/pmm.c:121-133 | freeing an existing page keeps the counter's distance to the used-page count |
| PmmProps.SetUsedConsistent | kernel/pmm.c:106-118 | the counter stays right across marking a page used |
| PmmProps.SetFreeConsistent | kernel/pmm.c:121-133 | the counter stays right across freeing an existing page |
| PmmProps.AllocPageEffect | kernel/pmm.c:136-154 | a single-page allocation returns the address of the lowest free page the bitmap covers and marks it used, or returns 0 and changes nothing when every page is used |
| PmmProps.AllocPageConsistent | kernel/pmm.c:136-154 | with the counter right, a single-page allocation keeps it right and hands out an existing page |
| PmmProps.UseRunBits | kernel/pmm.c:184-186 | marking k pages used from start sets exactly the covered ones among them |
| PmmProps.UseRunLastBits | kernel/pmm.c:184-186 | the last page of a run is marked used when the bitmap covers it |
| PmmProps.UseRunNext | kernel/pmm.c:184-186 | one more page of a run marked used is one more pmm_set_page_used |
| PmmProps.FreeRunNext | kernel/pmm.c:201-203 | one more page of a run freed is one more pmm_free_page at the 32-bit address sum |
| PmmProps.UseRunDrift | kernel/pmm.c:184-186 | marking a run used keeps the counter's distance and the bits past total_pages |
| PmmProps.UseRunLastDrift | kernel/pmm.c:184-186 | the last page a run marks keeps the counter's distance |
| PmmProps.FreeRunLast | kernel/pmm.c:201-203 | below 2^20 pages the address sums do not wrap, so the last page freed is page b + j |
| PmmProps.FreeRunBits | kernel/pmm.c:200-204 | freeing k pages from page b clears exactly the covered ones among them |
| PmmProps.FreeRunLastBits | kernel/pmm.c:200-204 | the last page of a run is freed when the bitmap covers it |
| PmmProps.FreeRunDrift | kernel/pmm.c:200-204 | freeing existing pages keeps the counter's distance and the bits past total_pages |
| PmmProps.FreeRunLastDrift | kernel/pmm.c:200-204 | the last page freed keeps the counter's distance |
| PmmProps.FreeRunConsistent | kernel/pmm.c:200-204 | freeing a range of existing pages keeps the counter right and frees exactly that range |
| PmmProps.AllocPagesEffect | kernel/pmm.c:162-197 | a request for 0 pages returns 0 and changes nothing; one page is a single-page allocation; for n >= 2 the lowest run of n free pages below total_pages is handed out and exactly those pages marked used, or 0 is returned with nothing changed |
| PmmProps.FirstRunIs | kernel/pmm.c:166-193 | a run with none before it is the one the scan finds |
| PmmProps.AllocPagesConsistent | kernel/pmm.c:162-197 | with the counter right, a multi-page allocation keeps it right |
| PmmProps.FreePagesCount | kernel/pmm.c:207-234 | with the counter right, the free-page getter is the number of clear bits, and used plus free memory is total memory |
| PmmProps.FillBits | kernel/pmm.c:65-67 | after the fill every covered bit is set |
| PmmProps.FilledCount | kernel/pmm.c:65-67 | right after the fill every existing page counts as used |
| PmmProps.FillFilled | kernel/pmm.c:50-67 | sizing and filling reach the filled state |
| PmmProps.InitPagesBits | kernel/pmm.c:73-90 | after the two loops an existing page is used exactly when it lies below 1 MiB or is one of the kernel's pages |
| PmmProps.FreeAboveBits | kernel/pmm.c:73-75 | after the first loop an existing page is used exactly when it lies below 1 MiB |
| PmmProps.FreeAboveDrift | kernel/pmm.c:73-75 | the first loop keeps the counter's distance |
| PmmProps.InitPagesDrift | kernel/pmm.c:73-90 | the loops keep the counter's distance as it was right after the fill |
| PmmProps.InitEffect | kernel/pmm.c:33-103 | with the counter set at the fill: nothing changes without usable memory; otherwise total_pages is usable / 4096, an existing page is used exactly when below 1 MiB or the kernel's, and the counter is right |
| PmmProps.InitAsWrittenMiscounts | kernel/pmm.c:33-103 | as written, from the boot state with at least one page, the counter ends up wrong |
| Pmm.PhysicalMemory.constructor | kernel/pmm.c:25-27 | the statics start at zero |
| Pmm.PhysicalMemory.SetPageUsed | kernel/pmm.c:106-118 | in place, marking a page used leaves the state of SetUsed |
| Pmm.PhysicalMemory.SetPageFree | kernel/pmm.c:121-133 | in place, freeing a page leaves the state of SetFree |
| Pmm.PhysicalMemory.SetBit | kernel/pmm.c:114-115 | the bit update reports whether the page was free and sets its bit |
| Pmm.PhysicalMemory.ClearBit | kernel/pmm.c:129-130 | the bit update reports whether the page was used and clears its bit |
| Pmm.PhysicalMemory.AllocPage | kernel/pmm.c:136-154 | the byte-then-bit scan returns the address and state of PmmSpec.AllocPage |
| Pmm.PhysicalMemory.TakePage | kernel/pmm.c:143-146 | taking the lowest clear page marks it used and returns its address, as PmmSpec.AllocPage |
| Pmm.PhysicalMemory.FullByte | kernel/pmm.c:138 | every bit of 0xFF is set, so a full byte holds no free page |
| Pmm.PhysicalMemory.FreePage | kernel/pmm.c:157-159 | freeing a page leaves the state of SetFree |
| Pmm.PhysicalMemory.AllocPages | kernel/pmm.c:162-197 | the run-counting scan returns the address and state of PmmSpec.AllocPages |
| Pmm.PhysicalMemory.MarkRun | kernel/pmm.c:184-186 | the marking loop leaves the state of UseRun |
| Pmm.PhysicalMemory.FreePages | kernel/pmm.c:200-204 | the freeing loop leaves the state of FreeRun |
| Pmm.PhysicalMemory.Init | kernel/pmm.c:33-103 | the corrected set-up leaves the state of PmmSpec.Init |
| Pmm.PhysicalMemory.FillBitmap | kernel/pmm.c:65-67 | the fill loop sets the first bitmap_size bytes to 0xFF |
| Pmm.PhysicalMemory.FreeAboveFirstMb | kernel/pmm.c:73-75 | the loop frees every page from 1 MiB up to total_pages |
| Pmm.PhysicalMemory.ReserveKernel | kernel/pmm.c:88-90 | the loop marks the kernel's pages used |
| Pmm.PhysicalMemory.Stats | kernel/pmm.c:207-219 | the getters return total_pages, used_pages and their 32-bit difference |
| Pmm.PhysicalMemory.MemoryStats | kernel/pmm.c:222-234 | the memory getters return the page figures times 4096, in 32-bit arithmetic |
| HeapSpec.Align4 | kernel/heap.c:54 | the rounded size is a multiple of 4 below 2^32, the least one at or above the request, except that the three largest requests wrap to 0 |
| HeapSpec.FirstFit | kernel/heap.c:56-78 | the walk stops at the first free block in list order whose size holds the request, and finds none only when no block fits |
| HeapSpec.Splice | kernel/heap.c:63-105 | replacing a run of blocks changes the list length by the difference |
| HeapSpec.Place | kernel/heap.c:59-73 | the block handed out is allocated and at least as large as the request, and the blocks before it are untouched |
| HeapSpec.Malloc | kernel/heap.c:50-82 | a zero request returns null and changes nothing; heap_start and heap_size never change |
| HeapSpec.FindBlock | kernel/heap.c:88-101 | the block found is the first whose payload starts at ptr, and none is found only when no block's does |
| HeapSpec.Merge | kernel/heap.c:93-105 | absorbing a successor removes one block from the list |
| HeapSpec.MarkAndAbsorbNext | kernel/heap.c:89-95 | marking free and absorbing the successor keeps the block and those before it in place |
| HeapSpec.Release | kernel/heap.c:85-107 | kfree's steps on block i: one free block replaces it and its free neighbours (HeapProps.ReleaseShape), and a well-formed list stays well formed (HeapProps.ReleaseWf) |
| HeapSpec.Free | kernel/heap.c:85-107 | kfree of null changes nothing; heap_start and heap_size never change |
| HeapSpec.Init | kernel/heap.c:20-47 | a failed page allocation leaves no heap; otherwise the heap starts at the pages returned and its one block covers all 64 KiB |
| HeapProps.SpanAppend | kernel/heap.c:64 | blocks laid one after another cover the sum of their spans |
| HeapProps.SpanOne | kernel/heap.c:9-64 | one block covers its 12-byte header and its payload |
| HeapProps.SpanSplice | kernel/heap.c:63-105 | replacing a run of blocks changes the bytes covered by the difference of the two runs |
| HeapProps.OffsetGrows | kernel/heap.c:64 | each header lies past the whole of every block before it in the list |
| HeapProps.OffsetNext | kernel/heap.c:64 | a block's successor starts right after its payload |
| HeapProps.PrefixUsage | kernel/heap.c:115-123 | the running totals of heap_get_stats never exceed the bytes the list covers |
| HeapProps.FirstFitIs | kernel/heap.c:56-78 | a fitting block with no fitting block before it is the one the walk stops at |
| HeapProps.FindPayload | kernel/heap.c:74-88 | the pointer kmalloc returned for block i leads kfree back to block i and no other |
| HeapProps.FindFrom | kernel/heap.c:98-101 | the walk from a later start still reaches the block whose payload is at ptr, when no block between has that payload |
| HeapProps.PayloadInHeap | kernel/heap.c:74 | every block's payload lies inside the heap |
| HeapProps.SpliceNoAdjacent | kernel/heap.c:63-105 | a splice keeps free blocks apart when its new run does and its free ends meet no free neighbours |
| HeapProps.PlaceWf | kernel/heap.c:59-73 | handing out a block keeps the tiling and keeps free blocks apart |
| HeapProps.MallocWf | kernel/heap.c:50-82 | kmalloc keeps a well-formed heap well formed |
| HeapProps.MallocEffect | kernel/heap.c:50-82 | kmalloc returns null exactly for a zero request or when no free block holds the rounded-up request; otherwise the first free block that does is now allocated, at least as large as the request, inside the heap, and its payload is returned |
| HeapProps.HugeRequestGranted | kernel/heap.c:54-59 | a request within 3 of 2^32 rounds to 0 and is granted whenever any block is free |
| HeapProps.CoalesceLo | kernel/heap.c:98-106 | the first block kfree folds together is at or before the block freed |
| HeapProps.CoalesceHi | kernel/heap.c:92-95 | the last block kfree folds together is at or after the block freed |
| HeapProps.ReleaseShape | kernel/heap.c:85-107 | kfree replaces the block and its free neighbours by one free block covering all of them |
| HeapProps.AbsorbNextShape | kernel/heap.c:89-95 | marking a block free and absorbing a free successor folds both into one free block |
| HeapProps.SpanOfRun | kernel/heap.c:93 | the span of one block, or of a block and its successor |
| HeapProps.SpanOfPair | kernel/heap.c:104 | the span of a predecessor followed by a run |
| HeapProps.CoalescedSpan | kernel/heap.c:93-104 | folding a run of blocks keeps the tiling |
| HeapProps.CoalescedNoAdjacent | kernel/heap.c:92-106 | folding a free block with all its free neighbours keeps free blocks apart |
| HeapProps.ReleaseWf | kernel/heap.c:85-107 | kfree on a block keeps the tiling and keeps free blocks apart |
| HeapProps.FreeWf | kernel/heap.c:85-107 | kfree of null or of a pointer kmalloc returned keeps a well-formed heap well formed |
| HeapProps.FreeUndoesMalloc | kernel/heap.c:50-107 | on a well-formed heap, kfree of the non-null pointer kmalloc just returned gives back the heap as it was |
| HeapProps.ReleasePlace | kernel/heap.c:59-107 | releasing a block just handed out restores the list |
| HeapProps.ReleaseSplit | kernel/heap.c:63-95 | folding a split block back together restores it |
| HeapProps.ReleaseWhole | kernel/heap.c:73-89 | marking a block handed out whole free again restores it |
| HeapProps.SpanAccounts | kernel/heap.c:110-124 | every byte of the list is a header, a used payload byte or a free payload byte |
| HeapProps.StatsAccount | kernel/heap.c:110-124 | on a well-formed heap, the used and free totals plus one header per block add up to heap_size |
| HeapProps.InitWf | kernel/heap.c:20-47 | heap_init sets up a well-formed heap |
| Heap.KernelHeap.Init | kernel/heap.c:20-47 | the constructor leaves the heap of HeapSpec.Init |
| Heap.KernelHeap.Kmalloc | kernel/heap.c:50-82 | the list walk returns the pointer and leaves the heap of HeapSpec.Malloc |
| Heap.KernelHeap.PlaceAt | kernel/heap.c:59-73 | the list updates leave Place of the old list |
| Heap.KernelHeap.Kfree | kernel/heap.c:85-107 | the updates leave the heap of HeapSpec.Free |
| Heap.KernelHeap.Locate | kernel/heap.c:98-101 | the walk returns the position of the block whose payload is at ptr |
| Heap.KernelHeap.ReleaseAt | kernel/heap.c:89-106 | the list updates leave Release of the old list |
| Heap.KernelHeap.GetStats | kernel/heap.c:110-124 | the walk returns heap_size and the payload totals of the used and of the free blocks |
| Keyboard.Translate | kernel/keyboard.c:29-62 | a scancode queues a character exactly when bit 7 is clear and its keyboard_map entry is not 0, and the character is that entry (see also lines 102-108) |
| Keyboard.Queue | kernel/keyboard.c:65-68 | the ring holds (end - start) mod 256 characters, at most 255 |
| Keyboard.QueuePush | kernel/keyboard.c:71-77 | writing at buffer_end and advancing it mod 256 appends the character when the new end does not meet buffer_start |
| Keyboard.QueuePop | kernel/keyboard.c:80-87 | on a non-empty ring the character at buffer_start is the oldest, and advancing buffer_start mod 256 takes it off |
| Keyboard.KeyboardBuffer.constructor | kernel/keyboard.c:66-68 | the buffer starts empty |
| Keyboard.KeyboardBuffer.Add | kernel/keyboard.c:71-77 | the character is appended unless 255 are waiting, when it is dropped and nothing changes |
| Keyboard.KeyboardBuffer.GetChar | kernel/keyboard.c:80-87 | 0 with nothing changed on an empty buffer, otherwise the oldest character, removed |
| Keyboard.KeyboardBuffer.HasData | kernel/keyboard.c:90-92 | true exactly when a character is waiting |
| Keyboard.KeyboardBuffer.Handler | kernel/keyboard.c:95-119 | a release or a key without a character changes nothing; otherwise its character is queued as by keyboard_buffer_add |
| TaskSpec.Without | kernel/scheduler.c:42-64 | taking p out of the queue shortens it by one exactly when p was in it |
| TaskSpec.NameEnd | kernel/process.c:28-63 | the name loop stops at the first NUL, at the end of the source, or at index 31, and copies no NUL before it |
| TaskSpec.CName | kernel/process.c:59-63 | the stored name is a prefix of the source of at most 31 characters without a NUL, cut short only at the source's NUL or end |
| TaskSpec.Add | kernel/scheduler.c:26-39 | scheduler_add: null changes nothing, otherwise the process becomes READY at the tail (TaskProps.AddWf) |
| TaskSpec.Remove | kernel/scheduler.c:42-64 | scheduler_remove takes the process out of the queue wherever it stands, and nothing else (TaskProps.RemoveEffect) |
| TaskSpec.Next | kernel/scheduler.c:67-86 | scheduler_next pops the head and re-adds it unless TERMINATED; 0 on an empty queue (TaskProps.NextEffect, TaskProps.RoundRobin) |
| TaskSpec.Switch | kernel/process.c:122-133 | process_switch: a null or current target changes nothing, otherwise the target is current and RUNNING and a live previous process READY (TaskProps.ScheduleEffect, TaskProps.SwitchFromFreedPcb) |
| TaskSpec.Schedule | kernel/scheduler.c:89-99 | schedule counts a switch and switches only to a process other than the current one (TaskProps.ScheduleEffect) |
| TaskSpec.Create | kernel/process.c:47-96 | process_create given what kmalloc and pmm_alloc_page returned (TaskProps.CreateEffect, TaskProps.CreatePids) |
| TaskSpec.Terminate | kernel/process.c:104-119 | process_terminate frees the PCB, unqueues it and hands back its stack (TaskProps.TerminateEffect) |
| TaskSpec.Boot | kernel/process.c:18-44 | process_init and scheduler_init: the idle process alone and current (TaskProps.BootWf) |
| TaskProps.WithoutAt | kernel/scheduler.c:53-63 | unlinking p where it first stands keeps the processes before and after it in order |
| TaskProps.WithoutAbsent | kernel/scheduler.c:53-58 | a process not in the queue is not found and the queue is unchanged |
| TaskProps.WithoutMembers | kernel/scheduler.c:42-64 | in a queue without repeats, removing p leaves exactly the other members, still without repeats |
| TaskProps.AddWf | kernel/scheduler.c:26-39 | adding a process not yet queued appends it at the tail as READY and keeps the state well formed |
| TaskProps.NextWf | kernel/scheduler.c:67-86 | scheduler_next keeps the state well formed |
| TaskProps.NextEffect | kernel/scheduler.c:67-86 | scheduler_next returns the head; a head not TERMINATED goes to the tail as READY, a TERMINATED one leaves the queue; an empty queue gives 0 and changes nothing |
| TaskProps.Run | kernel/scheduler.c:67-86 | n calls of scheduler_next return n processes |
| TaskProps.NextRunnable | kernel/scheduler.c:67-86 | on a queue of live processes none of which is TERMINATED, scheduler_next rotates the queue by one and returns the old head |
| TaskProps.RotatedSlices | kernel/scheduler.c:73-83 | slices of a queue rotated by one |
| TaskProps.RoundRobin | kernel/scheduler.c:67-86 | n calls (n up to the queue's length) return the first n queued processes in order and move them, in order, to the tail |
| TaskProps.FullRound | kernel/scheduler.c:67-86 | one call per queued process returns each once, in queue order, and restores the queue |
| TaskProps.RemoveEffect | kernel/scheduler.c:42-64 | scheduler_remove takes exactly p out of the queue and nothing else; an unqueued process leaves the state as it was |
| TaskProps.WithoutLive | kernel/scheduler.c:42-64 | after removing p every queued process is a live PCB other than p |
| TaskProps.ScheduleEffect | kernel/scheduler.c:89-99 | with an empty queue nothing happens; when the head is the current process no switch is counted; otherwise the head becomes current and RUNNING, the process it replaces becomes READY when its PCB is still allocated, one switch is counted, and every other PCB is unchanged |
| TaskProps.SwitchFromFreedPcb | kernel/process.c:122-133 | after process_terminate frees the current PCB while another process is queued, the following scheduler_next hands process_switch a process other than the freed one, so the write to prev->state lands in freed memory |
| TaskProps.BootWf | kernel/process.c:18-44 | after process_init and scheduler_init the idle process, pid 0, is the only process and is current |
| TaskProps.CreateEffect | kernel/process.c:47-96 | a failed kmalloc changes nothing; a failed stack allocation returns null with the PCB freed but next_pid advanced; otherwise the new PCB holds the next pid, the copied name, READY, priority 10, quantum 5, cpu_time 0 and the stack, and joins the tail |
| TaskProps.CreatePids | kernel/process.c:56 | while next_pid does not wrap, a new process gets a pid above every live one, and pids stay distinct |
| TaskProps.TerminateEffect | kernel/process.c:104-119 | the PCB is freed and out of the queue, nothing else is, and its kernel stack goes to pmm_free_page; pids stay distinct |
| Tasks.ProcsSet | kernel/process.c:107 | writing a PCB writes its fields in the view |
| Tasks.ProcsRemove | kernel/process.c:118 | freeing a PCB removes it from the view |
| Tasks.LinkedSetProc | kernel/process.c:107-132 | writing fields other than the link keeps the queue's chain |
| Tasks.LinkedOff | kernel/process.c:56-69 | writing a PCB outside the queue keeps the chain |
| Tasks.LinkedFree | kernel/process.c:118 | freeing a PCB outside the queue keeps the chain |
| Tasks.LinkedAppend | kernel/scheduler.c:29-38 | clearing p's link and hanging it after the old tail chains the queue plus p |
| Tasks.ProcsAppend | kernel/scheduler.c:29-38 | the same rewiring leaves the PCBs' other fields alone |
| Tasks.LinkedPop | kernel/scheduler.c:73-78 | moving head to its link chains the rest of the queue, and the link is null exactly at the tail |
| Tasks.ProcsUpdateRemove | kernel/process.c:107-118 | a PCB written and then freed is as if never written |
| Tasks.LinkedUnlink | kernel/scheduler.c:58-62 | pointing a predecessor's link past p chains the queue without p |
| Tasks.CopyName | kernel/process.c:59-63 | the copy loop stores CName of the source |
| Tasks.ProcessTable.Init | kernel/process.c:18-44 | the idle PCB is the only one, its link points to itself, it is current, and next_pid is 1 |
| Tasks.ProcessTable.SetState | kernel/process.c:107-132 | one PCB's state field is written and nothing else |
| Tasks.ProcessTable.Switch | kernel/process.c:122-133 | the update leaves the state of TaskSpec.Switch: a null or current target changes nothing; otherwise the target is current and RUNNING and the previous process READY, a write skipped when its PCB was freed |
| Tasks.ProcessTable.Create | kernel/process.c:47-96 | the update returns the pointer and leaves the state of TaskSpec.Create |
| Tasks.ProcessTable.Terminate | kernel/process.c:104-119 | the update returns the freed stack and leaves the state of TaskSpec.Terminate |
| Tasks.ReadyQueue.Init | kernel/scheduler.c:15-23 | the queue starts empty with no switches counted |
| Tasks.ReadyQueue.Add | kernel/scheduler.c:26-39 | the link updates leave the state of TaskSpec.Add |
| Tasks.ReadyQueue.Remove | kernel/scheduler.c:42-64 | the head case or the walk to the predecessor leaves the state of TaskSpec.Remove |
| Tasks.ReadyQueue.RemoveHead | kernel/scheduler.c:45-51 | unlinking at the head leaves the state of TaskSpec.Remove |
| Tasks.ReadyQueue.Unlink | kernel/scheduler.c:58-63 | unlinking after the predecessor found leaves the state of TaskSpec.Remove |
| Tasks.ReadyQueue.Next | kernel/scheduler.c:67-86 | the link updates return the process and leave the state of TaskSpec.Next |
| Tasks.ReadyQueue.Schedule | kernel/scheduler.c:89-99 | the updates leave the state of TaskSpec.Schedule |
| PagingSpec.IndicesSplit | kernel/paging.c:32-36 | both indices of a 32-bit address are below 1024, and with the offset in the page they give the address back |
| PagingSpec.SameIndicesSamePage | kernel/paging.c:32-36 | two addresses with the same indices lie in the same 4 KiB page |
| PagingSpec.Blank | kernel/paging.c:40-45 | a fresh table's entries are not present, writable, kernel-only, frame 0, with accessed and dirty as the memory held them |
| PagingSpec.MapEntry | kernel/paging.c:126-132 | map_page's entry update: present, rw, user and frame = phys / 4096; what the MMU then sees is PagingProps.MapView |
| PagingSpec.UnmapEntry | kernel/paging.c:134-140 | unmap_page clears only present; the MMU then translates nothing in that page (PagingSpec.TranslateEntry) |
| PagingSpec.AllocFrame | kernel/paging.c:54-61 | alloc_frame leaves an entry with a frame alone and otherwise maps it to the page pmm_alloc_page gives, whatever the virtual address (PagingProps.AllocFrameNotIdentity) |
| PagingSpec.FreeFrame | kernel/paging.c:63-68 | free_frame leaves an entry without a frame alone, otherwise returns the frame to pmm_free_page and zeroes it, present untouched |
| PagingSpec.OrFlags | kernel/paging.c:46-47 | or-ing 7 into a page-aligned table address adds 7 |
| PagingSpec.Split | kernel/paging.c:8-16 | an entry word splits into its low twelve flag bits and its frame |
| PagingSpec.DecodeEncode | kernel/paging.c:8-16 | an entry in the hardware layout reads back as the entry |
| PagingSpec.Encode | kernel/paging.c:8-16 | the entry word in the hardware layout, P, R/W, U/S at bits 0-2, A and D at 5 and 6, the frame from bit 12; it reads back through PagingSpec.DecodeEncode |
| PagingSpec.Decode | kernel/paging.c:8-16 | the fields the MMU reads from an entry word (PagingSpec.DecodeEncode, PagingSpec.Split) |
| PagingSpec.Lookup | kernel/paging.c:32-36 | the entry of an address when its table exists (PagingProps.LookupOther) |
| PagingSpec.Translate | kernel/paging.c:126-140 | the MMU view of the tables: the frame of a present entry at the address's offset (PagingSpec.TranslateEntry, PagingProps.MapView) |
| PagingSpec.AsWrittenLayoutMisplaced | kernel/paging.c:8-16 | the declared bit-field puts accessed and dirty where the MMU reads write-through and cache-disable, and the MMU reads the entry's own accessed and dirty as 0 |
| PagingSpec.AsWrittenMissesHardwareBits | kernel/paging.c:8-16 | an entry the MMU has marked accessed and dirty reads through the declared bit-field as neither |
| PagingSpec.TranslateEntry | kernel/paging.c:126-132 | a present entry sends v to its frame at v's offset; an absent entry or table sends it nowhere (see also lines 32-36) |
| PagingSpec.EncodeDecodeFault | kernel/paging.c:102-106 | decoding a page-fault error code keeps exactly its low four bits |
| PagingSpec.DecodeEncodeFault | kernel/paging.c:102-106 | a fault's error code decodes back to that fault |
| PagingSpec.FaultLabelsMeaning | kernel/paging.c:102-120 | "Present " is printed for a fault on a page not present, "Read-only " for a write, "User-mode " for a user access, "Reserved " for a reserved bit |
| PagingSpec.FaultLabels | kernel/paging.c:102-111 | the words page_fault prints for error-code bits 0 (when clear), 1, 2 and 3, in that order (PagingSpec.FaultLabelsMeaning) |
| PagingProps.AllocPageAligned | kernel/paging.c:56 | pmm_alloc_page gives a page-aligned 32-bit address |
| PagingProps.AllocPageKeeps | kernel/paging.c:39-56 | pmm_alloc_page never frees a page |
| PagingProps.AllocPageSucceeds | kernel/paging.c:39-56 | with page 0 used and a free page left, pmm_alloc_page gives a page that was free and marks it used |
| PagingProps.FreshTable | kernel/paging.c:39 | a table allocated while the directory's pages are used lands outside them and on a real page |
| PagingProps.AllocTwoReserves | kernel/paging.c:81 | a two-page directory allocation reserves both pages and leaves page 0 used |
| PagingProps.AllocFrameNotIdentity | kernel/paging.c:54-90 | with the first MiB reserved, alloc_frame never gives a page below 1 MiB (other than page 0) its own frame, so the loop does not build an identity map |
| PagingProps.DirectoryOverlapsFirstTable | kernel/paging.c:81-88 | when the page after the one-page directory is free, the first table get_page allocates is that page, which holds the directory's tables[] half (see also lines 22-25) |
| PagingProps.LookupOther | kernel/paging.c:126-139 | writing one entry changes the lookup and translation of no other page |
| PagingProps.TranslateNewTable | kernel/paging.c:37-48 | adding a blank table maps nothing new |
| PagingProps.MapView | kernel/paging.c:126-132 | after map_page every address in v's page goes to the new frame at its offset, and every other address goes where it went before |
| PagingProps.FirstTableView | kernel/paging.c:94-96 | tables other than the first do not change the view of the first 4 MiB |
| PagingProps.OtherPageOtherIndex | kernel/paging.c:32-36 | two 32-bit addresses in different pages differ in an index |
| PagingProps.ExtendIdentity | kernel/paging.c:86-90 | mapping page i to itself, the pages below it already identity-mapped, extends the identity map by one page |
| Paging.HeapIndices | kernel/paging.c:92-95 | heap page i of the window from 4 MiB is slot i of directory slot 1 |
| Paging.HeapBackedStep | kernel/paging.c:94-96 | one more turn of the heap loop backs one more page |
| Paging.PageDirectory.Init | kernel/paging.c:79-100 | corrected set-up: the directory takes two pages, the low 4 MiB is identity-mapped, and the 256 heap pages from 4 MiB get writable frames outside the directory |
| Paging.PageDirectory.Clear | kernel/paging.c:82-85 | the clearing loop leaves every slot of both arrays 0 |
| Paging.PageDirectory.IdentityMap | kernel/paging.c:86-90 | the corrected loop sends every address below 4 MiB to itself and keeps the directory's pages used |
| Paging.PageDirectory.IdentityPage | kernel/paging.c:87-89 | one turn of the corrected loop extends the identity map by one page |
| Paging.PageDirectory.MapHeap | kernel/paging.c:92-96 | the heap loop backs all 256 heap pages and leaves the first table alone |
| Paging.PageDirectory.MapHeapPage | kernel/paging.c:94-96 | one turn of the heap loop backs one more page |
| Paging.PageDirectory.NewHeapTable | kernel/paging.c:37-48 | the first turn's get_page makes a blank heap table outside the directory's pages (see also line 95) |
| Paging.PageDirectory.BackHeapPage | kernel/paging.c:54-61 | the alloc_frame half of a turn backs the next heap page (see also line 95) |
| Paging.PageDirectory.GetPage | kernel/paging.c:32-52 | an existing table gives v's entry; a missing one gives nothing without make, and with make a blank table on a fresh page recorded in tables and, or-ed with 7, in tables_physical |
| Paging.PageDirectory.NewTable | kernel/paging.c:40-45 | the initialisation loop leaves a blank table |
| Paging.PageDirectory.SetEntry | kernel/paging.c:41-60 | a store changes exactly one entry |
| Paging.PageDirectory.AllocFrame | kernel/paging.c:54-61 | the update leaves the entry and allocator of PagingSpec.AllocFrame |
| Paging.PageDirectory.FreeFrame | kernel/paging.c:63-68 | the update leaves the entry and allocator of PagingSpec.FreeFrame |
| Paging.PageDirectory.MapPage | kernel/paging.c:126-132 | v's page now goes to the frame of physical with the given flags, creating its table if need be, and no other page's translation changes |
| Paging.PageDirectory.UnmapPage | kernel/paging.c:134-140 | when v's table exists v's entry loses only its present bit, so v translates to nothing and no other page changes |
| Syscall.Number | kernel/syscall.h:8-16 | each handler's number is below 9 and none is OPEN (4) or CLOSE (5) |
| Syscall.Registered | kernel/syscall.c:15-35 | a filled slot holds the handler with that number; numbers outside 0..255 name none |
| Syscall.RegisteredExactly | kernel/syscall.c:19-30 | every handler is found under its number, and exactly 0, 1, 2, 3, 6, 7 and 8 have one |
| Syscall.SyscallTable.Init | kernel/syscall.c:15-35 | after the clearing loop and the stores every slot holds what Registered says |
| Syscall.SyscallTable.Lookup | kernel/syscall.c:39-43 | the handler found is the one registered under the number, none outside the table |
| Syscall.Visible | kernel/syscall.c:88-91 | what is shown is at most the bytes given, never a NUL, and all of them when none is NUL |
| Syscall.WriteOut | kernel/syscall.c:85-95 | on fd 1 the count comes back as a 32-bit int and the visible bytes of the first count bytes are shown; any other fd gives SYSCALL_ERROR and shows nothing |
| Syscall.HandleRejects | kernel/syscall.c:38-52 | a number with no handler, inside or outside the table, and fork and read return SYSCALL_ERROR and change nothing (see also lines 73-82) |
| Syscall.Handle | kernel/syscall.c:38-52 | syscall_handler and the handler it finds; each call number's effect is one of the Syscall.Handle* lemmas |
| Syscall.HandleWrite | kernel/syscall.c:85-95 | call 3 appends the visible bytes to the console and returns the count on fd 1, and fails writing nothing elsewhere |
| Syscall.HandleGetPid | kernel/syscall.c:98-101 | call 6 returns 0 without a current process; otherwise the unsigned pid read as a 32-bit int, itself below 2^31 and 2^32 lower from there on; nothing changes |
| Syscall.HandleExit | kernel/syscall.c:55-70 | call 0 returns SYSCALL_SUCCESS; pid 0 or no current process changes nothing; otherwise the current PCB is freed and leaves the queue, every other live queued process that is not TERMINATED stays queued, and schedule runs: with nobody else queued current_process is left pointing at the freed PCB, otherwise the next queued process becomes current and RUNNING and one switch is counted; no other PCB changes |
| Syscall.HandleSleep | kernel/syscall.c:104-107 | call 7 returns SYSCALL_SUCCESS after ms / 10 more ticks when that target does not pass 2^32 - 1, and touches nothing else |
| Syscall.HandleYield | kernel/syscall.c:110-113 | call 8 is schedule and returns SYSCALL_SUCCESS |
| Timer.PitBytes | kernel/timer.c:41-42 | the two bytes sent are below 256 and make up a 16-bit divisor, low byte first |
| Timer.TimerDivisor | kernel/timer.c:32-47 | the divisor is 11931, sent as 0x9B then 0x2E, the largest whose rate is at least 100 Hz |
| Timer.Uptime | kernel/timer.c:64-66 | the uptime is the whole seconds in the tick count |
| Timer.UptimeStep | kernel/timer.c:21-29 | the uptime grows by one exactly on every hundredth tick (see also lines 64-66) |
| Timer.SleepTicksAsWritten | kernel/timer.c:58-61 | the product wraps before the division, so the written conversion never exceeds (2^32 - 1) / 1000 ticks |
| Timer.SleepTicks | kernel/timer.c:58-61 | the intended conversion is one tick per whole 10 ms |
| Timer.ShortSleepIsNoSleep | kernel/timer.c:58-61 | under 10 ms no tick is waited |
| Timer.SleepTicksAgree | kernel/timer.c:58-61 | the written and intended conversions agree while ms * 100 fits in 32 bits |
| Timer.SleepOverflow | kernel/timer.c:58-61 | 50000000 ms becomes 705032 ticks as written instead of 5000000 |
| Timer.WaitTarget | kernel/timer.c:51 | the target is the tick count plus n, wrapped at 2^32 |
| Timer.WaitEnd | kernel/timer.c:50-55 | the wait ends at the target, or at once when the counter is already past it |
| Timer.WaitWrapsEarly | kernel/timer.c:51-52 | when the target wraps past 2^32 - 1 timer_wait returns at once |
| Timer.Clock.Init | kernel/timer.c:13 | the counter starts at 0 |
| Timer.Clock.Tick | kernel/timer.c:21-29 | one tick more, wrapping at 2^32 |
| Timer.Clock.Wait | kernel/timer.c:50-55 | the loop leaves the counter at WaitEnd |
| Timer.Clock.Sleep | kernel/timer.c:58-61 | with the intended conversion the counter ends at WaitEnd of SleepTicks |
| Shell.StrLen | kernel/shell.c:31-35 | the length is that of the string's text up to its NUL |
| Shell.StrCmp | kernel/shell.c:16-21 | 0 exactly when the two texts are equal, and within [-255, 255] |
| Shell.Head | kernel/shell.c:23-29 | strncmp looks at most at n characters of the text and its terminator |
| Shell.StrNCmp | kernel/shell.c:23-29 | for n >= 0, 0 exactly when the first n characters agree, a shared terminator ending the comparison; for n < 0, 0 exactly when the first characters agree |
| Shell.HeadsUpTo | kernel/shell.c:23-29 | once n equal characters have been compared, strncmp's heads agree |
| Shell.HeadsAt | kernel/shell.c:23-29 | where strncmp stops early on a terminator or a mismatch, the heads agree exactly when the two characters there are equal |
| Shell.HeadPrefix | kernel/shell.c:23-29 | strncmp(s, p, strlen(p)) == 0 exactly when s starts with p (see also line 107) |
| Shell.WordEnd | kernel/shell.c:41 | the first loop stops at the first space from i on or at the end of the text |
| Shell.SpacesEnd | kernel/shell.c:43 | the second loop stops at the first non-space or at the end |
| Shell.WordEndAt | kernel/shell.c:41 | the word ends at the first space |
| Shell.SpacesEndAt | kernel/shell.c:43 | the spaces end at the first non-space |
| Shell.ArgOfSplit | kernel/shell.c:38-50 | a word, one or more spaces and an argument not starting with a space give exactly that argument, spaces inside it kept; a line with no space gives none |
| Shell.ArgShape | kernel/shell.c:38-50 | the argument is a suffix of the line not starting with a space, after a word and then spaces |
| Shell.Arg | kernel/shell.c:38-50 | what get_arg copies: the line after its first word and the spaces after it (Shell.ArgOfSplit, Shell.ArgShape) |
| Shell.GetArg | kernel/shell.c:38-50 | get_arg stores the argument and a NUL at the start of the buffer |
| Shell.CopyText | kernel/shell.c:45-49 | the copy loop stores the text from i on and its NUL |
| Shell.ShellLiterals | kernel/shell.c:93-170 | the words and prefixes shell_execute tests hold no NUL |
| Shell.Matches | kernel/shell.c:93-170 | strcmp(cmd_buffer, word) == 0 exactly when the line is the word |
| Shell.StartsWith | kernel/shell.c:107-135 | the strncmp test succeeds exactly when the line starts with the prefix |
| Shell.Edit | kernel/shell.c:63-86 | no key, backspace and DEL never lengthen the line; a key is appended while the line is under 127 characters; no NUL gets in |
| Shell.Typed | kernel/shell.c:60-88 | the line typed holds no NUL |
| Shell.TypedFits | kernel/shell.c:83-85 | whatever is typed, the line stays under 128 characters |
| Shell.TypedPlain | kernel/shell.c:82-85 | up to 127 plain keys give exactly the keys typed |
| Shell.BackspaceUndoes | kernel/shell.c:78-85 | a plain key followed by backspace leaves the line as it was, when the key was not dropped |
| Shell.FirstEnter | kernel/shell.c:74-77 | the line ends at the first '\n' or '\r' |
| Shell.Classify | kernel/shell.c:90-179 | a line matching no test is reported back whole as unknown |
| Shell.TestsExclusive | kernel/shell.c:93-177 | no line passes two of the shell's ten tests, so the order of the else-if chain never decides between them |
| Shell.ClassifyByTest | kernel/shell.c:93-177 | a line that passes one of the tests gets exactly the command that test selects, with echo's text after "echo " and the argument for cat, touch and rm |
| Shell.ClassifyUnknown | kernel/shell.c:173-177 | a line is reported unknown exactly when it is not empty and passes none of the ten tests |
| Shell.ClassifyCat | kernel/shell.c:112-114 | "cat " plus spaces plus a name not starting with a space opens that whole name, spaces inside it included |
| Shell.ClassifyTouch | kernel/shell.c:129-131 | "touch " plus spaces plus a name creates that whole name |
| Shell.ClassifyRm | kernel/shell.c:135-137 | "rm " plus spaces plus a name deletes that whole name |
| Shell.GetArgOverflowsFilename | kernel/shell.c:38-50 | a "cat " line whose name has 32 or more plain characters makes get_arg write past filename[32] (see also lines 112-114) |
| Shell.CommandLine.constructor | kernel/shell.c:13 | cmd_buffer is 128 characters |
| Shell.CommandLine.ReadLine | kernel/shell.c:60-88 | the keys up to the first Enter are edited into the line and stored NUL-terminated in cmd_buffer |
| Shell.CommandLine.Execute | kernel/shell.c:90-179 | the dispatch picks the command Classify names for the line in cmd_buffer |
| Shell.CommandLine.FileName | kernel/shell.c:113-137 | with a 128-character buffer the name held is the line's argument |
| Memory.TypeName | kernel/memory.c:27-40 | the name is one of the six; it is "Unknown" exactly for type 0 or a type above 5 |
| Memory.TypeNamesDistinct | kernel/memory.c:27-40 | two known types never share a name |
| Memory.Processed | kernel/memory.c:62 | the loop visits the count's entries, but never more than 100 |
| Memory.Counted | kernel/memory.c:77 | an entry counts the low 32 bits of its length |
| Memory.CountOne | kernel/memory.c:77-84 | one more entry adds its counted length to the total and to the usable or the reserved sum |
| Memory.TotalSplits | kernel/memory.c:77-84 | every counted byte is either usable or reserved |
| Memory.HighHalfIgnored | kernel/memory.c:77 | a 4 GiB entry counts nothing and a 4 GiB + 4 KiB one counts 4 KiB |
| Memory.Reduce | kernel/memory.c:78 | a counter below 2^32 a multiple of 2^32 away from x is x wrapped |
| Memory.Settle | kernel/memory.c:62-85 | the counters hold the wrapped exact sums, and a balanced start stays balanced |
| Memory.MemoryMap.constructor | kernel/memory.c:19-24 | the statics start at zero |
| Memory.MemoryMap.Init | kernel/memory.c:43-106 | with no entries total and usable become 32 MiB; otherwise the first min(count, 100) entries are added on, wrapping at 2^32, and total stays usable plus reserved |
| Memory.MemoryMap.Scan | kernel/memory.c:62-85 | the loop leaves each counter a multiple of 2^32 away from its exact sum |
| Memory.MemoryMap.Count | kernel/memory.c:77-84 | one entry's counted length goes to the total and to the usable or the reserved count, each wrapping |
| Mouse.Clamp | kernel/mouse.c:66-69 | the coordinate lands on the screen: unchanged when already on it, 0 below it, the last pixel above it |
| Mouse.Packet | kernel/mouse.c:55-71 | a packet with an overflow bit is dropped; otherwise the pointer moves by the signed deltas, dy upwards, stays on the screen and takes the three button bits; an unclamped move lands exactly where the deltas say |
| Mouse.TrackOnScreen | kernel/mouse.c:46-83 | however many packets arrive, the pointer never leaves the screen |
| Mouse.StillPacket | kernel/mouse.c:55-71 | a packet without movement only sets the buttons |
| Mouse.Mouse.constructor | kernel/mouse.c:9-13 | the statics start at zero |
| Mouse.Mouse.Init | kernel/mouse.c:112-115 | the pointer starts at (160, 100), the centre of the screen, and the cursor is drawn there |
| Mouse.Mouse.Handle | kernel/mouse.c:46-83 | a byte not from the mouse changes nothing; a mouse byte is stored at the cycle position; the third completes a packet, resets the cycle, moves the pointer as Packet says and, unless it overflowed, redraws the cursor |
| Mouse.Mouse.Apply | kernel/mouse.c:55-74 | a complete packet moves the pointer as Packet says and redraws the cursor unless it overflowed |
| Mouse.Mouse.Move | kernel/mouse.c:62-69 | the pointer moves by dx and by -dy and is clamped to the screen |
| Graphics.Cell | kernel/graphics.c:19-23 | pixel (x, y) on the screen is cell y * 320 + x, whose row is y and column x |
| Graphics.CellOf | kernel/graphics.c:19-23 | every cell is the pixel at its row and column |
| Graphics.Plotted | kernel/graphics.c:19-23 | put_pixel keeps the buffer's size |
| Graphics.PlottedCells | kernel/graphics.c:19-23 | put_pixel sets the one cell at (x, y), if the screen has one, and no other |
| Graphics.Scrolled | kernel/graphics.c:101-119 | for p > 0 every pixel takes the colour of the one p rows below it, or the clear colour where there is none; p <= 0 changes nothing |
| Graphics.ScrollTwice | kernel/graphics.c:101-119 | scrolling by a and then by b is scrolling by a + b |
| Graphics.ScrollClears | kernel/graphics.c:103-105 | a scroll by the whole height or more clears the screen |
| Graphics.PlotAll | kernel/graphics.c:19-23 | plotting a run of points keeps the buffer's size |
| Graphics.PlotAllSnoc | kernel/graphics.c:19-23 | plotting one more point plots it over the run so far |
| Graphics.PlotAllCells | kernel/graphics.c:19-23 | a run of points sets exactly the cells at those points, each to the colour |
| Graphics.Abs | kernel/graphics.c:122-124 | abs is v or -v, and never negative |
| Graphics.Dir | kernel/graphics.c:36-37 | the step along an axis is 1 or -1, and 1 towards a larger end |
| Graphics.Extend | kernel/graphics.c:40-52 | plotting the current point and stepping on extends the chain of points drawn |
| Graphics.Advance | kernel/graphics.c:40-52 | short of the end, a step moves along at least one axis, along neither past its end, and keeps the error term's meaning |
| Graphics.AdvanceHug | kernel/graphics.c:44-51 | the two error-term updates of a step keep the error term within half the longer side of its start value dx - dy |
| Graphics.HugNear | kernel/graphics.c:33-53 | a position whose error term is that close to dx - dy lies within half a pixel of the ideal segment |
| Graphics.CrossOfSteps | kernel/graphics.c:34-37 | the cross product of a position mx and my steps on with the segment is my * dx - mx * dy up to sign, whatever the directions sx and sy |
| Graphics.Stride | kernel/graphics.c:40-52 | a turn of the loop short of the end plots the current point, keeps the loop state and takes at least one step |
| Graphics.Finish | kernel/graphics.c:41-43 | the turn that plots (x2, y2) completes a line with all the properties DrawLine promises |
| Graphics.MulSucc | kernel/graphics.c:44-51 | one more step adds d to m * d |
| Graphics.Below | kernel/graphics.c:44-51 | for 0 <= m < d, a + m * a stays at most a * d |
| Graphics.PenRow | kernel/graphics.c:73-87 | draw_string's pen is one 10-pixel text row lower for each newline |
| Graphics.PenColumn | kernel/graphics.c:73-87 | within a line the pen moves 8 pixels per character |
| Graphics.PenAfterNewline | kernel/graphics.c:77-80 | after a newline the pen starts over at x, whatever came before |
| Graphics.GlyphCount | kernel/graphics.c:73-87 | one glyph is drawn for each character but the newlines |
| Graphics.BoxIndex | kernel/graphics.c:137-149 | a box cell's place in cursor_bg is below 64 |
| Graphics.BoxPlace | kernel/graphics.c:137-149 | place r * 8 + c is row r, column c |
| Graphics.Grab | kernel/graphics.c:144-154 | the saved background has 64 entries |
| Graphics.Paste | kernel/graphics.c:133-141 | putting a background back keeps the buffer's size |
| Graphics.PointedCell | kernel/graphics.c:169-177 | the box cell at row r, column c takes mouse_pointer's colour there, or keeps its own |
| Graphics.Stamp | kernel/graphics.c:169-177 | drawing the pointer keeps the buffer's size |
| Graphics.Restores | kernel/graphics.c:131-180 | putting back what was saved under the pointer undoes drawing it, so a moved pointer leaves no trace |
| Graphics.Screen.constructor | kernel/graphics.c:126-129 | the back buffer starts black and no pointer is drawn (see also line 10) |
| Graphics.Screen.PutPixel | kernel/graphics.c:19-23 | the buffer becomes Plotted |
| Graphics.Screen.DrawRect | kernel/graphics.c:25-31 | exactly the on-screen pixels of [x, x + w) x [y, y + h) take the colour; an empty rectangle changes nothing |
| Graphics.Screen.DrawLine | kernel/graphics.c:33-53 | the points plotted form a chain of single steps from (x1, y1) that stays within the rectangle the ends span and stops right after (x2, y2), at most abs(dx) + abs(dy) + 1 points, each within half a pixel of the ideal segment |
| Graphics.Screen.Clear | kernel/graphics.c:89-93 | every pixel takes the colour |
| Graphics.Screen.ScrollUp | kernel/graphics.c:101-119 | the in-place copy leaves Scrolled of the old buffer |
| Graphics.Screen.DrawString | kernel/graphics.c:73-87 | the glyphs drawn are Glyphs of the string's text |
| Graphics.Screen.DrawCursor | kernel/graphics.c:131-180 | the old background is put back if a pointer was drawn, the background at (x, y) is saved, and the pointer is drawn there |
| Graphics.Screen.Restore | kernel/graphics.c:133-141 | the first loop leaves Paste of the saved background |
| Graphics.Screen.Capture | kernel/graphics.c:144-154 | the second loop saves Grab of the buffer |
| Graphics.Screen.DrawPointer | kernel/graphics.c:169-177 | the third loop leaves Stamp of the buffer |
| Console.Offsets | kernel/kernel.c:30-35 | distinct cells have distinct offsets, all inside the 4000 bytes, and no character byte is another cell's attribute byte |
| Console.Written | kernel/kernel.c:30-35 | print_char keeps the size of video memory |
| Console.WrittenCells | kernel/kernel.c:30-35 | print_char puts the character and the attribute in the cell at (col, row) and changes no other cell |
| Console.BlankRow | kernel/kernel.c:84-86 | a cleared row is 160 bytes |
| Console.Scroll | kernel/kernel.c:72-88 | the scroll keeps the size of video memory |
| Console.ScrollCells | kernel/kernel.c:72-88 | after the scroll every cell of rows 0 to 23 holds what the cell below it held, and the last row is blank |
| Console.TabStop | kernel/kernel.c:61-63 | the tab moves to the next multiple of 4, one to four columns on |
| Console.Step | kernel/kernel.c:51-89 | one character keeps the cursor on the screen |
| Console.Run | kernel/kernel.c:49-91 | print_string keeps the cursor on the screen |
| Console.StepPrints | kernel/kernel.c:64-88 | a printable character lands at the cursor in white on black and the cursor moves one cell on; only the last cell of the screen scrolls, taking the character up with it |
| Console.StepErases | kernel/kernel.c:55-60 | a backspace at the start of a row does nothing; elsewhere it blanks the cell before the cursor and moves onto it |
| Console.StepMoves | kernel/kernel.c:52-88 | a newline or a tab writes no cell; a tab stops at a multiple of 4 within the row or starts the next row |
| Console.RunWritesLine | kernel/kernel.c:49-91 | text without control characters that fits in the rest of the row is written left to right from the cursor, which ends just after it |
| Console.Digits | kernel/kernel.c:98-101 | k hexadecimal digits, each from the table |
| Console.Hex | kernel/kernel.c:94-104 | "0x" and eight digits |
| Console.Pow16 | kernel/kernel.c:98-101 | a power of 16 is positive |
| Console.DigitValues | kernel/kernel.c:95-99 | each digit of the table reads back as its own value |
| Console.DigitsRoundTrip | kernel/kernel.c:98-101 | k digits of a number below 16^k read back as the number |
| Console.HexRoundTrip | kernel/kernel.c:94-104 | the eight digits print_hex prints read back as the 32-bit value |
| Console.HexInjective | kernel/kernel.c:94-104 | two 32-bit values never print alike |
| Console.ShiftInner | kernel/kernel.c:100 | shifting right by 4 and then by 4k bits is shifting by 4(k + 1) |
| Console.DigitsPrepend | kernel/kernel.c:98-101 | one more digit of n comes in front of the lower ones |
| Console.FormatHex | kernel/kernel.c:94-101 | the loop fills the buffer with Hex of the value and a NUL |
| Console.TabOverrunsRow | kernel/kernel.c:61-71 | as written, "\tAB" from column 78 puts the cursor on column 80 and 'B' overwrites 'A' in the next row's first cell; on the last row 'A' lands at offset 4000, past the screen |
| Console.TabStaysInRow | kernel/kernel.c:61-63 | with the tab wrapping at the end of the row, a tab from the last four columns starts the next row, and the cursor stays on the screen |
| Console.StepAsWritten | kernel/kernel.c:51-89 | one character as kernel.c handles it, with the tab unwrapped; its overrun is Console.TabOverrunsRow |
| Console.Screen.constructor | kernel/kernel.c:15-16 | the cursor starts at (0, 0) over the given video memory |
| Console.Screen.PrintChar | kernel/kernel.c:30-35 | video memory becomes Written |
| Console.Screen.ClearScreen | kernel/kernel.c:38-46 | every cell blank in white on black and the cursor home |
| Console.Screen.ClearRow | kernel/kernel.c:39-41 | clearing one row blanks its 80 cells and keeps the rows above it blank |
| Console.Screen.ScrollLines | kernel/kernel.c:72-88 | the copy and clear loops leave Scroll of the old memory |
| Console.Screen.MoveRowsUp | kernel/kernel.c:74-82 | every byte of rows 0 to 23 takes the byte one row below, and the last row is unchanged |
| Console.Screen.MoveRow | kernel/kernel.c:75-81 | the bytes of row r take the bytes one row below, the later rows unchanged |
| Console.Screen.MoveCell | kernel/kernel.c:76-80 | the two bytes of column c of row r take the two bytes of the cell below, the later bytes unchanged |
| Console.Screen.ClearLastRow | kernel/kernel.c:84-86 | the last row is blank and the others unchanged |
| Console.Screen.Put | kernel/kernel.c:51-89 | one pass of the loop leaves the display of Step |
| Console.Screen.PrintString | kernel/kernel.c:49-91 | the display becomes Run of the string's text |
| Console.Screen.PrintHex | kernel/kernel.c:94-104 | the display becomes Run of Hex of the value |

## Left out

**Hardware, I/O and files outside the model**

- `outb`, `inb`, `irq_handler` and `main` of `kernel/kernel.c` are not part of this model. They are port I/O, interrupt acknowledgement and the boot banner; the port bytes the drivers read are parameters instead.
- `kernel/ata.c`, `kernel/uart.c`, `kernel/idt.c` and `kernel/tss.c` are not part of this model. The ATA driver is only the block read/write interface behind `fs_read_block` and `fs_write_block`, as a map from block index to 512 bytes.
- Every diagnostic `print_string`, `print_hex` and `print_dec` inside the drivers is left out, because it is logging only.
  - Exceptions: the console itself, `print_hex`'s digits, `sys_write`'s output and `page_fault`'s labels are modelled.
- `switch_page_directory` and `get_current_directory` are left out: loading CR3, setting CR0.PG and `invlpg` are processor state. The `PageDirectory` object stands for the current directory.
- `page_fault`'s final halt loop is left out.
- `timer_init` is modelled only through the two divisor bytes it sends (`Timer.PitBytes`). The command byte 0x36 to port 0x43 is left out.
- Mouse.Mouse.Init models only the last steps of `mouse_init`. `mouse_wait`, `mouse_write` and `mouse_read`, and the controller handshake of `mouse_init`, are left out as port I/O with bounded busy-waits; Mouse.Mouse.Handle takes the status and data bytes as parameters instead of reading ports 0x64 and 0x60.
- The ARM branches of `kernel/keyboard.c`, `kernel/pmm.c` and `kernel/shell.c` are left out. Only the x86 build is modelled, with PHY_BASE = 0.
- Keyboard.KeyboardBuffer.Handler leaves out the echo of each key to the screen that `keyboard_handler` makes through `print_char`; it models only the buffer.
- `keyboard_init`, `shell_init`, `shell_prompt`, `shell_run`, `graphics_init` and `graphics_update_cursor`'s `graphics_present` are left out. They only print, loop forever or copy the back buffer to video memory.
- `graphics_present` is a plain copy to 0xA0000 and is left out.
- `draw_char` is not modelled: `kernel/font.h` is not part of this model. `Graphics.Screen.DrawString` returns the glyph calls it would make instead.
- `process_create`'s hand-built initial stack frame and saved registers are not modelled, nor is `process_switch`'s placeholder context switch. The `user_stack` and `page_directory` PCB fields are not modelled either.

**Getters**

These getters are not written as separate members, because they read a field the model exposes:
- `process_get_current`, `scheduler_get_switches` and `timer_get_ticks`;
- `mouse_get_x`, `mouse_get_y` and `mouse_get_buttons`;
- `get_total_memory` and `get_usable_memory`.

**Raw memory and parameters**

- `memory_init` reads the E820 map at 0x5000 and a 16-bit count at 0x5000 + 2400. The model takes both as parameters, with the count below 2^16.
- `pmm_init` takes the usable memory and the kernel's end address as parameters.
- `shell_execute`'s actions after dispatch are modelled elsewhere: the `fs_*` calls in `Fs`, `pmm` and heap statistics in their modules. `Shell.CommandLine.Execute` returns the command chosen. The printing and `cat`'s read loop over `fs_read` are not repeated there.
- The file-system size limit FS_MAX_FILESIZE is declared but no routine checks it. The model does not check it either.

**Preconditions stronger than the C code**

- FsSpec.PathOk, and with it FsSpec.FindEntry, FsSpec.Open, FsSpec.Create, FsSpec.Delete, Fs.FileSystem.Open, Fs.FileSystem.Create and Fs.FileSystem.Delete, requires paths of at most 63 bytes and without NUL. The C `strcmp`/`strcpy` in an entry would otherwise run past the 64-byte record into the next one; that memory is not modelled.
- FsSpec.BitmapFits, required by Fs.FileSystem.Delete, FsSpec.Delete and the allocation routines, asks for a volume of at most 4096 blocks. A larger `total_blocks` read from disk would index past the 512-byte `fs_bitmap`.
- FsIoProps.ReadEffect requires, for a handle open for reading, that its cached block matches the disk, its position is at most the file size, and position plus count stays below 2^32. A handle whose cached block disagrees with the disk, for example after a write to the same file through another handle, is not covered, and the model does not prove that every reachable handle meets these conditions.
- FsIoProps.WriteEffect requires, for a handle open for writing, a position at most the file size and inside the blocks the entry owns, an entry whose blocks lie inside the volume, and a write that stays below 2^32. `fs_seek` clamps the position to the size (FsDirProps.SeekClamps), so position <= size survives it. Staying inside the owned blocks would also need every entry's size to be at most 512 times its block count; the model does not prove that as an invariant, nor that every reachable handle meets these conditions.
- FsSpec.Read, FsSpec.Write, FsSpec.Seek, Fs.FileSystem.Read, Fs.FileSystem.Write and Fs.FileSystem.Seek return -1 and change nothing for an in-use handle whose entry pointer is NULL (an empty write in mode 'w' returns 0, as in C, since its loop never reads the entry). Such a handle exists (FsDirProps.StaleModeNullEntry); `fs_read` on it in mode 'r', `fs_write` in mode 'w' and `fs_seek` in any mode dereference NULL, which is not modelled (see Findings).
- FsDirProps.SeekClamps states the -1 of that NULL-entry handle in place of the C code's NULL dereference.
- Paging.PageDirectory.GetPage requires that, when a table must be made, pmm_alloc_page has a page to give. On an exhausted allocator the C code writes the blank table through a null pointer, which is not modelled.
- Heap.KernelHeap.Kfree requires null or a pointer `kmalloc` returned for a block still in the list. Freeing anything else is undefined in C.
- Heap.KernelHeap.Init requires the 64 KiB heap to end below 2^32.
- Tasks.ReadyQueue.Add requires the process not to be queued already. Adding a queued PCB again would cut the chain after it.
- Syscall.CanCall requires, for getpid and exit, current_process to be null or a live PCB. After a sys_exit with nobody else queued, current_process is left at the freed PCB, and a later getpid or exit would read freed memory, which is not modelled.
- TaskSpec.Switch skips the write of READY into the PCB being left when that PCB has been freed (see Findings); the C code writes into freed heap memory there, which the model does not represent.
- Graphics.Screen.DrawCursor requires x, y >= 0. Negative coordinates would read `back_buffer` out of bounds in the capture loop.
- Graphics.Screen.DrawRect and Graphics.Screen.DrawLine compute with unbounded integers. C `int` overflow of `x + w` or of the error term is not modelled.
- Shell.GetArg requires a buffer long enough for the argument. The 32-byte buffers of `shell_execute` are not (see Findings).
- Shell.CommandLine.FileName gives get_arg a buffer of 128 characters, as long as a command line, where `shell_execute` declares 32; the overflow of the 32-byte buffer is the finding `Shell.GetArgOverflowsFilename`.
- Syscall.WriteOut requires the buffer to hold count bytes.
- Pmm.PhysicalMemory.AllocPages leaves out the scan's test for a byte past `bitmap_size`. It never fires: every page below `total_pages` has its byte inside the bitmap.
- Paging.PageDirectory.Init models `paging_init` as corrected (see Findings): a two-page directory and an identity map of the first 4 MiB. It requires the allocator to have two free pages in a row and two more free pages.

**Corrected behaviour used by the rest of the model**

- Timer.Clock.Sleep and Syscall.HandleSleep use the intended millisecond conversion, ms / 10 ticks. The written one, a 32-bit ms * 100 divided by 1000, is `Timer.SleepTicksAsWritten` (see Findings).
- Pmm.PhysicalMemory.Init sets used_pages to the page count after filling the bitmap, then counts down per freed page. The written one leaves it at 0 first; that is `PmmSpec.InitAsWritten` (see Findings).
- Paging.PageDirectory.Init allocates the 8 KiB directory as two pages and maps virtual page i to physical page i below 4 MiB. The written one takes one page and maps each page to whatever frame `pmm_alloc_page` gives (see Findings).
- Console.Step and Console.Screen.Put use a tab that wraps at the end of the row, so the column stays below 80. The written one is `Console.StepAsWritten`, whose column can reach 80 (see Findings).
- Timer.Clock.Wait models `hlt` as one timer interrupt per wake-up. Other interrupts that wake the CPU are not modelled.

## Findings

| source | as written | input that shows it | evidently intended | confidence | as-written member | corrected member |
|---|---|---|---|---|---|---|
| kernel/paging.c:86-90 | `alloc_frame` takes its frame from `pmm_alloc_page` whatever the virtual address, so the loop logged as an identity map of the first 4 MiB maps each page to some free frame | page 1 (virtual 0x1000) after `pmm_init` has reserved the first MiB: its frame is a page above 1 MiB, never 1 | virtual page i below 4 MiB mapped to physical page i | high, not executed | PagingProps.AllocFrameNotIdentity | Paging.PageDirectory.IdentityMap |
| kernel/paging.c:81 | `page_directory_t` is 8 KiB (two arrays of 1024 words) but gets one 4 KiB page from `pmm_alloc_page` | directory at page p with page p + 1 free: the first `get_page(0, 1, ...)` allocates page p + 1, the `tables[]` half of the directory itself | a two-page allocation for the directory | high, not executed | PagingProps.DirectoryOverlapsFirstTable | Paging.PageDirectory.Init |
| kernel/paging.c:8-16 | `page_t` puts accessed at bit 3 and dirty at bit 4, where the MMU keeps PWT and PCD; the hardware's A and D bits are 5 and 6 | entry word 0x61 (present, accessed, dirty as the MMU sets them) reads through `page_t` as neither accessed nor dirty | the layout of table 4-6 of the Intel manual | high, not executed | PagingSpec.AsWrittenMissesHardwareBits | PagingSpec.DecodeEncode |
| kernel/timer.c:58-61 | `ms * 100` is an `unsigned long` (32-bit) product and wraps before the division by 1000 | `sleep_ms(50000000)` waits 705032 ticks (under 2 hours) instead of 5000000 | floor(ms / 10) ticks | high, not executed | Timer.SleepOverflow | Timer.SleepTicksAgree |
| kernel/shell.c:38-50 | `get_arg` copies the whole argument and its NUL with no bound into the 32-byte `filename` of `shell_execute`, while a line holds up to 127 characters | "cat " followed by 32 letters: 33 bytes are stored into `filename[32]` | the name bounded by the buffer, or a buffer as long as a line | high, not executed | Shell.GetArgOverflowsFilename | Shell.CommandLine.FileName |
| kernel/pmm.c:62-90 | after filling the bitmap with 0xFF, `pmm_init` never sets `used_pages`, then decrements it once per freed page; from boot (0) the counter wraps around | any usable memory of at least one page: `used_pages` ends different from the number of set bits | `used_pages = total_pages` after the fill, so the counter counts the used pages | high, not executed | PmmProps.InitAsWrittenMiscounts | PmmProps.InitEffect |
| kernel/kernel.c:61-71 | the tab sets `(col + 4) & ~3` with no wrap check, so the column can become 80 | "\tAB" from column 78 of row 0: 'A' is written at the offset of row 1 column 0 and 'B' overwrites it; on row 24 'A' lands at offset 4000, past video memory | a tab past the last tab stop goes to the next row | high, not executed | Console.TabOverrunsRow | Console.TabStaysInRow |
| kernel/process.c:122-133 | after `sys_exit` frees the current PCB in `process_terminate` it calls `schedule`, whose `process_switch` writes READY into `prev->state`, and `prev` is the freed PCB | a process other than pid 0 calls exit while another process is ready: the write lands in memory `kfree` has returned to the heap | skip the previous process when it has just been terminated, or switch before freeing | high, not executed | TaskProps.SwitchFromFreedPcb | Syscall.HandleExit |
| kernel/fs.c:75-82 | `fs_close` keeps the handle's mode, and `fs_open` with a mode other than "r" or "w" keeps that mode and stores `fs_find_entry(path)`, NULL for a missing name; `fs_read`, `fs_write` and `fs_seek` then dereference that NULL | open "a" in mode "w", close it, open "b" (missing) in mode "x": the handle is in use in mode 'w' with no entry, and `fs_write` reads `file->dirent->blocks` through NULL | refuse the handle: `fs_open` fails for an unknown mode or a missing entry, or read, write and seek return -1 on a handle without an entry | high, not executed | FsDirProps.StaleModeNullEntry | FsDirProps.NullEntryRefused |

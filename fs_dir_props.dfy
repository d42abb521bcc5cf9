/** Properties of the SFS directory table and handle operations
    (kernel/fs.c:16, 25-31, 72-82): what strcpy does to a 64-byte entry,
    creation and deletion, listing, the open modes, seek, and what a
    remount brings back after a flush. */
module FsDirProps {
  import opened Word
  import opened FsLayout
  import FsBitmap
  import opened FsSpec
  import opened FsAllocProps

  /** The first k bytes of an entry's record are its name's, for k <= 32. */
  lemma RecordPrefixIsName(e: DirEntry, k: nat)
    requires DirEntryOk(e) && k <= FS_MAX_FILENAME
    ensures EncodeEntry(e)[..k] == e.name[..k]
  {
    assert EncodeEntry(e)[..FS_MAX_FILENAME] == e.name;
  }

  /** A name of at most 31 bytes fits the 32-byte field with its
      terminator: the field holds the name, a NUL and the old field's tail,
      and the entry then compares equal to the name. */
  lemma ShortNameFits(e: DirEntry, path: seq<byte>, t: byte)
    requires DirEntryOk(e) && PathOk(path) && |path| < FS_MAX_FILENAME
    ensures var r := NewEntry(e, path, t);
      && r.name == path + [0] + e.name[|path| + 1..]
      && r.etype == t && r.size == 0 && r.firstBlock == 0 && r.blocks == 0
      && r.reserved == e.reserved
      && NameIs(r, path)
  {
    var c := CopyName(e, path);
    var m := path + [0] + EncodeEntry(e)[|path| + 1..];
    assert EncodeEntry(c) == m;
    assert c.name == m[..FS_MAX_FILENAME];
    assert m[..FS_MAX_FILENAME] == path + [0] + EncodeEntry(e)[|path| + 1..FS_MAX_FILENAME];
    assert EncodeEntry(e)[|path| + 1..FS_MAX_FILENAME] == e.name[|path| + 1..];
    assert c.reserved == m[OFF_RESERVED..];
    var r := NewEntry(e, path, t);
    assert r.name == c.name;
    RecordPrefixIsName(r, |path| + 1);
  }

  /** A name of 32 or more bytes runs past the name field; fs_open and
      fs_create then overwrite its tail with the type and the zero size, so
      the entry no longer compares equal to the name (unless the name is 33
      bytes whose last byte equals the type). */
  lemma LongNameLost(e: DirEntry, path: seq<byte>, t: byte)
    requires DirEntryOk(e) && PathOk(path) && |path| >= FS_MAX_FILENAME && t != 0
    ensures NameIs(NewEntry(e, path, t), path) <==> |path| == 33 && path[32] == t
  {
    var m := EncodeEntry(NewEntry(e, path, t));
    LongNameBytes(e, path, t);
    var L := |path|;
    if L == 32 {
      assert m[..L + 1][32] != (path + [0])[32];
    } else if L == 33 {
      if path[32] == t {
        assert m[..L + 1] == m[..32] + [m[32], m[33]];
        assert path + [0] == path[..32] + [path[32], 0];
      } else {
        assert m[..L + 1][32] != (path + [0])[32];
      }
    } else {
      assert m[..L + 1][33] != (path + [0])[33];
    }
  }

  /** The bytes of a new entry made from a name of 32 or more bytes: the
      first 32 of the name, then the type, then the low byte of size 0. */
  lemma LongNameBytes(e: DirEntry, path: seq<byte>, t: byte)
    requires DirEntryOk(e) && PathOk(path) && |path| >= FS_MAX_FILENAME
    ensures var m := EncodeEntry(NewEntry(e, path, t));
      m[..32] == path[..32] && m[32] == t && m[33] == 0
  {
    var c := CopyName(e, path);
    var r := NewEntry(e, path, t);
    var m := EncodeEntry(r);
    RecordPrefixIsName(c, 32);
    assert EncodeEntry(c)[..32] == path[..32];
    RecordPrefixIsName(r, 32);
    assert r.name == c.name;
    assert m[OFF_SIZE..OFF_FIRST] == LE32(0);
  }

  /** fs_create fails, changing nothing, exactly when the volume is not
      mounted, a non-EMPTY entry already has the name, or no EMPTY slot is
      left; otherwise only the first EMPTY slot changes, to the new entry. */
  lemma CreateEffect(v: Volume, path: seq<byte>, t: byte)
    requires VolumeOk(v) && PathOk(path)
    ensures var ok := v.mounted && FindEntry(v.dir, path, 0).None? && FindFree(v.dir, 0).Some?;
      && (ok ==> Create(v, path, t).1 == 0)
      && (!ok ==> Create(v, path, t) == (v, -1))
    ensures v.mounted && FindEntry(v.dir, path, 0).None? && FindFree(v.dir, 0).Some? ==>
      var s := FindFree(v.dir, 0).value;
      var r := Create(v, path, t).0;
      && r.dir[s] == NewEntry(v.dir[s], path, t)
      && OthersUnchanged(r.dir, v.dir, s)
  {
    if v.mounted && FindEntry(v.dir, path, 0).None? && FindFree(v.dir, 0).Some? {
      var s := FindFree(v.dir, 0).value;
      CreateInSlot(v, path, t, s);
    } else {
      CreateRefused(v, path, t);
    }
  }

  lemma CreateRefused(v: Volume, path: seq<byte>, t: byte)
    requires VolumeOk(v) && PathOk(path)
    requires !(v.mounted && FindEntry(v.dir, path, 0).None? && FindFree(v.dir, 0).Some?)
    ensures Create(v, path, t) == (v, -1)
  {
  }

  lemma CreateInSlot(v: Volume, path: seq<byte>, t: byte, s: nat)
    requires VolumeOk(v) && PathOk(path)
    requires v.mounted && FindEntry(v.dir, path, 0).None? && FindFree(v.dir, 0) == Some(s)
    ensures Create(v, path, t).1 == 0
    ensures Create(v, path, t).0.dir[s] == NewEntry(v.dir[s], path, t)
    ensures OthersUnchanged(Create(v, path, t).0.dir, v.dir, s)
  {
    var r := Create(v, path, t).0;
    assert r.dir == v.dir[s := NewEntry(v.dir[s], path, t)];
  }

  /** A file created under a name of at most 31 bytes with a non-EMPTY type
      is then found under that name, in the slot it was created in. */
  lemma CreateThenFind(v: Volume, path: seq<byte>, t: byte)
    requires VolumeOk(v) && PathOk(path) && |path| < FS_MAX_FILENAME && t != FS_TYPE_EMPTY
    requires Create(v, path, t).1 == 0
    ensures FindEntry(Create(v, path, t).0.dir, path, 0) == FindFree(v.dir, 0)
  {
    var r := Create(v, path, t).0;
    var s := FindFree(v.dir, 0).value;
    ShortNameFits(v.dir[s], path, t);
    assert Matches(r.dir, path, s);
    var found := FindEntry(r.dir, path, 0);
    assert found.Some?;
    if found.value != s {
      assert Matches(v.dir, path, found.value);
      assert false;
    }
  }

  /** fs_delete fails, changing nothing, when unmounted or when no entry has
      the name; otherwise it releases the entry's blocks (keeping the free
      count consistent) and leaves the slot EMPTY with an empty name and no
      blocks. */
  lemma DeleteEffect(v: Volume, path: seq<byte>)
    requires VolumeOk(v) && PathOk(path) && Consistent(v)
    ensures var (r, st) := Delete(v, path);
      && (st == 0 <==> v.mounted && FindEntry(v.dir, path, 0).Some?)
      && (st != 0 ==> st == -1 && r == v)
      && (st == 0 ==>
            var s := FindEntry(v.dir, path, 0).value;
            var e := v.dir[s];
            && r.dir[s].etype == FS_TYPE_EMPTY && r.dir[s].name[0] == 0 && r.dir[s].blocks == 0
            && OthersUnchanged(r.dir, v.dir, s)
            && Consistent(r)
            && (forall c :: 0 <= c < v.sb.totalBlocks ==>
                  (FsBitmap.Test(r.bitmap, c) <==> FsBitmap.Test(v.bitmap, c) && c !in Span(e.firstBlock, 0, e.blocks))))
  {
    var (r, st) := Delete(v, path);
    if st == 0 {
      var s := FindEntry(v.dir, path, 0).value;
      ReleaseEffect(v, s);
      var v1 := Release(v, s);
      assert r.sb == v1.sb && r.bitmap == v1.bitmap;
      assert r.dir == v1.dir[s := EmptiedEntry(v1.dir[s])];
    }
  }

  /** The slots holding FILE entries among the first n. */
  function FileSlots(dir: seq<DirEntry>, n: nat): set<nat>
    requires n <= |dir|
  {
    set i | 0 <= i < n && dir[i].etype == FS_TYPE_FILE
  }

  lemma {:induction false} CountFilesIsCard(dir: seq<DirEntry>, n: nat)
    requires n <= |dir|
    ensures CountFiles(dir, n) == |FileSlots(dir, n)|
  {
    if n > 0 {
      CountFilesIsCard(dir, n - 1);
      if dir[n - 1].etype == FS_TYPE_FILE {
        assert FileSlots(dir, n) == FileSlots(dir, n - 1) + {n - 1};
      } else {
        assert FileSlots(dir, n) == FileSlots(dir, n - 1);
      }
    }
  }

  /** fs_list returns -1 when unmounted and otherwise the number of FILE
      slots in the whole table, whatever path it is given. */
  lemma ListCountsFiles(v: Volume, path: seq<byte>)
    requires VolumeOk(v)
    ensures List(v, path) == if v.mounted then |FileSlots(v.dir, FS_MAX_FILES)| else -1
  {
    CountFilesIsCard(v.dir, FS_MAX_FILES);
  }

  /** fs_open fails, changing nothing, when the volume is not mounted or
      all 16 handles are in use. */
  lemma OpenNeedsMountAndHandle(v: Volume, path: seq<byte>, m: char)
    requires VolumeOk(v) && PathOk(path)
    requires !v.mounted || FreeHandle(v.handles, 0).None?
    ensures Open(v, path, m) == (v, None)
  {
  }

  /** Read mode opens any existing entry, whatever its type, in the first
      free handle, at position 0 with nothing cached; it fails without an
      entry. The directory is not touched. */
  lemma OpenForRead(v: Volume, path: seq<byte>)
    requires VolumeOk(v) && PathOk(path) && v.mounted && FreeHandle(v.handles, 0).Some?
    ensures var (r, f) := Open(v, path, 'r');
      var h := FreeHandle(v.handles, 0).value;
      var found := FindEntry(v.dir, path, 0);
      && (f.Some? <==> found.Some?)
      && r.dir == v.dir
      && (f.Some? ==>
            && f == Some(h) && r.handles[h].inUse && r.handles[h].mode == 'r'
            && r.handles[h].dirent == found && r.handles[h].position == 0
            && r.handles[h].bufferBlock == NO_BLOCK)
  {
  }

  /** Write mode reuses an existing entry as it is (no truncation) or
      creates a FILE entry in the first EMPTY slot, failing only when there
      is none. */
  lemma OpenForWrite(v: Volume, path: seq<byte>)
    requires VolumeOk(v) && PathOk(path) && v.mounted && FreeHandle(v.handles, 0).Some?
    ensures var (r, f) := Open(v, path, 'w');
      var h := FreeHandle(v.handles, 0).value;
      var found := FindEntry(v.dir, path, 0);
      && (f.None? <==> found.None? && FindFree(v.dir, 0).None?)
      && (found.Some? ==> r.dir == v.dir && r.handles[h].dirent == found)
      && (found.None? && f.Some? ==>
            var s := FindFree(v.dir, 0).value;
            && r.dir[s] == NewEntry(v.dir[s], path, FS_TYPE_FILE)
            && OthersUnchanged(r.dir, v.dir, s)
            && r.handles[h].dirent == Some(s))
      && (f.Some? ==>
            && f == Some(h) && r.handles[h].inUse && r.handles[h].mode == 'w'
            && r.handles[h].position == 0 && r.handles[h].bufferBlock == NO_BLOCK)
  {
    var h := FreeHandle(v.handles, 0).value;
    var found := FindEntry(v.dir, path, 0);
    assert Open(v, path, 'w') == OpenIn(v, h, path, found, 'w');
    if found.None? && FindFree(v.dir, 0).Some? {
      OpenCreates(v, path, h, FindFree(v.dir, 0).value);
    }
  }

  lemma OpenCreates(v: Volume, path: seq<byte>, h: nat, s: nat)
    requires VolumeOk(v) && PathOk(path) && h < NUM_HANDLES && FindFree(v.dir, 0) == Some(s)
    ensures var r := OpenIn(v, h, path, None, 'w').0;
      && r.dir[s] == NewEntry(v.dir[s], path, FS_TYPE_FILE)
      && OthersUnchanged(r.dir, v.dir, s)
      && r.handles[h] == Opened(v.handles[h], 'w', Some(s))
  {
    var v1 := Install(v, s, NewEntry(v.dir[s], path, FS_TYPE_FILE));
    assert OpenIn(v, h, path, None, 'w').0 == Attach(v1, h, 'w', Some(s));
  }

  /** Any other mode still hands out a handle: it keeps whatever mode the
      handle had before, and its entry is NULL when the name is not found. */
  lemma OpenOtherMode(v: Volume, path: seq<byte>, m: char)
    requires VolumeOk(v) && PathOk(path) && v.mounted && FreeHandle(v.handles, 0).Some?
    requires m != 'r' && m != 'w'
    ensures var (r, f) := Open(v, path, m);
      var h := FreeHandle(v.handles, 0).value;
      && f == Some(h) && r.dir == v.dir
      && r.handles[h].mode == v.handles[h].mode
      && r.handles[h].dirent == FindEntry(v.dir, path, 0)
  {
  }

  /** fs_seek sets the position to the offset clamped to the entry's size,
      and fails, changing nothing, on a NULL or released handle or one
      without an entry. */
  lemma SeekClamps(v: Volume, f: Option<nat>, offset: nat)
    requires VolumeOk(v) && HandleRef(f) && IsU32(offset)
    ensures var (r, st) := Seek(v, f, offset);
      && (st == 0 <==> f.Some? && v.handles[f.value].inUse && v.handles[f.value].dirent.Some?)
      && (st != 0 ==> r == v && st == -1)
      && (st == 0 ==>
            var h := v.handles[f.value];
            && r.handles[f.value].position <= v.dir[h.dirent.value].size
            && r.handles[f.value].position <= offset
            && (offset <= v.dir[h.dirent.value].size ==> r.handles[f.value].position == offset)
            && r == v.(handles := r.handles) && |r.handles| == NUM_HANDLES
            && r.handles[f.value] == h.(position := r.handles[f.value].position)
            && (forall g :: 0 <= g < NUM_HANDLES && g != f.value ==> r.handles[g] == v.handles[g]))
  {
  }

  /** fs_close leaves a handle's mode as it was, and fs_open with a mode
      other than "r" or "w" keeps that mode and attaches whatever
      fs_find_entry returns. So a handle opened with mode m on an existing
      name, closed, and handed out again with mode 'x' for a missing name
      is in use, still in mode m, with a NULL entry: the handle on which
      fs_read (m = 'r'), fs_write (m = 'w') and fs_seek (either) dereference
      NULL as written. */
  lemma StaleModeNullEntry(v: Volume, p: seq<byte>, q: seq<byte>, m: char)
    requires VolumeOk(v) && v.mounted && PathOk(p) && PathOk(q) && (m == 'r' || m == 'w')
    requires FreeHandle(v.handles, 0).Some?
    requires FindEntry(v.dir, p, 0).Some? && FindEntry(v.dir, q, 0).None?
    ensures var (v1, h) := Open(v, p, m);
      && h.Some?
      && var v2 := Close(v1, h).0;
      var (v3, h3) := Open(v2, q, 'x');
      && h3 == h && v3.handles[h.value].inUse && v3.handles[h.value].mode == m
      && v3.handles[h.value].dirent.None? && !EntryAttached(v3, h3)
  {
    var h0 := FreeHandle(v.handles, 0).value;
    var v1 := Open(v, p, m).0;
    assert v1 == Attach(v, h0, m, FindEntry(v.dir, p, 0));
    var v2 := Close(v1, Some(h0)).0;
    assert v2.handles == v1.handles[h0 := v1.handles[h0].(inUse := false)];
    var g := FreeHandle(v2.handles, 0);
    assert g == Some(h0) by {
      assert !v2.handles[h0].inUse;
      assert forall j :: 0 <= j < h0 ==> v2.handles[j].inUse;
    }
    assert v2.dir == v.dir;
  }

  /** The refusal the model puts in place of those NULL dereferences: on an
      in-use handle without an entry, fs_read, fs_seek and a non-empty
      fs_write return -1 and change nothing. An empty fs_write in mode 'w'
      never reaches the entry and returns 0, as the C code does. */
  lemma NullEntryRefused(v: Volume, f: nat, size: nat, buf: seq<byte>, offset: nat)
    requires VolumeOk(v) && f < NUM_HANDLES && IsU32(size) && |buf| < U32 && IsU32(offset)
    requires v.handles[f].inUse && v.handles[f].dirent.None?
    ensures !EntryAttached(v, Some(f))
    ensures Read(v, Some(f), size) == (v, [], -1)
    ensures Write(v, Some(f), buf) == (v, if |buf| == 0 && v.handles[f].mode == 'w' then 0 else -1)
    ensures Seek(v, Some(f), offset) == (v, -1)
  {
  }
}

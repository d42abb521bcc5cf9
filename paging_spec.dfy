/** Two-level 32-bit paging as kernel/paging.c keeps it (section 4.3 of the
    Intel 64 and IA-32 Architectures Software Developer's Manual, Volume
    3A), as values: page-table entries, the split of a linear address into
    directory and table indices, the entry updates of alloc_frame,
    free_frame, map_page and unmap_page, the word the MMU reads for an
    entry, and the decoding of a page-fault error code. */
module PagingSpec {
  import opened Word
  import opened FsBitmap
  import opened PmmSpec

  /** Entries in a page directory and in a page table. */
  const ENTRIES: nat := 1024
  /** A 20-bit frame field: frames below 2^20. */
  const FRAMES: nat := 0x10_0000
  /** Present, writable and user, or-ed into tables_physical. */
  const TABLE_FLAGS: nat := 7
  /** sizeof(page_directory_t): 1024 four-byte physical entries followed by
      1024 four-byte table pointers. */
  const DIRECTORY_BYTES: nat := 2 * ENTRIES * 4
  /** Where the tables[] half of the directory begins. */
  const TABLES_OFFSET: nat := ENTRIES * 4

  /** The fields of page_t the code uses. The seven `unused` bits are
      never written and are left out. */
  datatype Pte = Pte(present: bool, rw: bool, user: bool, accessed: bool,
                     dirty: bool, frame: nat)

  /** The directory slot of a linear address: (address / 4096) / 1024. */
  function DirIndex(v: nat): nat {
    v / PAGE_SIZE / ENTRIES
  }

  /** The entry within its table: (address / 4096) mod 1024. */
  function TableIndex(v: nat): nat {
    v / PAGE_SIZE % ENTRIES
  }

  /** Both indices of a 32-bit address are below 1024, and together with
      the offset within the page they give the address back. */
  lemma IndicesSplit(v: nat)
    requires IsU32(v)
    ensures DirIndex(v) < ENTRIES && TableIndex(v) < ENTRIES
    ensures v == (DirIndex(v) * ENTRIES + TableIndex(v)) * PAGE_SIZE + v % PAGE_SIZE
  {
  }

  /** Two addresses with the same indices lie in the same 4 KiB page. */
  lemma SameIndicesSamePage(u: nat, v: nat)
    requires IsU32(u) && IsU32(v)
    requires DirIndex(u) == DirIndex(v) && TableIndex(u) == TableIndex(v)
    ensures u / PAGE_SIZE == v / PAGE_SIZE
  {
    IndicesSplit(u);
    IndicesSplit(v);
  }

  // -------------------------------------------------------------------
  // Entry updates
  // -------------------------------------------------------------------

  /** The entry get_page writes into every slot of a fresh table; accessed
      and dirty keep whatever the page held before. */
  function Blank(e: Pte): (r: Pte)
    ensures !r.present && r.rw && !r.user && r.frame == 0
    ensures r.accessed == e.accessed && r.dirty == e.dirty
  {
    e.(present := false, rw := true, user := false, frame := 0)
  }

  /** A table of 1024 entries as get_page leaves it. */
  predicate BlankTable(t: seq<Pte>) {
    |t| == ENTRIES && forall k :: 0 <= k < |t| ==> !t[k].present && t[k].rw && !t[k].user && t[k].frame == 0
  }

  /** A table of 1024 entries whose frames fit the 20-bit field. */
  predicate TableOk(t: seq<Pte>) {
    |t| == ENTRIES && forall k :: 0 <= k < |t| ==> t[k].frame < FRAMES
  }

  /** tables_physical's `addr | 0x7`, on naturals: the low three bits set. */
  function OrFlags(a: nat): (r: nat)
    ensures a % 8 == 0 ==> r == a + TABLE_FLAGS
  {
    a - a % 8 + TABLE_FLAGS
  }

  /** map_page's update of an entry. */
  function MapEntry(e: Pte, physical: nat, isKernel: bool, isWriteable: bool): (r: Pte)
  {
    e.(present := true, rw := isWriteable, user := !isKernel, frame := physical / PAGE_SIZE)
  }

  /** unmap_page's update of an entry: only present is cleared. */
  function UnmapEntry(e: Pte): (r: Pte)
  {
    e.(present := false)
  }

  /** alloc_frame: an entry that already has a frame is left alone;
      otherwise it is mapped to the page pmm_alloc_page hands out, whatever
      the virtual address of the entry. */
  function AllocFrame(e: Pte, s: PageMap, isKernel: bool, isWriteable: bool): (r: (Pte, PageMap))
    requires MapOk(s)
  {
    if e.frame != 0 then (e, s)
    else
      var (s1, a) := PmmSpec.AllocPage(s);
      (MapEntry(e, a, isKernel, isWriteable), s1)
  }

  /** free_frame: an entry without a frame is left alone; otherwise the
      frame goes back to pmm_free_page and the field is zeroed, present
      untouched. */
  function FreeFrame(e: Pte, s: PageMap): (r: (Pte, PageMap))
    requires MapOk(s)
  {
    if e.frame == 0 then (e, s)
    else (e.(frame := 0), SetFree(s, e.frame * PAGE_SIZE))
  }

  // -------------------------------------------------------------------
  // The word the MMU reads
  // -------------------------------------------------------------------

  /** Bit log2(m) of w, for m a power of two. */
  function Flag(w: nat, m: nat): bool
    requires m > 0
  {
    w / m % 2 == 1
  }

  function B(b: bool, m: nat): nat {
    if b then m else 0
  }

  /** A page-table entry in the layout of table 4-6 of the manual: P at
      bit 0, R/W at 1, U/S at 2, A at 5, D at 6, the frame in bits 12-31;
      PWT, PCD and the remaining bits 0. */
  function Encode(e: Pte): (w: nat)
  {
    e.frame * PAGE_SIZE + B(e.dirty, 64) + B(e.accessed, 32) + B(e.user, 4) + B(e.rw, 2) + B(e.present, 1)
  }

  /** The fields the MMU reads from an entry word. */
  function Decode(w: nat): Pte {
    var low := w % PAGE_SIZE;
    Pte(Flag(low, 1), Flag(low, 2), Flag(low, 4), Flag(low, 32), Flag(low, 64), w / PAGE_SIZE)
  }

  /** The flags of a word are its low twelve bits; the frame is the rest. */
  lemma Split(frame: nat, low: nat)
    requires low < PAGE_SIZE
    ensures (frame * PAGE_SIZE + low) % PAGE_SIZE == low
    ensures (frame * PAGE_SIZE + low) / PAGE_SIZE == frame
  {
  }

  /** Encoding an entry and reading it back as the MMU does gives the entry. */
  lemma DecodeEncode(e: Pte)
    ensures Decode(Encode(e)) == e
  {
    Split(e.frame, B(e.dirty, 64) + B(e.accessed, 32) + B(e.user, 4) + B(e.rw, 2) + B(e.present, 1));
  }

  /** page_t as declared: accessed at bit 3 and dirty at bit 4, where the
      hardware keeps PWT and PCD. */
  function EncodeAsWritten(e: Pte): (w: nat)
  {
    e.frame * PAGE_SIZE + B(e.dirty, 16) + B(e.accessed, 8) + B(e.user, 4) + B(e.rw, 2) + B(e.present, 1)
  }

  /** page_t as declared, read back: accessed from bit 3, dirty from bit 4. */
  function DecodeAsWritten(w: nat): Pte {
    var low := w % PAGE_SIZE;
    Pte(Flag(low, 1), Flag(low, 2), Flag(low, 4), Flag(low, 8), Flag(low, 16), w / PAGE_SIZE)
  }

  /** What the declared bit-field stores as accessed and dirty, the MMU
      reads as write-through (PWT) and cache-disable (PCD); its own
      accessed and dirty bits read 0. */
  lemma AsWrittenLayoutMisplaced(e: Pte)
    ensures var low := EncodeAsWritten(e) % PAGE_SIZE;
      Flag(low, 8) == e.accessed && Flag(low, 16) == e.dirty
    ensures Decode(EncodeAsWritten(e)) == e.(accessed := false, dirty := false)
  {
    Split(e.frame, B(e.dirty, 16) + B(e.accessed, 8) + B(e.user, 4) + B(e.rw, 2) + B(e.present, 1));
  }

  /** An entry word the MMU has marked accessed and dirty (0x61: present,
      A, D) reads through the declared bit-field as neither. */
  lemma AsWrittenMissesHardwareBits()
    ensures Decode(0x61).accessed && Decode(0x61).dirty
    ensures !DecodeAsWritten(0x61).accessed && !DecodeAsWritten(0x61).dirty
  {
  }

  // -------------------------------------------------------------------
  // Translation
  // -------------------------------------------------------------------

  /** The entry of v, when v's table exists. */
  function Lookup(pages: map<nat, seq<Pte>>, v: nat): (r: Option<Pte>)
  {
    var d := DirIndex(v);
    if d in pages && TableIndex(v) < |pages[d]| then Some(pages[d][TableIndex(v)]) else None
  }

  /** What the MMU makes of v: the entry word of v is read, and when it is
      present the frame it names with v's offset within the page. */
  function Translate(pages: map<nat, seq<Pte>>, v: nat): (r: Option<nat>)
  {
    match Lookup(pages, v)
    case None => None
    case Some(e) =>
      var w := Decode(Encode(e));
      if w.present then Some(w.frame * PAGE_SIZE + v % PAGE_SIZE) else None
  }

  /** The MMU's view agrees with the entry: a present entry maps v to its
      frame at v's offset, an absent one maps nothing. */
  lemma TranslateEntry(pages: map<nat, seq<Pte>>, v: nat)
    ensures Translate(pages, v) ==
      (match Lookup(pages, v)
       case None => None
       case Some(e) => if e.present then Some(e.frame * PAGE_SIZE + v % PAGE_SIZE) else None)
  {
    match Lookup(pages, v)
    case None =>
    case Some(e) => DecodeEncode(e);
  }

  // -------------------------------------------------------------------
  // Page-fault error code
  // -------------------------------------------------------------------

  /** The low four bits of the error code pushed for a page fault (section
      4.7 of the manual): P (0: the page was not present), W/R (1: a
      write), U/S (1: user mode), RSVD (1: a reserved bit was set). */
  datatype FaultCode = FaultCode(protection: bool, write: bool, user: bool, reserved: bool)

  function DecodeFault(code: nat): FaultCode {
    var low := code % 16;
    FaultCode(Flag(low, 1), Flag(low, 2), Flag(low, 4), Flag(low, 8))
  }

  function EncodeFault(f: FaultCode): nat {
    B(f.reserved, 8) + B(f.user, 4) + B(f.write, 2) + B(f.protection, 1)
  }

  /** Decoding keeps exactly the low four bits of the code. */
  lemma EncodeDecodeFault(code: nat)
    ensures EncodeFault(DecodeFault(code)) == code % 16
  {
    var low := code % 16;
    var b3, b2, b1, b0 := low / 8, low / 4 % 2, low / 2 % 2, low % 2;
    assert low == 8 * b3 + 4 * b2 + 2 * b1 + b0;
  }

  /** An error code read back gives the fault it encodes. */
  lemma DecodeEncodeFault(f: FaultCode)
    ensures DecodeFault(EncodeFault(f)) == f
  {
  }

  /** The words page_fault prints before "at", in order: "Present " when
      bit 0 is clear, then "Read-only ", "User-mode " and "Reserved " for
      bits 1, 2 and 3. */
  function FaultLabels(code: nat): (r: seq<string>)
  {
    var low := code % 16;
    (if low % 2 == 0 then ["Present "] else [])
    + (if low / 2 % 2 == 1 then ["Read-only "] else [])
    + (if low / 4 % 2 == 1 then ["User-mode "] else [])
    + (if low / 8 % 2 == 1 then ["Reserved "] else [])
  }

  /** Each label stands for one bit of the error code: "Present " for a
      fault on a page that was not present, "Read-only " for a write,
      "User-mode " for a user access, "Reserved " for a reserved bit. */
  lemma FaultLabelsMeaning(code: nat)
    ensures var f := DecodeFault(code);
      && ("Present " in FaultLabels(code) <==> !f.protection)
      && ("Read-only " in FaultLabels(code) <==> f.write)
      && ("User-mode " in FaultLabels(code) <==> f.user)
      && ("Reserved " in FaultLabels(code) <==> f.reserved)
  {
  }
}

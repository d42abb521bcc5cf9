/** The memory census of kernel/memory.c: the names of the address-range
    types of the BIOS E820 map (section 15 of the ACPI specification), and
    memory_init's pass over the map the boot loader leaves at 0x5000. The
    map is given as the sequence of its entries and the count the boot
    loader stored after them, the `unsigned short` at 0x5000 + 24 * 100.
    The three counters are `unsigned long`, 32 bits on i386, so their sums
    wrap at 2^32. */
module Memory {
  import opened Word

  /** The most entries memory_init reads. */
  const MAX_ENTRIES: nat := 100
  /** What is assumed without a map: 32 MiB. */
  const FALLBACK: nat := 32 * 1024 * 1024
  /** The E820 type of usable RAM. */
  const USABLE: nat := 1

  /** The names memory_type_names holds, in index order. */
  const NAMES: seq<string> := ["Unknown", "Usable", "Reserved", "ACPI Reclaimable", "ACPI NVS", "Bad Memory"]

  /** get_memory_type_name: types 1 to 5 have their own name, 0 and
      anything above 5 are "Unknown". */
  function TypeName(t: nat): (r: string)
    requires IsU32(t)
    ensures r in NAMES
    ensures r == "Unknown" <==> t == 0 || t > 5
  {
    if t == 0 || t > 5 then NAMES[0] else NAMES[t]
  }

  /** Two known types never share a name. */
  lemma TypeNamesDistinct(a: nat, b: nat)
    requires 1 <= a <= 5 && 1 <= b <= 5
    ensures TypeName(a) == TypeName(b) <==> a == b
  {
  }

  /** memory_map_entry_t: 64-bit base and length, 32-bit type and ACPI
      attributes. */
  datatype Entry = Entry(base: nat, length: nat, kind: nat, acpi: nat)

  /** How many entries the loop visits: the count, but never more than
      100. */
  function Processed(count: nat): (r: nat)
    ensures r <= MAX_ENTRIES && r <= count
    ensures r == count || r == MAX_ENTRIES
  {
    if count < MAX_ENTRIES then count else MAX_ENTRIES
  }

  /** What an entry adds to the counters: `(unsigned long)(length &
      0xFFFFFFFF)`, the low half of its length. */
  function Counted(e: Entry): (r: nat)
    ensures r < U32 && (e.length - r) % U32 == 0
  {
    e.length % U32
  }

  /** The counted lengths of all entries, of the usable ones and of the
      others, in exact arithmetic. */
  function Total(es: seq<Entry>): nat {
    if es == [] then 0 else Total(es[..|es| - 1]) + Counted(es[|es| - 1])
  }

  function Usable(es: seq<Entry>): nat {
    if es == [] then 0
    else Usable(es[..|es| - 1]) + (if es[|es| - 1].kind == USABLE then Counted(es[|es| - 1]) else 0)
  }

  function Reserved(es: seq<Entry>): nat {
    if es == [] then 0
    else Reserved(es[..|es| - 1]) + (if es[|es| - 1].kind != USABLE then Counted(es[|es| - 1]) else 0)
  }

  /** One more entry adds its counted length to the total and to the
      usable or the reserved sum. */
  lemma CountOne(es: seq<Entry>, e: Entry)
    ensures Total(es + [e]) == Total(es) + Counted(e)
    ensures Usable(es + [e]) == Usable(es) + (if e.kind == USABLE then Counted(e) else 0)
    ensures Reserved(es + [e]) == Reserved(es) + (if e.kind != USABLE then Counted(e) else 0)
  {
    assert (es + [e])[..|es|] == es;
  }

  /** Every counted byte is either usable or reserved. */
  lemma {:induction false} TotalSplits(es: seq<Entry>)
    ensures Total(es) == Usable(es) + Reserved(es)
  {
    if es != [] {
      TotalSplits(es[..|es| - 1]);
    }
  }

  /** The length's high half is never counted: an entry of 4 GiB counts
      nothing, one of 4 GiB + 4 KiB counts 4 KiB. */
  lemma HighHalfIgnored(base: nat, kind: nat)
    ensures Counted(Entry(base, 0x1_0000_0000, kind, 0)) == 0
    ensures Counted(Entry(base, 0x1_0000_1000, kind, 0)) == 0x1000
  {
  }

  /** A counter below 2^32 that differs from x by a multiple of 2^32 is x
      wrapped. */
  lemma Reduce(r: nat, k: int, x: int)
    requires IsU32(r) && r + U32 * k == x
    ensures r == Wrap32(x)
  {
    assert x % U32 == (r + U32 * k) % U32;
  }

  /** Counters that differ from the exact sums by multiples of 2^32 hold
      the wrapped sums, and stay balanced when they started balanced. */
  lemma Settle(t: nat, u: nat, r: nat, t0: nat, u0: nat, r0: nat, kt: int, ku: int, kr: int, es: seq<Entry>)
    requires IsU32(t) && IsU32(u) && IsU32(r) && IsU32(t0) && IsU32(u0) && IsU32(r0)
    requires t + U32 * kt == t0 + Total(es)
    requires u + U32 * ku == u0 + Usable(es)
    requires r + U32 * kr == r0 + Reserved(es)
    ensures t == Wrap32(t0 + Total(es)) && u == Wrap32(u0 + Usable(es)) && r == Wrap32(r0 + Reserved(es))
    ensures t0 == Wrap32(u0 + r0) ==> t == Wrap32(u + r)
  {
    Reduce(t, kt, t0 + Total(es));
    Reduce(u, ku, u0 + Usable(es));
    Reduce(r, kr, r0 + Reserved(es));
    if t0 == Wrap32(u0 + r0) {
      TotalSplits(es);
      var k0 := if t0 == u0 + r0 then 0 else 1;
      assert t0 + U32 * k0 == u0 + r0;
      Reduce(t, kt - ku - kr + k0, u + r);
    }
  }

  /** memory.c's statistics. */
  class MemoryMap {
    var total: nat
    var usable: nat
    var reserved: nat
    var entries: nat

    ghost predicate Valid()
      reads this
    {
      IsU32(total) && IsU32(usable) && IsU32(reserved) && entries < 0x1_0000
    }

    /** The total is the usable plus the reserved memory, up to the
        wrap-around of the counters. */
    ghost predicate Balanced()
      reads this
    {
      total == Wrap32(usable + reserved)
    }

    /** The statics start at zero. */
    constructor ()
      ensures Valid() && Balanced()
      ensures total == 0 && usable == 0 && reserved == 0 && entries == 0
    {
      total, usable, reserved, entries := 0, 0, 0, 0;
    }

    /** memory_init over the map. Without entries, the total and the
        usable memory become 32 MiB and the reserved count stays; with
        entries, the first min(count, 100) are added on. */
    method Init(regions: seq<Entry>, count: nat)
      requires Valid() && count < 0x1_0000 && Processed(count) <= |regions|
      modifies this
      ensures Valid() && entries == count
      ensures count == 0 ==>
        total == FALLBACK && usable == FALLBACK && reserved == old(reserved)
      ensures count > 0 ==>
        var es := regions[..Processed(count)];
        && total == Wrap32(old(total) + Total(es))
        && usable == Wrap32(old(usable) + Usable(es))
        && reserved == Wrap32(old(reserved) + Reserved(es))
      ensures count > 0 && old(Balanced()) ==> Balanced()
    {
      entries := count;
      if entries == 0 {
        total := FALLBACK;
        usable := FALLBACK;
        return;
      }
      ghost var t0, u0, r0 := total, usable, reserved;
      ghost var kt, ku, kr := Scan(regions, count);
      Settle(total, usable, reserved, t0, u0, r0, kt, ku, kr, regions[..Processed(count)]);
    }

    /** memory_init's loop over the entries, for a nonzero count: each
        counter ends a multiple of 2^32 away from its exact sum. */
    method Scan(regions: seq<Entry>, count: nat) returns (ghost kt: int, ghost ku: int, ghost kr: int)
      requires Valid() && 0 < count < 0x1_0000 && entries == count && Processed(count) <= |regions|
      modifies this
      ensures Valid() && entries == count
      ensures total + U32 * kt == old(total) + Total(regions[..Processed(count)])
      ensures usable + U32 * ku == old(usable) + Usable(regions[..Processed(count)])
      ensures reserved + U32 * kr == old(reserved) + Reserved(regions[..Processed(count)])
    {
      var i := 0;
      kt, ku, kr := 0, 0, 0;
      while i < entries && i < MAX_ENTRIES
        invariant i <= Processed(count) && entries == count && Valid()
        invariant total + U32 * kt == old(total) + Total(regions[..i])
        invariant usable + U32 * ku == old(usable) + Usable(regions[..i])
        invariant reserved + U32 * kr == old(reserved) + Reserved(regions[..i])
      {
        var e := regions[i];
        assert regions[..i + 1] == regions[..i] + [e];
        CountOne(regions[..i], e);
        ghost var t, u, r := total, usable, reserved;
        Count(e);
        kt := kt + (if total == t + Counted(e) then 0 else 1);
        ku := ku + (if usable == u + (if e.kind == USABLE then Counted(e) else 0) then 0 else 1);
        kr := kr + (if reserved == r + (if e.kind != USABLE then Counted(e) else 0) then 0 else 1);
        i := i + 1;
      }
      assert i == Processed(count);
    }

    /** The loop body of memory_init: the entry's counted length goes to
        the total and to the usable or the reserved count, each sum
        wrapping at 2^32. */
    method Count(e: Entry)
      requires Valid()
      modifies this
      ensures Valid() && entries == old(entries)
      ensures total == Wrap32(old(total) + Counted(e))
      ensures e.kind == USABLE ==> usable == Wrap32(old(usable) + Counted(e)) && reserved == old(reserved)
      ensures e.kind != USABLE ==> reserved == Wrap32(old(reserved) + Counted(e)) && usable == old(usable)
      ensures total == old(total) + Counted(e) || total == old(total) + Counted(e) - U32
      ensures usable == old(usable) + (if e.kind == USABLE then Counted(e) else 0)
        || usable == old(usable) + (if e.kind == USABLE then Counted(e) else 0) - U32
      ensures reserved == old(reserved) + (if e.kind != USABLE then Counted(e) else 0)
        || reserved == old(reserved) + (if e.kind != USABLE then Counted(e) else 0) - U32
    {
      var length := e.length % U32;
      total := Wrap32(total + length);
      if e.kind == USABLE {
        usable := Wrap32(usable + length);
      } else {
        reserved := Wrap32(reserved + length);
      }
    }
  }
}

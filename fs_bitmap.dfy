/** The block bitmap of kernel/fs.c: one bit per block, block b at bit b % 8
    of byte b / 8, and the count of set bits that free_blocks mirrors. */
module FsBitmap {
  import opened Word

  /** The bitmap is one block of 512 bytes, so it covers 4096 blocks. */
  const BITMAP_BYTES: nat := 512
  const BITMAP_BITS: nat := 8 * BITMAP_BYTES

  /** 1 << k, for a bit position k of a byte. */
  function Mask(k: nat): byte
    requires k < 8
  {
    match k
    case 0 => 0x01 case 1 => 0x02 case 2 => 0x04 case 3 => 0x08
    case 4 => 0x10 case 5 => 0x20 case 6 => 0x40 case _ => 0x80
  }

  /** ~(1 << k) truncated to a byte. */
  function NotMask(k: nat): byte
    requires k < 8
  {
    match k
    case 0 => 0xFE case 1 => 0xFD case 2 => 0xFB case 3 => 0xF7
    case 4 => 0xEF case 5 => 0xDF case 6 => 0xBF case _ => 0x7F
  }

  /** Bit k of byte x. */
  predicate Bit(x: byte, k: nat)
    requires k < 8
  {
    x & Mask(k) != 0
  }

  /** fs_bitmap_test: is the bit of block b set? */
  predicate Test(bm: seq<byte>, b: nat)
    requires b < 8 * |bm|
  {
    Bit(bm[b / 8], b % 8)
  }

  /** fs_bitmap_set: only block b's bit changes, and it ends up set. */
  function Set(bm: seq<byte>, b: nat): (r: seq<byte>)
    requires b < 8 * |bm|
    ensures |r| == |bm| && Test(r, b)
    ensures forall c :: 0 <= c < 8 * |bm| && c != b ==> Test(r, c) == Test(bm, c)
  {
    SetByte(bm, b);
    bm[b / 8 := bm[b / 8] | Mask(b % 8)]
  }

  lemma SetByte(bm: seq<byte>, b: nat)
    requires b < 8 * |bm|
    ensures var r := bm[b / 8 := bm[b / 8] | Mask(b % 8)];
      && Test(r, b)
      && forall c :: 0 <= c < 8 * |bm| && c != b ==> Test(r, c) == Test(bm, c)
  {
    forall c | 0 <= c < 8 * |bm| && c != b
      ensures Test(bm[b / 8 := bm[b / 8] | Mask(b % 8)], c) == Test(bm, c)
    {
      SetOther(bm, b, c);
    }
    OrBit(bm[b / 8], b % 8, b % 8);
  }

  lemma SetOther(bm: seq<byte>, b: nat, c: nat)
    requires b < 8 * |bm| && c < 8 * |bm| && c != b
    ensures Test(bm[b / 8 := bm[b / 8] | Mask(b % 8)], c) == Test(bm, c)
  {
    if c / 8 == b / 8 {
      SameByteOtherBit(b, c);
      OrBit(bm[b / 8], b % 8, c % 8);
    }
  }

  /** fs_bitmap_clear: only block b's bit changes, and it ends up clear. */
  function Clear(bm: seq<byte>, b: nat): (r: seq<byte>)
    requires b < 8 * |bm|
    ensures |r| == |bm| && !Test(r, b)
    ensures forall c :: 0 <= c < 8 * |bm| && c != b ==> Test(r, c) == Test(bm, c)
  {
    ClearByte(bm, b);
    bm[b / 8 := bm[b / 8] & NotMask(b % 8)]
  }

  lemma ClearByte(bm: seq<byte>, b: nat)
    requires b < 8 * |bm|
    ensures var r := bm[b / 8 := bm[b / 8] & NotMask(b % 8)];
      && !Test(r, b)
      && forall c :: 0 <= c < 8 * |bm| && c != b ==> Test(r, c) == Test(bm, c)
  {
    forall c | 0 <= c < 8 * |bm| && c != b
      ensures Test(bm[b / 8 := bm[b / 8] & NotMask(b % 8)], c) == Test(bm, c)
    {
      ClearOther(bm, b, c);
    }
    AndNotBit(bm[b / 8], b % 8, b % 8);
  }

  lemma ClearOther(bm: seq<byte>, b: nat, c: nat)
    requires b < 8 * |bm| && c < 8 * |bm| && c != b
    ensures Test(bm[b / 8 := bm[b / 8] & NotMask(b % 8)], c) == Test(bm, c)
  {
    if c / 8 == b / 8 {
      SameByteOtherBit(b, c);
      AndNotBit(bm[b / 8], b % 8, c % 8);
    }
  }

  lemma SameByteOtherBit(b: nat, c: nat)
    requires b != c && b / 8 == c / 8
    ensures b % 8 != c % 8
  {
  }

  lemma OrBit(x: byte, k: nat, j: nat)
    requires k < 8 && j < 8
    ensures Bit(x | Mask(k), j) == (j == k || Bit(x, j))
  {
  }

  lemma AndNotBit(x: byte, k: nat, j: nat)
    requires k < 8 && j < 8
    ensures Bit(x & NotMask(k), j) == (j != k && Bit(x, j))
  {
  }

  /** The number of blocks below n whose bit is set. */
  function Count(bm: seq<byte>, n: nat): (r: nat)
    requires n <= 8 * |bm|
    ensures r <= n
  {
    if n == 0 then 0 else Count(bm, n - 1) + (if Test(bm, n - 1) then 1 else 0)
  }

  /** Setting a clear bit below n adds exactly one to the count below n. */
  lemma {:induction false} CountSet(bm: seq<byte>, b: nat, n: nat)
    requires n <= 8 * |bm| && b < 8 * |bm| && !Test(bm, b)
    ensures Count(Set(bm, b), n) == Count(bm, n) + (if b < n then 1 else 0)
  {
    if n > 0 {
      CountSet(bm, b, n - 1);
    }
  }

  /** Clearing a set bit below n takes exactly one from the count below n. */
  lemma {:induction false} CountClear(bm: seq<byte>, b: nat, n: nat)
    requires n <= 8 * |bm| && b < 8 * |bm| && Test(bm, b)
    ensures Count(Clear(bm, b), n) + (if b < n then 1 else 0) == Count(bm, n)
  {
    if n > 0 {
      CountClear(bm, b, n - 1);
    }
  }

  /** A clear bit below n leaves the count strictly below n. */
  lemma {:induction false} CountBelowWithClear(bm: seq<byte>, b: nat, n: nat)
    requires n <= 8 * |bm| && b < n && !Test(bm, b)
    ensures Count(bm, n) < n
  {
    if b < n - 1 {
      CountBelowWithClear(bm, b, n - 1);
    }
  }

  /** A set bit below n makes the count positive. */
  lemma {:induction false} CountPositiveWithSet(bm: seq<byte>, b: nat, n: nat)
    requires n <= 8 * |bm| && b < n && Test(bm, b)
    ensures Count(bm, n) > 0
  {
    if b < n - 1 {
      CountPositiveWithSet(bm, b, n - 1);
    }
  }

  /** Lowest block in [from, total) whose bit is clear: the first-fit scan of
      fs_allocate_block. */
  function FirstClear(bm: seq<byte>, from: nat, total: nat): (r: Option<nat>)
    requires total <= 8 * |bm|
    ensures r.Some? ==> from <= r.value < total && !Test(bm, r.value)
    ensures r.Some? ==> forall c :: from <= c < r.value ==> Test(bm, c)
    ensures r.None? ==> forall c :: from <= c < total ==> Test(bm, c)
    decreases total - from
  {
    if from >= total then None
    else if !Test(bm, from) then Some(from)
    else FirstClear(bm, from + 1, total)
  }

  /** An all-zero bitmap. */
  function Zeroes(): (r: seq<byte>)
    ensures |r| == BITMAP_BYTES
    ensures forall c :: 0 <= c < BITMAP_BITS ==> !Test(r, c)
  {
    seq(BITMAP_BYTES, _ => 0 as byte)
  }

  /** bm after setting the bits of blocks 0..k-1 in that order. */
  function SetFirst(bm: seq<byte>, k: nat): (r: seq<byte>)
    requires k <= 8 * |bm|
    ensures |r| == |bm|
    ensures forall c :: 0 <= c < 8 * |bm| ==> (Test(r, c) <==> Test(bm, c) || c < k)
  {
    if k == 0 then bm else Set(SetFirst(bm, k - 1), k - 1)
  }

  /** The bitmap of a fresh format: all zero, then bits 0..3 set. */
  function Formatted(): (r: seq<byte>)
    ensures |r| == BITMAP_BYTES
    ensures forall c :: 0 <= c < BITMAP_BITS ==> (Test(r, c) <==> c < 4)
  {
    SetFirst(Zeroes(), 4)
  }

  /** The first-fit scan result is determined by the bits: a clear block
      with every block from `from` up to it set is the one FirstClear finds. */
  lemma {:induction false} FirstClearIs(bm: seq<byte>, from: nat, total: nat, b: nat)
    requires total <= 8 * |bm| && from <= b < total && !Test(bm, b)
    requires forall c :: from <= c < b ==> Test(bm, c)
    ensures FirstClear(bm, from, total) == Some(b)
    decreases b - from
  {
    if from < b {
      FirstClearIs(bm, from + 1, total, b);
    }
  }

  /** A bitmap whose set bits below n are exactly those below k counts k. */
  lemma {:induction false} CountPrefix(bm: seq<byte>, k: nat, n: nat)
    requires k <= n <= 8 * |bm|
    requires forall c :: 0 <= c < n ==> (Test(bm, c) <==> c < k)
    ensures Count(bm, n) == k
  {
    if n > 0 {
      if n - 1 < k {
        CountPrefix(bm, n - 1, n - 1);
      } else {
        CountPrefix(bm, k, n - 1);
      }
    }
  }
}

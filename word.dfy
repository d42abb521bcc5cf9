/** Machine-level vocabulary shared by every kernel module: bytes, 32-bit
    unsigned arithmetic with explicit wrap-around, little-endian words, and
    an Option type for C's nullable pointers. */
module Word {

  /** An `unsigned char`. */
  type byte = bv8

  /** 2^32: the modulus of `unsigned int` (and of `unsigned long` on i386). */
  const U32: nat := 0x1_0000_0000

  datatype Option<+T> = None | Some(value: T)

  predicate IsU32(x: int) {
    0 <= x < U32
  }

  /** The value an `unsigned int` holds after an assignment of x. */
  function Wrap32(x: int): (r: nat)
    ensures r < U32
    ensures IsU32(x) ==> r == x
    ensures U32 <= x < 2 * U32 ==> r == x - U32
    ensures -(U32 as int) <= x < 0 ==> r == x + U32
  {
    x % U32
  }

  /** An `unsigned int` read back as a two's-complement `int`. */
  function Signed32(x: nat): (r: int)
    requires x < U32
    ensures -0x8000_0000 <= r < 0x8000_0000
    ensures x < 0x8000_0000 ==> r == x
    ensures Wrap32(r) == x
  {
    if x < 0x8000_0000 then x else x - U32
  }

  /** A byte read through a signed `char`. */
  function SignedByte(b: byte): (r: int)
    ensures -128 <= r < 128
    ensures (b as int) < 128 ==> r == b as int
    ensures (r + 256) % 256 == b as int
  {
    if (b as int) < 128 then b as int else b as int - 256
  }

  /** The byte holding a value below 256, counted up one at a time so that
      its value is established without a general integer-to-bit-vector
      conversion. */
  function ToByte(n: int): (r: byte)
    requires 0 <= n < 256
    ensures r as int == n
  {
    if n == 0 then 0 else Succ(ToByte(n - 1))
  }

  function Succ(x: byte): (r: byte)
    requires x as int < 255
    ensures r as int == x as int + 1
  {
    x + 1
  }

  /** The four bytes of x in memory order on a little-endian machine. */
  function LE32(x: nat): (r: seq<byte>)
    requires x < U32
    ensures |r| == 4
  {
    var q1 := x / 256;
    var q2 := q1 / 256;
    var q3 := q2 / 256;
    [ToByte(x % 256), ToByte(q1 % 256), ToByte(q2 % 256), ToByte(q3 % 256)]
  }

  /** The `unsigned int` stored in four little-endian bytes. */
  function FromLE32(b: seq<byte>): (r: nat)
    requires |b| == 4
    ensures r < U32
  {
    b[0] as int + 256 * (b[1] as int + 256 * (b[2] as int + 256 * (b[3] as int)))
  }

  lemma LE32RoundTrip(x: nat)
    requires x < U32
    ensures FromLE32(LE32(x)) == x
  {
    var q1 := x / 256;
    var q2 := q1 / 256;
    var q3 := q2 / 256;
    var b := LE32(x);
    DivMod(x);
    DivMod(q1);
    DivMod(q2);
    DivMod(q3);
    assert q3 < 256;
  }

  lemma FromLE32RoundTrip(b: seq<byte>)
    requires |b| == 4
    ensures LE32(FromLE32(b)) == b
  {
    var x := FromLE32(b);
    FromLE32Digits(b);
    var r := LE32(x);
    ByteInjective(r[0], b[0]);
    ByteInjective(r[1], b[1]);
    ByteInjective(r[2], b[2]);
    ByteInjective(r[3], b[3]);
  }

  /** The base-256 digits of a little-endian word are its bytes. */
  lemma FromLE32Digits(b: seq<byte>)
    requires |b| == 4
    ensures var x := FromLE32(b);
      && x % 256 == b[0] as int
      && (x / 256) % 256 == b[1] as int
      && ((x / 256) / 256) % 256 == b[2] as int
      && (((x / 256) / 256) / 256) % 256 == b[3] as int
  {
    var x := FromLE32(b);
    var b0, b1, b2, b3 := b[0] as int, b[1] as int, b[2] as int, b[3] as int;
    var y2 := b2 + 256 * b3;
    var y1 := b1 + 256 * y2;
    DivMod256(x, b0, y1);
    DivMod256(y1, b1, y2);
    DivMod256(y2, b2, b3);
    DivMod256(b3, b3, 0);
  }

  lemma DivMod(x: nat)
    ensures x == 256 * (x / 256) + x % 256 && x % 256 < 256
  {
  }

  lemma DivMod256(x: int, a: int, q: int)
    requires 0 <= a < 256 && 0 <= q && x == a + 256 * q
    ensures x / 256 == q && x % 256 == a
  {
  }

  lemma ByteInjective(x: byte, y: byte)
    requires x as int == y as int
    ensures x == y
  {
  }

  /** The text of a C string, the characters in memory from its first
      one up to a NUL: everything before that NUL. */
  function Text(s: seq<char>): (r: seq<char>)
    requires '\0' in s
    ensures |r| < |s| && r == s[..|r|] && s[|r|] == '\0' && '\0' !in r
  {
    if s[0] == '\0' then [] else [s[0]] + Text(s[1..])
  }

  /** A NUL at i with none before it ends the text there. */
  lemma {:induction false} TextAt(s: seq<char>, i: nat)
    requires i < |s| && s[i] == '\0' && '\0' !in s[..i]
    ensures Text(s) == s[..i]
  {
    if i > 0 {
      assert s[0] == s[..i][0];
      assert s[1..][..i - 1] == s[1..i];
      assert forall c :: c in s[1..i] ==> c in s[..i];
      TextAt(s[1..], i - 1);
      assert s[..i] == [s[0]] + s[1..][..i - 1];
    }
  }

  /** A literal followed by its terminator reads back as the literal. */
  lemma TextOfLiteral(p: seq<char>)
    requires '\0' !in p
    ensures Text(p + ['\0']) == p
  {
    assert (p + ['\0'])[..|p|] == p;
    TextAt(p + ['\0'], |p|);
  }
}

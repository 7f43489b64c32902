/** Fixed-width unsigned integers, their little-endian byte images and the
    byte-swap helpers shared by both variants of the codec. */
module ByteOrder {

  newtype byte = x: int | 0 <= x < 0x100
  newtype u16 = x: int | 0 <= x < 0x1_0000
  newtype u32 = x: int | 0 <= x < 0x1_0000_0000

  const TWO_32: int := 0x1_0000_0000

  /** Byte order of the machine the codec runs on. */
  datatype Endianness = LittleEndian | BigEndian

  /** The model runs on a little-endian host. */
  const HOST: Endianness := LittleEndian

  // ---------------------------------------------------------------------------
  // Little-endian byte images

  function LE16(x: u16): (r: seq<byte>)
    ensures |r| == 2
  {
    [(x % 0x100) as byte, (x / 0x100) as byte]
  }

  function LE32(x: u32): (r: seq<byte>)
    ensures |r| == 4
  {
    [(x % 0x100) as byte, (x / 0x100 % 0x100) as byte,
     (x / 0x1_0000 % 0x100) as byte, (x / 0x100_0000) as byte]
  }

  /** The value of the two bytes at position i, least significant first. */
  function U16At(b: seq<byte>, i: nat): u16
    requires i + 2 <= |b|
  {
    (b[i] as int + 0x100 * b[i + 1] as int) as u16
  }

  /** The value of the four bytes at position i, least significant first. */
  function U32At(b: seq<byte>, i: nat): u32
    requires i + 4 <= |b|
  {
    (b[i] as int + 0x100 * b[i + 1] as int + 0x1_0000 * b[i + 2] as int
     + 0x100_0000 * b[i + 3] as int) as u32
  }

  lemma MulAwayFromZero(k: int, d: int)
    requires d > 0
    ensures k >= 1 ==> k * d >= d
    ensures k <= -1 ==> k * d <= -d
  {
  }

  /** Division with remainder has one answer. */
  lemma DivModUnique(a: int, d: int, q: int, r: int)
    requires d > 0 && 0 <= r < d && a == q * d + r
    ensures a / d == q && a % d == r
  {
    var q', r' := a / d, a % d;
    assert (q - q') * d == r' - r;
    MulAwayFromZero(q - q', d);
  }

  lemma U16RoundTrip(x: u16)
    ensures U16At(LE16(x), 0) == x
  {
  }

  lemma U32RoundTrip(x: u32)
    ensures U32At(LE32(x), 0) == x
  {
    var n := x as int;
    var q1 := n / 0x100;
    var q2 := q1 / 0x100;
    var q3 := q2 / 0x100;
    DivModUnique(n, 0x1_0000, q2, n % 0x100 + 0x100 * (q1 % 0x100));
    DivModUnique(n, 0x100_0000, q3, n % 0x100 + 0x100 * (q1 % 0x100) + 0x1_0000 * (q2 % 0x100));
  }

  /** Splitting off the low byte of a + 0x100 * k, with a a byte. */
  lemma LowByte(a: int, k: int)
    requires 0 <= a < 0x100
    ensures (a + 0x100 * k) % 0x100 == a && (a + 0x100 * k) / 0x100 == k
  {
  }

  lemma LE16OfBytes(b: seq<byte>, i: nat)
    requires i + 2 <= |b|
    ensures LE16(U16At(b, i)) == b[i..i + 2]
  {
    LowByte(b[i] as int, b[i + 1] as int);
  }

  lemma LE32OfBytes(b: seq<byte>, i: nat)
    requires i + 4 <= |b|
    ensures LE32(U32At(b, i)) == b[i..i + 4]
  {
    var b0, b1, b2, b3 := b[i] as int, b[i + 1] as int, b[i + 2] as int, b[i + 3] as int;
    var x := U32At(b, i) as int;
    assert x == b0 + 0x100 * (b1 + 0x100 * (b2 + 0x100 * b3));
    LowByte(b0, b1 + 0x100 * (b2 + 0x100 * b3));
    LowByte(b1, b2 + 0x100 * b3);
    LowByte(b2, b3);
    assert x / 0x1_0000 == (x / 0x100) / 0x100;
    assert x / 0x100_0000 == (x / 0x1_0000) / 0x100;
  }

  // ---------------------------------------------------------------------------
  // swap_uint16 / swap_uint32, written in arithmetic: on an unsigned word,
  // x >> k is x / 2^k, a truncated x << k is (x % 2^(n-k)) * 2^k, and the `|`
  // of two words with disjoint set bits is their sum.

  /** (x >> 8) | (x << 8) on 16 bits. */
  function SwapUint16(x: u16): u16
  {
    (x / 0x100 + (x % 0x100) * 0x100) as u16
  }

  /** ((x >> 8) & 0x00FF00FF) | ((x << 8) & 0xFF00FF00): the first step of
      swap_uint32, which exchanges the two bytes of each 16-bit half. */
  function SwapBytePairs(x: u32): u32
  {
    var b := LE32(x);
    (b[1] as int + 0x100 * b[0] as int + 0x1_0000 * b[3] as int + 0x100_0000 * b[2] as int) as u32
  }

  /** swap_uint32: exchange the bytes of each half, then (v >> 16) | (v << 16). */
  function SwapUint32(x: u32): u32
  {
    var v := SwapBytePairs(x);
    (v / 0x1_0000 + (v % 0x1_0000) * 0x1_0000) as u32
  }

  /** Splitting a + 0x1_0000 * k, with a a 16-bit value. */
  lemma LowHalf(a: int, k: int)
    requires 0 <= a < 0x1_0000
    ensures (a + 0x1_0000 * k) % 0x1_0000 == a && (a + 0x1_0000 * k) / 0x1_0000 == k
  {
  }

  lemma SwapUint16ReversesBytes(x: u16)
    ensures LE16(SwapUint16(x)) == [LE16(x)[1], LE16(x)[0]]
  {
    var r := SwapUint16(x);
    LowByte((x / 0x100) as int, (x % 0x100) as int);
  }

  lemma SwapUint32ReversesBytes(x: u32)
    ensures LE32(SwapUint32(x)) == [LE32(x)[3], LE32(x)[2], LE32(x)[1], LE32(x)[0]]
  {
    var b := LE32(x);
    var v := SwapBytePairs(x) as int;
    var lo, hi := b[1] as int + 0x100 * b[0] as int, b[3] as int + 0x100 * b[2] as int;
    assert v == lo + 0x1_0000 * hi;
    LowHalf(lo, hi);
    var rev := [b[3], b[2], b[1], b[0]];
    assert SwapUint32(x) == U32At(rev, 0);
    LE32OfBytes(rev, 0);
  }

  lemma SwapUint16Involution(x: u16)
    ensures SwapUint16(SwapUint16(x)) == x
  {
    SwapUint16ReversesBytes(x);
    SwapUint16ReversesBytes(SwapUint16(x));
    U16RoundTrip(x);
    U16RoundTrip(SwapUint16(SwapUint16(x)));
  }

  lemma SwapUint32Involution(x: u32)
    ensures SwapUint32(SwapUint32(x)) == x
  {
    SwapUint32ReversesBytes(x);
    SwapUint32ReversesBytes(SwapUint32(x));
    U32RoundTrip(x);
    U32RoundTrip(SwapUint32(SwapUint32(x)));
  }
}

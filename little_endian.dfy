/**
 * The fixed-width integer types of the bitmap headers (`WORD`, `DWORD`,
 * `LONG`) and their little-endian byte encodings. A `LONG` is stored as the
 * 32-bit two's-complement pattern of its value.
 */
module LittleEndian {

  /** One byte of a file. */
  type Byte = x: int | 0 <= x < 0x100

  /** `WORD`, an unsigned 16-bit integer. */
  type Word = x: int | 0 <= x < 0x1_0000

  /** `DWORD`, an unsigned 32-bit integer. */
  type DWord = x: int | 0 <= x < 0x1_0000_0000

  /** `LONG`, a signed 32-bit integer (also the width of C `int` here). */
  type Long = x: int | -0x8000_0000 <= x < 0x8000_0000

  /** The two bytes of `w`, least significant first. */
  function EncodeWord(w: Word): (r: seq<Byte>)
    ensures |r| == 2
    ensures r[0] + 0x100 * (r[1] as int) == w
  {
    [w % 0x100, w / 0x100]
  }

  /** Reads two little-endian bytes; every pair of bytes is some word's encoding. */
  function DecodeWord(s: seq<Byte>): (w: Word)
    requires |s| == 2
    ensures EncodeWord(w) == s
  {
    s[0] + 0x100 * (s[1] as int)
  }

  /** The four bytes of `d`, least significant first. */
  function EncodeDWord(d: DWord): (r: seq<Byte>)
    ensures |r| == 4
    ensures r[0] + 0x100 * (r[1] as int) + 0x1_0000 * (r[2] as int) + 0x100_0000 * (r[3] as int) == d
  {
    [d % 0x100, d / 0x100 % 0x100, d / 0x1_0000 % 0x100, d / 0x100_0000]
  }

  /** Reads four little-endian bytes; every four bytes are some dword's encoding. */
  function DecodeDWord(s: seq<Byte>): (d: DWord)
    requires |s| == 4
    ensures EncodeDWord(d) == s
  {
    DigitsUnique(s[0], s[1], s[2], s[3]);
    s[0] + 0x100 * (s[1] as int) + 0x1_0000 * (s[2] as int) + 0x100_0000 * (s[3] as int)
  }

  /** Base-256 digits of a number below 2^32 are determined by the number. */
  lemma DigitsUnique(b0: Byte, b1: Byte, b2: Byte, b3: Byte)
    ensures var d := b0 + 0x100 * (b1 as int) + 0x1_0000 * (b2 as int) + 0x100_0000 * (b3 as int);
      d % 0x100 == b0 && d / 0x100 % 0x100 == b1 && d / 0x1_0000 % 0x100 == b2 && d / 0x100_0000 == b3
  {
    var d := b0 + 0x100 * (b1 as int) + 0x1_0000 * (b2 as int) + 0x100_0000 * (b3 as int);
    assert d / 0x100 == b1 + 0x100 * b2 + 0x1_0000 * b3;
    assert d / 0x1_0000 == b2 + 0x100 * b3;
  }

  /** The 32-bit pattern that stores `l` (two's complement). */
  function ToUnsigned(l: Long): (d: DWord)
    ensures (d - l) % 0x1_0000_0000 == 0
    ensures d < 0x8000_0000 <==> 0 <= l
  {
    if l < 0 then l + 0x1_0000_0000 else l
  }

  /** The signed value whose two's-complement pattern is `d`. */
  function ToSigned(d: DWord): (l: Long)
    ensures ToUnsigned(l) == d
    ensures l < 0 <==> d >= 0x8000_0000
  {
    if d >= 0x8000_0000 then d - 0x1_0000_0000 else d
  }

  /** Writes a `LONG`: the little-endian bytes of its two's-complement pattern. */
  function EncodeLong(l: Long): (r: seq<Byte>)
    ensures |r| == 4
    ensures (r[0] + 0x100 * (r[1] as int) + 0x1_0000 * (r[2] as int) + 0x100_0000 * (r[3] as int) - l) % 0x1_0000_0000 == 0
  {
    EncodeDWord(ToUnsigned(l))
  }

  /** Reads a `LONG`; the sign is the top bit of the last byte. */
  function DecodeLong(s: seq<Byte>): (l: Long)
    requires |s| == 4
    ensures EncodeLong(l) == s
    ensures l < 0 <==> s[3] >= 0x80
  {
    ToSigned(DecodeDWord(s))
  }

  /** Any `WORD` survives writing and reading back. */
  lemma WordRoundTrip(w: Word)
    ensures DecodeWord(EncodeWord(w)) == w
  {
  }

  /** Any `DWORD` survives writing and reading back. */
  lemma DWordRoundTrip(d: DWord)
    ensures DecodeDWord(EncodeDWord(d)) == d
  {
  }

  /** Any `LONG`, negative ones included, survives writing and reading back. */
  lemma LongRoundTrip(l: Long)
    ensures DecodeLong(EncodeLong(l)) == l
  {
  }

  /** Reading back the pattern of a `LONG` gives that `LONG`. */
  lemma SignedOfUnsigned(l: Long)
    ensures ToSigned(ToUnsigned(l)) == l
  {
  }

  /**
   * Converting an in-range C `int` to `DWORD` (reduction modulo 2^32) and
   * reading the result as signed gives the `int` back.
   */
  lemma SignedOfResidue(x: Long)
    ensures 0 <= x % 0x1_0000_0000 < 0x1_0000_0000
    ensures ToSigned(x % 0x1_0000_0000) == x
  {
  }
}

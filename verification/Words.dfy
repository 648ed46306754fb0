/** Fixed-width little-endian integers, as `Helper.Struct2Bytes` and `Helper.Bytes2Struct` lay
    them out, and the byte view of a sequence of 32-bit words. */
module Words {

  type Byte = x: int | 0 <= x < 0x100
  /** A signed 32-bit integer, the type of everything the file system stores. */
  type Word = x: int | -0x8000_0000 <= x < 0x8000_0000
  /** An unsigned 32-bit integer (`_i_mode`). */
  type UWord = x: int | 0 <= x < 0x1_0000_0000
  /** A signed 16-bit integer (`_i_uid`, `_i_gid`). */
  type Half = x: int | -0x8000 <= x < 0x8000

  function Unsigned(w: Word): UWord {
    if w < 0 then w + 0x1_0000_0000 else w
  }

  function Signed(u: UWord): Word {
    if u < 0x8000_0000 then u else u - 0x1_0000_0000
  }

  /** The low 32 bits of an integer, as a signed word. */
  function Wrap(x: int): Word {
    Signed(x % 0x1_0000_0000)
  }

  /** Byte `i` (least significant first) of a word. */
  function ByteOf(w: Word, i: nat): Byte
    requires i < 4
  {
    match i
    case 0 => Unsigned(w) % 0x100
    case 1 => Unsigned(w) / 0x100 % 0x100
    case 2 => Unsigned(w) / 0x100 / 0x100 % 0x100
    case _ => Unsigned(w) / 0x100 / 0x100 / 0x100
  }

  function FromBytes(b0: Byte, b1: Byte, b2: Byte, b3: Byte): Word {
    Signed(b0 + 0x100 * b1 + 0x1_0000 * b2 + 0x100_0000 * b3)
  }

  lemma BytesRoundTrip(w: Word)
    ensures FromBytes(ByteOf(w, 0), ByteOf(w, 1), ByteOf(w, 2), ByteOf(w, 3)) == w
  {
    var u := Unsigned(w);
    var u1 := u / 0x100;
    var u2 := u1 / 0x100;
    assert u == 0x100 * u1 + u % 0x100 && u1 == 0x100 * u2 + u1 % 0x100 && u2 == 0x100 * (u2 / 0x100) + u2 % 0x100;
  }

  lemma WordRoundTrip(b0: Byte, b1: Byte, b2: Byte, b3: Byte)
    ensures var w := FromBytes(b0, b1, b2, b3);
            ByteOf(w, 0) == b0 && ByteOf(w, 1) == b1 && ByteOf(w, 2) == b2 && ByteOf(w, 3) == b3
  {
    var u := b0 + 0x100 * b1 + 0x1_0000 * b2 + 0x100_0000 * b3;
    assert Unsigned(FromBytes(b0, b1, b2, b3)) == u;
    assert u / 0x100 == b1 + 0x100 * b2 + 0x1_0000 * b3;
    assert u / 0x100 / 0x100 == b2 + 0x100 * b3;
  }

  /** Two signed 16-bit integers stored one after the other. */
  function Pack(lo: Half, hi: Half): Word {
    Signed(lo % 0x1_0000 + 0x1_0000 * (hi % 0x1_0000))
  }

  function LowHalf(w: Word): Half {
    var u := Unsigned(w) % 0x1_0000;
    if u < 0x8000 then u else u - 0x1_0000
  }

  function HighHalf(w: Word): Half {
    var u := Unsigned(w) / 0x1_0000;
    if u < 0x8000 then u else u - 0x1_0000
  }

  lemma HalvesRoundTrip(lo: Half, hi: Half)
    ensures LowHalf(Pack(lo, hi)) == lo && HighHalf(Pack(lo, hi)) == hi
  {
    var a, b := lo % 0x1_0000, hi % 0x1_0000;
    assert Unsigned(Pack(lo, hi)) == a + 0x1_0000 * b;
    assert (a + 0x1_0000 * b) / 0x1_0000 == b;
  }

  lemma PackRoundTrip(w: Word)
    ensures Pack(LowHalf(w), HighHalf(w)) == w
  {
    var u := Unsigned(w);
    assert LowHalf(w) % 0x1_0000 == u % 0x1_0000;
    assert HighHalf(w) % 0x1_0000 == u / 0x1_0000;
  }

  function HalfFromBytes(b0: Byte, b1: Byte): Half {
    var u: int := b0 + 0x100 * b1;
    if u < 0x8000 then u else u - 0x1_0000
  }

  function HalfByte(v: Half, i: nat): Byte
    requires i < 2
  {
    if i == 0 then v % 0x1_0000 % 0x100 else v % 0x1_0000 / 0x100
  }

  lemma HalvesOfBytes(b0: Byte, b1: Byte, b2: Byte, b3: Byte)
    ensures LowHalf(FromBytes(b0, b1, b2, b3)) == HalfFromBytes(b0, b1)
    ensures HighHalf(FromBytes(b0, b1, b2, b3)) == HalfFromBytes(b2, b3)
  {
    var lo: int, hi: int := b0 + 0x100 * b1, b2 + 0x100 * b3;
    assert Unsigned(FromBytes(b0, b1, b2, b3)) == lo + 0x1_0000 * hi;
    assert (lo + 0x1_0000 * hi) / 0x1_0000 == hi;
  }

  lemma BytesOfHalves(lo: Half, hi: Half)
    ensures FromBytes(HalfByte(lo, 0), HalfByte(lo, 1), HalfByte(hi, 0), HalfByte(hi, 1)) == Pack(lo, hi)
    ensures HalfFromBytes(HalfByte(lo, 0), HalfByte(lo, 1)) == lo
  {
  }

  lemma HalfBytesRoundTrip(b0: Byte, b1: Byte)
    ensures HalfByte(HalfFromBytes(b0, b1), 0) == b0 && HalfByte(HalfFromBytes(b0, b1), 1) == b1
  {
    var u: int := b0 + 0x100 * b1;
    assert HalfFromBytes(b0, b1) % 0x1_0000 == u;
  }

  /** Bytes are digits, the least significant first; the last bit of the last one is the sign. */
  lemma LittleEndian(b0: Byte, b1: Byte, b2: Byte, b3: Byte)
    ensures FromBytes(b0, b1, b2, b3) ==
            b0 + 256 * b1 + 65536 * b2 + 16777216 * b3 - if b3 >= 128 then 4294967296 else 0
    ensures HalfFromBytes(b0, b1) == b0 + 256 * b1 - if b1 >= 128 then 65536 else 0
    ensures LowHalf(FromBytes(b0, b1, b2, b3)) == HalfFromBytes(b0, b1)
    ensures HighHalf(FromBytes(b0, b1, b2, b3)) == HalfFromBytes(b2, b3)
    ensures Unsigned(FromBytes(b0, b1, b2, b3)) == b0 + 256 * b1 + 65536 * b2 + 16777216 * b3
  {
    HalvesOfBytes(b0, b1, b2, b3);
  }

  /** The same for the bytes of a word. */
  lemma DigitsOf(w: Word)
    ensures w == ByteOf(w, 0) + 256 * ByteOf(w, 1) + 65536 * ByteOf(w, 2) + 16777216 * ByteOf(w, 3)
                 - if w < 0 then 4294967296 else 0
  {
    BytesRoundTrip(w);
    LittleEndian(ByteOf(w, 0), ByteOf(w, 1), ByteOf(w, 2), ByteOf(w, 3));
    hide ByteOf, FromBytes;
  }

  /** Arithmetic on 32 bits: the result differs from the exact one by a multiple of 2^32. */
  lemma WrapIsExact(x: int)
    ensures (x - Wrap(x)) % 4294967296 == 0
    ensures -2147483648 <= x < 2147483648 ==> Wrap(x) == x
  {
  }

  /** Byte `p` of the image whose words are `w`. */
  function ByteAt(w: seq<Word>, p: nat): Byte
    requires p / 4 < |w|
  {
    ByteOf(w[p / 4], p % 4)
  }
}

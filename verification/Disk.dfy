/** The disk image and the file cursor that every component shares. */
module DiskImage {
  import opened Words

  const BLOCK_SIZE := 512
  const SUPER_BLOCKS := 2

  /** Where the areas of the disk lie, in 512-byte blocks: boot, superblock, inodes, data. */
  datatype Geometry = Geometry(boot: nat, inodeBlocks: nat, dataBlocks: nat, diskBlocks: nat) {

    function InodeStart(): nat { boot + SUPER_BLOCKS }

    function DataStart(): nat { boot + SUPER_BLOCKS + inodeBlocks }

    function DataEnd(): nat { DataStart() + dataBlocks }

    function InodeCount(): nat { 8 * inodeBlocks }

    /** The areas fit on the disk, and every byte position is a C# `int`. */
    predicate Valid() {
      && 1 <= boot
      && DataEnd() <= diskBlocks
      && BLOCK_SIZE * diskBlocks < 0x8000_0000
    }

    predicate InData(b: int) {
      DataStart() <= b < DataEnd()
    }
  }

  /** The constants of `MachinePara`. */
  const MY_DISK := Geometry(1, 822, 19335, 20160)

  /** Word `i` of the image, or 0 beyond its end. */
  function Get(w: seq<Word>, i: int): Word {
    if 0 <= i < |w| then w[i] else 0
  }

  function Put(w: seq<Word>, i: int, v: Word): (r: seq<Word>)
    ensures |r| == |w|
  {
    if 0 <= i < |w| then w[i := v] else w
  }

  /** Block `b` filled with zeros. */
  function ZeroBlock(w: seq<Word>, b: int): (r: seq<Word>)
    ensures |r| == |w|
    ensures forall i {:trigger r[i]} :: 0 <= i < |w| ==> r[i] == if 128 * b <= i < 128 * b + 128 then 0 else w[i]
  {
    seq(|w|, i requires 0 <= i < |w| => if 128 * b <= i < 128 * b + 128 then 0 else w[i])
  }

  /** The image after the words `vals` have been written one after the other from word `base` on. */
  ghost function Splice(w: seq<Word>, base: nat, vals: seq<Word>): (r: seq<Word>)
    requires base + |vals| <= |w|
    ensures |r| == |w|
    ensures forall i {:trigger r[i]} :: 0 <= i < |w| ==>
            r[i] == if base <= i < base + |vals| then vals[i - base] else w[i]
  {
    w[..base] + vals + w[base + |vals|..]
  }

  /** The bytes from `at` on have been replaced by `bytes`, and no others. */
  ghost predicate Overwritten(w: seq<Word>, w': seq<Word>, at: nat, bytes: seq<Byte>) {
    && |w'| == |w|
    && forall p: nat {:trigger ByteAt(w', p)} :: p < 4 * |w| ==>
         ByteAt(w', p) == if at <= p < at + |bytes| then bytes[p - at] else ByteAt(w, p)
  }

  /** The disk file: an array of bytes and a position in it, like `FileStream`. */
  class Disk {
    const data: array<Byte>
    var pos: nat
    /** The same bytes seen as little-endian words. */
    ghost var words: seq<Word>

    ghost predicate Valid()
      reads this`words, data
    {
      data.Length == 4 * |words| && Spelled()
    }

    /** Word `k` is spelled by bytes `4k` to `4k + 3`. */
    ghost predicate Spelled()
      requires data.Length == 4 * |words|
      reads this`words, data
    {
      forall k :: 0 <= k < |words| ==>
        words[k] == FromBytes(data[4 * k], data[4 * k + 1], data[4 * k + 2], data[4 * k + 3])
    }

    /** A cleared disk of the given number of blocks. */
    constructor (blocks: nat)
      ensures Valid() && fresh(data)
      ensures words == seq(128 * blocks, _ => 0)
    {
      data := new Byte[512 * blocks](_ => 0);
      pos := 0;
      words := seq(128 * blocks, _ => 0);
    }

    /** The bytes of the array are the bytes of the words. */
    lemma Bytes(p: nat)
      requires Valid() && p < data.Length
      ensures data[p] == ByteAt(words, p)
    {
      var k := p / 4;
      WordRoundTrip(data[4 * k], data[4 * k + 1], data[4 * k + 2], data[4 * k + 3]);
    }

    method Seek(p: nat)
      modifies this`pos
      ensures pos == p
    {
      pos := p;
    }

    /** A seek to a position computed in signed arithmetic: a negative one fails and leaves the
        cursor of the freshly opened file at its start. */
    method SeekTo(p: int)
      modifies this`pos
      ensures pos == if p < 0 then 0 else p
    {
      pos := if p < 0 then 0 else p;
    }

    /** Reads a word into a buffer; past the end of the file the buffer keeps its value. */
    method ReadOver(buffer: Word, ghost k: nat) returns (v: Word)
      requires Valid() && pos == 4 * k
      modifies this`pos
      ensures v == if k < |words| then words[k] else buffer
    {
      v := buffer;
      if pos < data.Length {
        v := ReadInt(k);
      }
    }

    /** Writes the word with index `k`, on which the cursor stands. */
    method WriteInt(v: Word, ghost k: nat)
      requires Valid() && pos == 4 * k && k < |words|
      modifies this, data
      ensures Valid() && pos == 4 * (k + 1)
      ensures words == old(words)[k := v]
    {
      hide FromBytes, ByteOf;
      data[pos], data[pos + 1], data[pos + 2], data[pos + 3] :=
        ByteOf(v, 0), ByteOf(v, 1), ByteOf(v, 2), ByteOf(v, 3);
      BytesRoundTrip(v);
      words := words[k := v];
      pos := pos + 4;
    }

    method ReadInt(ghost k: nat) returns (v: Word)
      requires Valid() && pos == 4 * k && k < |words|
      modifies this`pos
      ensures pos == 4 * (k + 1) && v == words[k]
    {
      v := FromBytes(data[pos], data[pos + 1], data[pos + 2], data[pos + 3]);
      assert words[k] == v;
      pos := pos + 4;
    }

    /** One more word of a sequential write that began at word `base` of the image `was`. */
    method Emit(v: Word, ghost was: seq<Word>, ghost base: nat, ghost done: seq<Word>)
      requires Valid() && base + |done| < |was| && pos == 4 * (base + |done|)
      requires words == Splice(was, base, done)
      modifies this, data
      ensures Valid() && pos == 4 * (base + |done| + 1)
      ensures words == Splice(was, base, done + [v])
    {
      hide Valid;
      WriteInt(v, base + |done|);
    }

    method EmitAll(a: seq<Word>, ghost was: seq<Word>, ghost base: nat, ghost done: seq<Word>)
      requires Valid() && base + |done| + |a| <= |was| && pos == 4 * (base + |done|)
      requires words == Splice(was, base, done)
      modifies this, data
      ensures Valid() && pos == 4 * (base + |done| + |a|)
      ensures words == Splice(was, base, done + a)
    {
      assert done + a[..0] == done && a[..|a|] == a;
      for i := 0 to |a|
        invariant Valid() && pos == 4 * (base + |done| + i)
        invariant words == Splice(was, base, done + a[..i])
      {
        assert done + a[..i + 1] == done + a[..i] + [a[i]];
        Emit(a[i], was, base, done + a[..i]);
      }
    }

    /** Writes 16 bits into the low or the high half of word `k`. */
    method WriteShort(v: Half, ghost k: nat)
      requires Valid() && (pos == 4 * k || pos == 4 * k + 2) && k < |words|
      modifies this, data
      ensures Valid() && pos == old(pos) + 2
      ensures var w := old(words)[k];
              words == old(words)[k := if old(pos) == 4 * k then Pack(v, HighHalf(w)) else Pack(LowHalf(w), v)]
    {
      hide FromBytes, HalfByte, HalfFromBytes, Pack, LowHalf, HighHalf;
      ghost var b0, b1, b2, b3 := data[4 * k], data[4 * k + 1], data[4 * k + 2], data[4 * k + 3];
      HalvesOfBytes(b0, b1, b2, b3);
      HalfBytesRoundTrip(b0, b1);
      HalfBytesRoundTrip(b2, b3);
      data[pos], data[pos + 1] := HalfByte(v, 0), HalfByte(v, 1);
      BytesOfHalves(v, HalfFromBytes(b2, b3));
      BytesOfHalves(HalfFromBytes(b0, b1), v);
      words := words[k := FromBytes(data[4 * k], data[4 * k + 1], data[4 * k + 2], data[4 * k + 3])];
      pos := pos + 2;
    }

    method ReadShort(ghost k: nat) returns (v: Half)
      requires Valid() && (pos == 4 * k || pos == 4 * k + 2) && k < |words|
      modifies this`pos
      ensures pos == old(pos) + 2
      ensures v == if old(pos) == 4 * k then LowHalf(words[k]) else HighHalf(words[k])
    {
      v := HalfFromBytes(data[pos], data[pos + 1]);
      HalvesOfBytes(data[4 * k], data[4 * k + 1], data[4 * k + 2], data[4 * k + 3]);
      assert words[k] == FromBytes(data[4 * k], data[4 * k + 1], data[4 * k + 2], data[4 * k + 3]);
      pos := pos + 2;
    }

    /** Fills the front of a buffer from the cursor on. */
    method ReadBytes(buf: array<Byte>, count: nat)
      requires Valid() && pos + count <= data.Length && count <= buf.Length && buf != data
      modifies this`pos, buf
      ensures pos == old(pos) + count
      ensures forall i :: 0 <= i < count ==> buf[i] == ByteAt(words, old(pos) + i)
      ensures forall i :: count <= i < buf.Length ==> buf[i] == old(buf[i])
    {
      for n := 0 to count
        invariant pos == old(pos) + n
        invariant forall i :: 0 <= i < n ==> buf[i] == ByteAt(words, old(pos) + i)
        invariant forall i :: n <= i < buf.Length ==> buf[i] == old(buf[i])
      {
        Bytes(pos);
        buf[n] := data[pos];
        pos := pos + 1;
      }
    }

    /** Writes one byte; only the word that holds it changes, and no other byte of that word. */
    method WriteByte(v: Byte)
      requires Valid() && pos < data.Length
      modifies this, data
      ensures Valid() && pos == old(pos) + 1 && |words| == |old(words)|
      ensures forall p: nat :: p < data.Length ==>
                ByteAt(words, p) == if p == old(pos) then v else ByteAt(old(words), p)
      ensures forall k :: 0 <= k < |words| && k != old(pos) / 4 ==> words[k] == old(words)[k]
    {
      hide FromBytes, ByteOf;
      var k := pos / 4;
      WordRoundTrip(data[4 * k], data[4 * k + 1], data[4 * k + 2], data[4 * k + 3]);
      data[pos] := v;
      WordRoundTrip(data[4 * k], data[4 * k + 1], data[4 * k + 2], data[4 * k + 3]);
      words := words[k := FromBytes(data[4 * k], data[4 * k + 1], data[4 * k + 2], data[4 * k + 3])];
      pos := pos + 1;
    }

    /** Writes the front of a buffer from the cursor on. */
    method WriteBytes(buf: array<Byte>, count: nat)
      requires Valid() && pos + count <= data.Length && count <= buf.Length && buf != data
      modifies this, data
      ensures Valid() && pos == old(pos) + count && |words| == |old(words)|
      ensures Overwritten(old(words), words, old(pos), buf[..count])
    {
      for n := 0 to count
        invariant Valid() && pos == old(pos) + n && |words| == |old(words)|
        invariant Overwritten(old(words), words, old(pos), buf[..n])
      {
        WriteByte(buf[n]);
        assert buf[..n + 1] == buf[..n] + [buf[n]];
      }
    }
  }
}

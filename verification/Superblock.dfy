/** The in-core superblock and its 256-word image on disk. */
module SuperBlocks {
  import opened Words
  import opened DiskImage

  const GROUP := 100
  /** Words written on every update; the padding follows them. */
  const FIXED_WORDS := 209
  const PADDING_WORDS := 47

  /** A snapshot of the fields of a `Superblock`. */
  datatype Fields = Fields(
    isize: Word, fsize: Word, nfree: int, free: seq<Word>, ninode: int, inode: seq<Word>,
    flock: Word, ilock: Word, fmod: Word, ronly: Word, time: Word, padding: seq<Word>)

  ghost predicate Shaped(sb: Fields) {
    |sb.free| == GROUP && |sb.inode| == GROUP && |sb.padding| == PADDING_WORDS
  }

  type Super = sb: Fields | Shaped(sb)
    ghost witness Fields(0, 0, 0, seq(100, _ => 0), 0, seq(100, _ => 0), 0, 0, 0, 0, 0, seq(47, _ => 0))

  ghost function BlockFields(sb: Super): seq<Word> {
    [sb.isize, sb.fsize, Wrap(sb.nfree)] + sb.free
  }

  ghost function InodeFields(sb: Super): seq<Word> {
    [Wrap(sb.ninode)] + sb.inode
  }

  /** The words written on every update, in disk order. */
  ghost function Layout(sb: Super): (r: seq<Word>)
    ensures |r| == FIXED_WORDS
  {
    BlockFields(sb) + InodeFields(sb) + [sb.flock, sb.ilock, sb.fmod, sb.ronly, sb.time]
  }

  /** The image after `sb` has been written back; the padding goes out only once. */
  ghost function Stored(g: Geometry, w: seq<Word>, sb: Super): (r: seq<Word>)
    requires 128 * (g.boot + SUPER_BLOCKS) <= |w|
    ensures |r| == |w|
    ensures forall i {:trigger r[i]} :: 0 <= i < |w| && !(128 * g.boot <= i < 128 * g.InodeStart()) ==> r[i] == w[i]
  {
    Splice(w, 128 * g.boot, Layout(sb) + if sb.padding[0] == 1 then sb.padding else [])
  }

  /** The in-core fields after a write: the padding flag is cleared. */
  ghost function Flushed(sb: Super): Super {
    if sb.padding[0] == 1 then sb.(padding := sb.padding[0 := 0]) else sb
  }

  /** The fields that `ReadSuperBlock` obtains from the image; the padding is not read back. */
  ghost function Loaded(g: Geometry, w: seq<Word>, sb: Super): Super
    requires 128 * (g.boot + SUPER_BLOCKS) <= |w|
  {
    var base := 128 * g.boot;
    Fields(w[base], w[base + 1], w[base + 2], w[base + 3..base + 103], w[base + 103], w[base + 104..base + 204],
           w[base + 204], w[base + 205], w[base + 206], w[base + 207], w[base + 208], sb.padding)
  }

  /** Reading the superblock back would change nothing. */
  ghost predicate Mirrored(g: Geometry, w: seq<Word>, sb: Super) {
    128 * (g.boot + SUPER_BLOCKS) <= |w| && Loaded(g, w, sb) == sb
  }

  /** An update puts every field in its place; the padding follows, but only if it has been changed. */
  lemma StoredWords(g: Geometry, w: seq<Word>, sb: Super)
    requires 128 * (g.boot + 2) <= |w|
    ensures var r, b := Stored(g, w, sb), 128 * g.boot;
            && r[b] == sb.isize && r[b + 1] == sb.fsize
            && r[b + 2] == Wrap(sb.nfree) && r[b + 3..b + 103] == sb.free
            && r[b + 103] == Wrap(sb.ninode) && r[b + 104..b + 204] == sb.inode
            && r[b + 204..b + 209] == [sb.flock, sb.ilock, sb.fmod, sb.ronly, sb.time]
            && r[b + 209..b + 256] == if sb.padding[0] == 1 then sb.padding else w[b + 209..b + 256]
  {
    var r, b := Stored(g, w, sb), 128 * g.boot;
    assert r[b + 3..b + 103] == sb.free;
    assert r[b + 104..b + 204] == sb.inode;
    if sb.padding[0] == 1 {
      assert r[b + 209..b + 256] == sb.padding;
    } else {
      assert r[b + 209..b + 256] == w[b + 209..b + 256];
    }
  }

  /** Loading takes every field from there. */
  lemma LoadedWords(g: Geometry, w: seq<Word>, sb: Super)
    requires 128 * (g.boot + 2) <= |w|
    ensures var r, b := Loaded(g, w, sb), 128 * g.boot;
            && r.isize == w[b] && r.fsize == w[b + 1] && r.nfree == w[b + 2] && r.free == w[b + 3..b + 103]
            && r.ninode == w[b + 103] && r.inode == w[b + 104..b + 204]
            && [r.flock, r.ilock, r.fmod, r.ronly, r.time] == w[b + 204..b + 209] && r.padding == sb.padding
  {
    var b := 128 * g.boot;
    assert w[b + 204..b + 209] == [w[b + 204], w[b + 205], w[b + 206], w[b + 207], w[b + 208]];
  }

  /** The padding reaches the disk once: a second update leaves it there as it is. */
  lemma PaddingOnce(g: Geometry, w: seq<Word>, sb: Super, sb': Super)
    requires 128 * (g.boot + 2) <= |w| && sb'.padding == Flushed(sb).padding
    ensures var r, b := Stored(g, w, sb), 128 * g.boot;
            Stored(g, r, sb')[b + 209..b + 256] == r[b + 209..b + 256] && Flushed(sb') == sb'
  {
    StoredWords(g, Stored(g, w, sb), sb');
  }

  /** Write-through: what an update leaves on disk is what the in-core superblock holds. */
  lemma StoredIsMirrored(g: Geometry, w: seq<Word>, sb: Super)
    requires 128 * (g.boot + SUPER_BLOCKS) <= |w|
    requires -0x8000_0000 <= sb.nfree < 0x8000_0000 && -0x8000_0000 <= sb.ninode < 0x8000_0000
    ensures Mirrored(g, Stored(g, w, sb), Flushed(sb))
  {
    var r, base := Stored(g, w, sb), 128 * g.boot;
    assert r[base + 3..base + 103] == sb.free;
    assert r[base + 104..base + 204] == sb.inode;
  }

  /** Only the first 209 words of the superblock matter to its mirror. */
  lemma MirrorFrame(g: Geometry, w: seq<Word>, w': seq<Word>, sb: Super)
    requires Mirrored(g, w, sb) && |w'| == |w|
    requires forall i :: 128 * g.boot <= i < 128 * g.boot + FIXED_WORDS ==> w'[i] == w[i]
    ensures Mirrored(g, w', sb)
  {
    var base := 128 * g.boot;
    assert w'[base + 3..base + 103] == w[base + 3..base + 103];
    assert w'[base + 104..base + 204] == w[base + 104..base + 204];
  }

  /** The fields of a new superblock: full arrays of zeros, and the layout of the disk in the padding,
      which is still to be written. */
  ghost function NewSuper(g: Geometry, now: Word): Super
    requires g.Valid()
  {
    Fields(g.inodeBlocks, g.diskBlocks, GROUP, seq(GROUP, _ => 0), GROUP, seq(GROUP, _ => 0), 0, 0, 0, 0, now,
           [1, g.diskBlocks, g.InodeStart(), g.inodeBlocks, g.DataStart(), g.diskBlocks - g.DataStart()]
           + seq(PADDING_WORDS - 6, _ => 0))
  }

  /** Both arrays are taken to be full although they hold only zeros. The padding tells the kernel where
      the areas begin and how large they are. */
  lemma NewSuperFields(g: Geometry, now: Word)
    requires g.Valid()
    ensures var r := NewSuper(g, now);
            && r.isize == g.inodeBlocks && r.fsize == g.diskBlocks && r.nfree == 100 && r.ninode == 100
            && (forall i :: 0 <= i < 100 ==> r.free[i] == 0 && r.inode[i] == 0)
            && r.flock == 0 && r.ilock == 0 && r.fmod == 0 && r.ronly == 0 && r.time == now
            && r.padding[0] == 1 && r.padding[1] == g.diskBlocks
            && r.padding[2] == g.boot + 2 && r.padding[3] == g.inodeBlocks
            && r.padding[4] == g.boot + 2 + g.inodeBlocks
            && r.padding[5] == g.diskBlocks - (g.boot + 2 + g.inodeBlocks)
            && forall i :: 6 <= i < 47 ==> r.padding[i] == 0
  {
  }

  class Superblock {
    const g: Geometry
    const disk: Disk
    var isize: Word
    var fsize: Word
    var nfree: int
    const free: array<Word>
    var ninode: int
    const inode: array<Word>
    var flock: Word
    var ilock: Word
    var fmod: Word
    var ronly: Word
    var time: Word
    const padding: array<Word>

    ghost predicate Valid()
      reads disk`words, disk.data
    {
      && g.Valid() && disk.Valid() && |disk.words| == 128 * g.diskBlocks
      && free.Length == GROUP && inode.Length == GROUP && padding.Length == PADDING_WORDS
      && free != inode && free != padding && inode != padding
      && disk.data as object != free && disk.data as object != inode && disk.data as object != padding
    }

    ghost function Value(): Super
      requires free.Length == GROUP && inode.Length == GROUP && padding.Length == PADDING_WORDS
      reads this, free, inode, padding
    {
      Fields(isize, fsize, nfree, free[..], ninode, inode[..], flock, ilock, fmod, ronly, time, padding[..])
    }

    constructor (g: Geometry, disk: Disk, now: Word)
      requires g.Valid() && disk.Valid() && |disk.words| == 128 * g.diskBlocks
      ensures Valid() && this.g == g && this.disk == disk
      ensures fresh(free) && fresh(inode) && fresh(padding)
      ensures Value() == NewSuper(g, now)
    {
      this.g, this.disk := g, disk;
      isize, fsize, nfree, ninode := g.inodeBlocks, g.diskBlocks, GROUP, GROUP;
      free := new Word[100](_ => 0);
      inode := new Word[100](_ => 0);
      flock, ilock, fmod, ronly, time := 0, 0, 0, 0, now;
      padding := new Word[47](_ => 0);
      new;
      padding[0], padding[1], padding[2], padding[3] := 1, g.diskBlocks, g.InodeStart(), g.inodeBlocks;
      padding[4] := padding[2] + padding[3];
      padding[5] := padding[1] - padding[4];
      assert padding[..] == NewSuper(g, now).padding;
      assert free[..] == NewSuper(g, now).free && inode[..] == NewSuper(g, now).inode;
    }

    /** Sizes and the free-block list. */
    method EmitBlocks(ghost was: seq<Word>)
      requires Valid() && disk.pos == 512 * g.boot && was == disk.words
      modifies disk, disk.data
      ensures disk.Valid() && disk.pos == 4 * (128 * g.boot + 103)
      ensures disk.words == Splice(was, 128 * g.boot, BlockFields(Value()))
    {
      ghost var b := 128 * g.boot;
      var frees := free[..];
      disk.Emit(isize, was, b, []);
      disk.Emit(fsize, was, b, [isize]);
      disk.Emit(Wrap(nfree), was, b, [isize, fsize]);
      disk.EmitAll(frees, was, b, [isize, fsize, Wrap(nfree)]);
    }

    method EmitInodes(ghost was: seq<Word>)
      requires Valid() && disk.pos == 4 * (128 * g.boot + 103) && |was| == |disk.words|
      requires disk.words == Splice(was, 128 * g.boot, BlockFields(Value()))
      modifies disk, disk.data
      ensures disk.Valid() && disk.pos == 4 * (128 * g.boot + 204)
      ensures disk.words == Splice(was, 128 * g.boot, BlockFields(Value()) + InodeFields(Value()))
    {
      ghost var b, done := 128 * g.boot, BlockFields(Value());
      var inodes := inode[..];
      disk.Emit(Wrap(ninode), was, b, done);
      disk.EmitAll(inodes, was, b, done + [Wrap(ninode)]);
      assert done + [Wrap(ninode)] + inodes == done + InodeFields(Value());
    }

    method EmitFlags(ghost was: seq<Word>, ghost done: seq<Word>)
      requires Valid() && |done| == 204 && disk.pos == 4 * (128 * g.boot + 204) && |was| == |disk.words|
      requires disk.words == Splice(was, 128 * g.boot, done)
      modifies disk, disk.data
      ensures disk.Valid() && disk.pos == 4 * (128 * g.boot + FIXED_WORDS)
      ensures disk.words == Splice(was, 128 * g.boot, done + [flock, ilock, fmod, ronly, time])
    {
      ghost var b := 128 * g.boot;
      disk.EmitAll([flock, ilock, fmod, ronly, time], was, b, done);
    }

    method UpdateSuperBlockToDisk()
      requires Valid()
      modifies disk, disk.data, padding
      ensures Valid()
      ensures disk.words == Stored(g, old(disk.words), old(Value()))
      ensures Value() == Flushed(old(Value()))
    {
      ghost var was, b, sb := disk.words, 128 * g.boot, Value();
      var pad := padding[..];
      disk.Seek(g.boot * 512);
      EmitBlocks(was);
      EmitInodes(was);
      EmitFlags(was, BlockFields(sb) + InodeFields(sb));
      if padding[0] == 1 {
        disk.EmitAll(pad, was, b, Layout(sb));
        padding[0] := 0;
      }
    }

    /** Fills an array from word `k` on. */
    method Absorb(a: array<Word>, ghost k: nat)
      requires disk.Valid() && disk.pos == 4 * k && k + a.Length <= |disk.words|
      requires a as object != disk.data
      modifies disk`pos, a
      ensures disk.pos == 4 * (k + a.Length)
      ensures a[..] == disk.words[k..k + a.Length]
    {
      for i := 0 to a.Length
        invariant disk.pos == 4 * (k + i)
        invariant forall j :: 0 <= j < i ==> a[j] == disk.words[k + j]
      {
        a[i] := disk.ReadInt(k + i);
      }
    }

    /** The flags and the time, from word `k` on. */
    method AbsorbFlags(ghost k: nat)
      requires Valid() && disk.pos == 4 * k && k + 5 <= |disk.words|
      modifies this`flock, this`ilock, this`fmod, this`ronly, this`time, disk`pos
      ensures flock == disk.words[k] && ilock == disk.words[k + 1] && fmod == disk.words[k + 2]
      ensures ronly == disk.words[k + 3] && time == disk.words[k + 4]
    {
      hide Disk.Valid;
      flock := disk.ReadInt(k);
      ilock := disk.ReadInt(k + 1);
      fmod := disk.ReadInt(k + 2);
      ronly := disk.ReadInt(k + 3);
      time := disk.ReadInt(k + 4);
    }

    method ReadSuperBlock()
      requires Valid()
      modifies this, disk`pos, free, inode
      ensures Valid() && disk.words == old(disk.words)
      ensures Value() == Loaded(g, disk.words, old(Value()))
    {
      hide Disk.Valid;
      ghost var b := 128 * g.boot;
      disk.Seek(g.boot * 512);
      isize := disk.ReadInt(b);
      fsize := disk.ReadInt(b + 1);
      nfree := disk.ReadInt(b + 2);
      Absorb(free, b + 3);
      ninode := disk.ReadInt(b + 103);
      Absorb(inode, b + 104);
      AbsorbFlags(b + 204);
    }
  }
}

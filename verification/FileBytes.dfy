/** Files as sequences of bytes: what overwriting part of a block does to every file and to the
    listings of all directories. */
module FileBytes {
  import opened Words
  import opened DiskImage
  import opened FreeList
  import opened BlockMap
  import opened BlockMapLaws
  import opened Inodes
  import opened Paths
  import opened DirViews
  import opened Creation

  /** The bytes that the block map can address. */
  const MAX_BYTES := 16911360

  /** Byte `p` of a file; holes read as 0. */
  ghost function FileByte(v: Volume, f: int, p: int): Byte
    requires 0 <= f < |v.t| && 0 <= p < MAX_BYTES
  {
    LeafBijection(f, p / 512, LeafOf(f, p / 512), |v.t|);
    ByteOf(Data(v.s.w, v.t, LeafOf(f, p / 512), p % 512 / 4), p % 4)
  }

  /** The largest file in blocks, in entries and in bytes. */
  lemma Limits()
    ensures MAX_BLOCKS == 6 + 2 * 128 + 2 * 128 * 128 && 32 * MAX_ENTRIES == MAX_BYTES == 512 * MAX_BLOCKS
  {
  }

  /** All files hold the same bytes. */
  ghost predicate SameBytes(v: Volume, v': Volume) {
    && |v'.t| == |v.t|
    && forall f, p {:trigger FileByte(v', f, p)} :: 0 <= f < |v.t| && 0 <= p < MAX_BYTES ==>
         FileByte(v', f, p) == FileByte(v, f, p)
  }

  lemma SameDataBytes(v: Volume, v': Volume)
    requires SameData(v.s.w, v.t, v'.s.w, v'.t)
    ensures SameBytes(v, v')
  {
    forall f, p | 0 <= f < |v.t| && 0 <= p < MAX_BYTES
      ensures FileByte(v', f, p) == FileByte(v, f, p)
    {
      LeafBijection(f, p / 512, LeafOf(f, p / 512), |v.t|);
    }
  }

  lemma EntryByteOf(v: Volume, no: int, e: int, j: int)
    requires 0 <= no < |v.t| && 0 <= e < MAX_ENTRIES && 0 <= j < ENTRY_SIZE
    ensures FileByte(v, no, 32 * e + j) == ByteOf(EntryWord(v, no, e, j / 4), j % 4)
  {
    EntryPosition(e, j);
    hide LeafOf, Data, ByteOf;
  }

  /** Where byte `j` of entry `e` lies. */
  lemma EntryPosition(e: nat, j: nat)
    requires j < ENTRY_SIZE
    ensures var p := 32 * e + j; p / 512 == e / 16 && p % 512 / 4 == 8 * (e % 16) + j / 4 && p % 4 == j % 4
  {
    var q, r := e / 16, e % 16;
    assert 32 * e + j == 512 * q + (32 * r + j);
    InBlock(q, 32 * r + j);
    InWord(8 * r, j);
    InWord(8 * e, j);
  }

  lemma InBlock(q: nat, s: nat)
    requires s < 512
    ensures (512 * q + s) / 512 == q && (512 * q + s) % 512 == s
  {
  }

  lemma InWord(k: nat, j: nat)
    ensures (4 * k + j) / 4 == k + j / 4 && (4 * k + j) % 4 == j % 4
  {
  }

  lemma EntryNumberBytes(v: Volume, no: int, e: int)
    requires 0 <= no < |v.t| && 0 <= e < MAX_ENTRIES
    ensures EntryOf(v, no, e).ino ==
            FromBytes(FileByte(v, no, 32 * e), FileByte(v, no, 32 * e + 1), FileByte(v, no, 32 * e + 2),
                FileByte(v, no, 32 * e + 3))
  {
    BytesRoundTrip(EntryWord(v, no, e, 0));
    EntryByteOf(v, no, e, 0);
    EntryByteOf(v, no, e, 1);
    EntryByteOf(v, no, e, 2);
    EntryByteOf(v, no, e, 3);
    hide FileByte, EntryWord, FromBytes, ByteOf;
  }

  lemma EntryCharByte(v: Volume, no: int, e: int, j: int)
    requires 0 <= no < |v.t| && 0 <= e < MAX_ENTRIES && 0 <= j < NAME_LENGTH
    ensures EntryOf(v, no, e).name[j] == (FileByte(v, no, 32 * e + 4 + j) as int) as char
  {
    assert (4 + j) / 4 == 1 + j / 4 && (4 + j) % 4 == j % 4;
    EntryByteOf(v, no, e, 4 + j);
    hide FileByte, EntryWord, ByteOf;
  }

  /** An entry, spelled by 32 bytes of the directory. */
  lemma EntryBytes(v: Volume, no: int, e: int)
    requires 0 <= no < |v.t| && 0 <= e < MAX_ENTRIES
    ensures EntryOf(v, no, e).ino ==
            FromBytes(FileByte(v, no, 32 * e), FileByte(v, no, 32 * e + 1), FileByte(v, no, 32 * e + 2),
                FileByte(v, no, 32 * e + 3))
    ensures forall j :: 0 <= j < NAME_LENGTH ==>
            EntryOf(v, no, e).name[j] == (FileByte(v, no, 32 * e + 4 + j) as int) as char
  {
    EntryNumberBytes(v, no, e);
    hide FileByte, EntryOf, FromBytes;
    forall j | 0 <= j < NAME_LENGTH
      ensures EntryOf(v, no, e).name[j] == (FileByte(v, no, 32 * e + 4 + j) as int) as char
    {
      EntryCharByte(v, no, e, j);
    }
  }

  lemma SameEntry(v: Volume, v': Volume, no: int, e: int)
    requires |v'.t| == |v.t| && 0 <= no < |v.t| && 0 <= e < MAX_ENTRIES
    requires forall p {:trigger FileByte(v', no, p)} :: 32 * e <= p < 32 * e + 32 ==>
             FileByte(v', no, p) == FileByte(v, no, p)
    ensures EntryOf(v', no, e) == EntryOf(v, no, e)
  {
    EntryBytes(v, no, e);
    EntryBytes(v', no, e);
    hide FileByte, FromBytes;
    var x, x' := EntryOf(v, no, e), EntryOf(v', no, e);
    forall j | 0 <= j < NAME_LENGTH
      ensures x'.name[j] == x.name[j]
    {
    }
  }

  /** Bytes decide a word. */
  lemma SameBytesSameWord(w: seq<Word>, w': seq<Word>, i: nat)
    requires i < |w| == |w'|
    requires forall p: nat :: 4 * i <= p < 4 * i + 4 ==> ByteAt(w', p) == ByteAt(w, p)
    ensures w'[i] == w[i]
  {
    hide ByteOf, FromBytes;
    assert ByteAt(w', 4 * i) == ByteAt(w, 4 * i) && ByteAt(w', 4 * i + 1) == ByteAt(w, 4 * i + 1);
    assert ByteAt(w', 4 * i + 2) == ByteAt(w, 4 * i + 2) && ByteAt(w', 4 * i + 3) == ByteAt(w, 4 * i + 3);
    assert (4 * i + 1) / 4 == i && (4 * i + 2) / 4 == i && (4 * i + 3) / 4 == i;
    BytesRoundTrip(w[i]);
    BytesRoundTrip(w'[i]);
  }

  /** Overwriting bytes inside a block changes that block only. */
  lemma OverwrittenBlock(w: seq<Word>, w': seq<Word>, b: nat, off: nat, bytes: seq<Byte>)
    requires off + |bytes| <= BLOCK_SIZE && Overwritten(w, w', 512 * b + off, bytes)
    ensures OnlyBlock(w, w', b)
  {
    forall i | 0 <= i < |w| && !(128 * b <= i < 128 * b + 128)
      ensures w'[i] == w[i]
    {
      hide ByteAt;
      SameBytesSameWord(w, w', i);
    }
  }

  /** Overwriting part of a mapped block changes just those bytes of that file, and no byte of any
      other file. */
  lemma BytesWritten(g: Geometry, v: Volume, w': seq<Word>, f: int, at: int, bytes: seq<Byte>)
    requires Sound(g, v) && 0 <= f < |v.t| && 0 <= at < MAX_BYTES && at % 512 + |bytes| <= BLOCK_SIZE
    requires Block(v, f, at / 512) != 0
    requires Overwritten(v.s.w, w', 512 * Block(v, f, at / 512) + at % 512, bytes)
    ensures var v' := v.(s := v.s.(w := w')); Sound(g, v') && WroteBytes(v, v', f, at, bytes)
    ensures SameTables(g, v.s.w, w') && AsComplete(g, v, v.(s := v.s.(w := w'))) && Kept(v, v.(s := v.s.(w := w')))
  {
    var leaf, v', b := LeafOf(f, at / 512), v.(s := v.s.(w := w')), Block(v, f, at / 512) as int;
    LeafBijection(f, at / 512, leaf, |v.t|);
    assert v.owner[Ptr(v.s.w, v.t, leaf)] == leaf && g.InData(b);
    OverwrittenBlock(v.s.w, w', b, at % 512, bytes);
    LeafWrite(g, v, w', leaf);
    assert Sized(g, v.s.w);
    hide Sound, Complete, OnlyBlock, Overwritten, FileByte, Sized;
    forall k, p | 0 <= k < |v.t| && 0 <= p < MAX_BYTES
      ensures FileByte(v', k, p) == if k == f && at <= p < at + |bytes| then bytes[p - at] else FileByte(v, k, p)
    {
      ByteWritten(g, v, w', f, at, bytes, k, p);
    }
  }

  /** `v'` differs from `v` in the bytes of file `f` from `at` on, which are now `bytes`. */
  ghost predicate WroteBytes(v: Volume, v': Volume, f: int, at: int, bytes: seq<Byte>) {
    && |v'.t| == |v.t|
    && forall k, p {:trigger FileByte(v', k, p)} :: 0 <= k < |v.t| && 0 <= p < MAX_BYTES ==>
         FileByte(v', k, p) == if k == f && at <= p < at + |bytes| then bytes[p - at] else FileByte(v, k, p)
  }

  lemma ByteWritten(g: Geometry, v: Volume, w': seq<Word>, f: int, at: int, bytes: seq<Byte>, k: int, p: int)
    requires Sized(g, v.s.w) && |w'| == |v.s.w| && 0 <= f < |v.t| && 0 <= at < MAX_BYTES
             && at % 512 + |bytes| <= BLOCK_SIZE
    requires g.InData(Block(v, f, at / 512))
    requires Overwritten(v.s.w, w', 512 * Block(v, f, at / 512) + at % 512, bytes)
    requires forall x: Node, j {:trigger Data(w', v.t, x, j)} :: x.In(|v.t|) && 0 <= j < 128 ==>
               Data(w', v.t, x, j) ==
                 if x == LeafOf(f, at / 512) then w'[128 * Block(v, f, at / 512) + j] else Data(v.s.w, v.t, x, j)
    requires 0 <= k < |v.t| && 0 <= p < MAX_BYTES
    ensures FileByte(v.(s := v.s.(w := w')), k, p) ==
            if k == f && at <= p < at + |bytes| then bytes[p - at] else FileByte(v, k, p)
  {
    var x, b := LeafOf(k, p / 512), Block(v, f, at / 512) as int;
    LeafBijection(k, p / 512, x, |v.t|);
    LeavesDiffer(k, p / 512, f, at / 512, |v.t|);
    var q, j := 512 * b + p % 512, p % 512 / 4;
    assert q / 4 == 128 * b + j && q % 4 == p % 4;
    assert Data(w', v.t, x, j) == Data(w', v.t, x, j);
    hide LeafOf, ByteOf;
    if k == f && p / 512 == at / 512 {
      assert ByteAt(w', q) == ByteOf(w'[128 * b + j], p % 4) && ByteAt(v.s.w, q) == ByteOf(v.s.w[128 * b + j], p % 4);
      assert Data(v.s.w, v.t, x, j) == v.s.w[128 * b + j];
      assert p - at == p % 512 - at % 512;
    }
  }

  /** Bytes of one file were written; boot and inode area are as before, no request failed, and at
      most three blocks were used. */
  ghost predicate Streamed(g: Geometry, v: Volume, v': Volume, f: int, at: int, bytes: seq<Byte>)
    requires Sized(g, v.s.w)
  {
    && |v'.s.w| == |v.s.w| && WroteBytes(v, v', f, at, bytes) && SameTables(g, v.s.w, v'.s.w) && SameFortune(v, v')
    && AsComplete(g, v, v') && |v'.free| >= |v.free| - 3 && Kept(v, v')
    && 0 <= f < |v'.t| && 0 <= at < MAX_BYTES && Block(v', f, at / 512) != 0
  }

  /** Block `n` of file `f` has been looked up; nothing that anybody can read has changed. */
  ghost predicate LookedUp(g: Geometry, v: Volume, v': Volume, f: int, n: int) {
    && Sized(g, v.s.w) && Sound(g, v') && |v'.t| == |v.t| && |v'.s.w| == |v.s.w|
    && SameBytes(v, v') && SameTables(g, v.s.w, v'.s.w) && SameFortune(v, v')
    && AsComplete(g, v, v') && |v'.free| >= |v.free| - 3 && Kept(v, v')
    && 0 <= f < |v'.t| && 0 <= n < MAX_BLOCKS && Block(v', f, n) != 0
  }

  /** Bytes of block `b` from offset `off` on have been replaced. */
  ghost predicate PutAt(w: seq<Word>, w': seq<Word>, b: int, off: int, bytes: seq<Byte>) {
    0 <= 512 * b + off && Overwritten(w, w', 512 * b + off, bytes)
  }

  /** A walk to the block and the write into it. */
  lemma StreamWritten(g: Geometry, v: Volume, v1: Volume, w': seq<Word>, f: int, at: int, bytes: seq<Byte>)
    requires LookedUp(g, v, v1, f, at / 512) && 0 <= at && at % 512 + |bytes| <= BLOCK_SIZE
    requires PutAt(v1.s.w, w', Block(v1, f, at / 512), at % 512, bytes)
    ensures var v' := v1.(s := v1.s.(w := w')); Sound(g, v') && Streamed(g, v, v', f, at, bytes)
  {
    var v' := v1.(s := v1.s.(w := w'));
    BytesWritten(g, v1, w', f, at, bytes);
    hide Sound, Complete, WroteBytes, SameBytes;
    WroteAfterSame(v, v1, v', f, at, bytes);
    KeptTrans(v, v1, v');
    KeptBlock(v1, v', f, at / 512);
  }

  lemma KeptTrans(v: Volume, v1: Volume, v2: Volume)
    requires Kept(v, v1) && Kept(v1, v2)
    ensures Kept(v, v2)
  {
    forall x: Node | x.In(|v.t|) && Ptr(v.s.w, v.t, x) != 0
      ensures Ptr(v2.s.w, v2.t, x) == Ptr(v.s.w, v.t, x)
    {
      assert Ptr(v1.s.w, v1.t, x) == Ptr(v.s.w, v.t, x);
    }
  }

  /** A mapped block stays mapped. */
  lemma KeptBlock(v: Volume, v': Volume, f: int, n: int)
    requires Kept(v, v') && 0 <= f < |v.t| && 0 <= n < MAX_BLOCKS && Block(v, f, n) != 0
    ensures Block(v', f, n) == Block(v, f, n)
  {
    LeafBijection(f, n, LeafOf(f, n), |v.t|);
  }

  lemma WroteAfterSame(v: Volume, v1: Volume, v2: Volume, f: int, at: int, bytes: seq<Byte>)
    requires SameBytes(v, v1) && WroteBytes(v1, v2, f, at, bytes)
    ensures WroteBytes(v, v2, f, at, bytes)
  {
  }

  lemma SameAfterWrote(v: Volume, v1: Volume, v2: Volume, f: int, at: int, bytes: seq<Byte>)
    requires WroteBytes(v, v1, f, at, bytes) && SameBytes(v1, v2)
    ensures WroteBytes(v, v2, f, at, bytes)
  {
  }

  /** With enough free blocks a walk to a leaf leaves all files as they are and maps the leaf. */
  lemma WalkedBlock(g: Geometry, v: Volume, v': Volume, f: int, n: int, b: Word)
    requires Sound(g, v) && 0 <= f < |v.t| && 0 <= n < MAX_BLOCKS && Walked(g, v, v', LeafOf(f, n), b)
    requires Need(v, f, n) <= |v.free|
    ensures LookedUp(g, v, v', f, n) && b == Block(v', f, n) && g.InData(b)
  {
    WalkedLaws(g, v, v', f, n, b);
    SameDataBytes(v, v');
    LeafBijection(f, n, LeafOf(f, n), |v.t|);
    assert v'.owner[Ptr(v'.s.w, v'.t, LeafOf(f, n))] == LeafOf(f, n);
  }

  /** Three blocks are always enough. */
  lemma NeedAtMostThree(v: Volume, f: int, n: int)
    requires 0 <= f < |v.t| && 0 <= n < MAX_BLOCKS
    ensures Need(v, f, n) <= 3
  {
    PathIn(f, n, |v.t|);
    LeafBijection(f, n, LeafOf(f, n), |v.t|);
    MissingAtEnd(v.s.w, v.t, LeafOf(f, n));
  }

  // ---------------------------------------------------------------- directory entries

  /** The 28 characters of a name are single bytes. */
  predicate Narrow(name: string) {
    |name| == NAME_LENGTH && forall j :: 0 <= j < NAME_LENGTH ==> name[j] as int < 256
  }

  /** The 32 bytes of a directory entry. */
  ghost function Record(ino: Word, name: string): (r: seq<Byte>)
    requires Narrow(name)
    ensures |r| == ENTRY_SIZE
  {
    [ByteOf(ino, 0), ByteOf(ino, 1), ByteOf(ino, 2), ByteOf(ino, 3)]
    + seq(NAME_LENGTH, j requires 0 <= j < NAME_LENGTH => name[j] as int)
  }

  /** Writing a record at the place of entry `e` makes that entry what was written. */
  lemma RecordIsEntry(v: Volume, v': Volume, f: int, e: int, ino: Word, name: string)
    requires 0 <= f < |v.t| && 0 <= e < MAX_ENTRIES && Narrow(name) && WroteBytes(v, v', f, 32 * e, Record(ino, name))
    ensures EntryOf(v', f, e) == Entry(ino, name)
  {
    EntryBytes(v', f, e);
    BytesRoundTrip(ino);
    var r, x := Record(ino, name), EntryOf(v', f, e);
    assert forall j :: 0 <= j < ENTRY_SIZE ==> FileByte(v', f, 32 * e + j) == r[j];
    hide FileByte, FromBytes, ByteOf, EntryOf;
    assert FileByte(v', f, 32 * e) == r[0];
    forall j | 0 <= j < NAME_LENGTH
      ensures x.name[j] == name[j]
    {
      assert FileByte(v', f, 32 * e + 4 + j) == r[4 + j] == name[j] as int;
    }
    assert x.name == name;
  }

  /** ... and leaves all other entries of all files alone. */
  lemma OtherEntries(v: Volume, v': Volume, f: int, e: int, bytes: seq<Byte>, k: int, i: int)
    requires 0 <= f < |v.t| && 0 <= e < MAX_ENTRIES && |bytes| == ENTRY_SIZE && WroteBytes(v, v', f, 32 * e, bytes)
    requires 0 <= k < |v.t| && 0 <= i < MAX_ENTRIES && (k, i) != (f, e)
    ensures EntryOf(v', k, i) == EntryOf(v, k, i)
  {
    SameEntry(v, v', k, i);
  }

  /** What lies behind the end of a directory, read as an entry. */
  ghost function Behind(g: Geometry, v: Volume, no: int): Entry
    requires Sized(g, v.s.w) && IsInode(g, no) && |v.t| == g.InodeCount()
  {
    var n := |DirOf(g, v, no).entries|;
    if n < MAX_ENTRIES then EntryOf(v, no, n) else Entry(0, Padded(""))
  }

  /** The record is in its place, in a mapped block, and no place has lost its block. */
  ghost predicate Entered(v: Volume, v': Volume, no: int, slot: int, ino: Word, name: string) {
    && Narrow(name) && WroteBytes(v, v', no, slot, Record(ino, name)) && Kept(v, v')
    && 0 <= no < |v'.t| && 0 <= slot < MAX_BYTES && Block(v', no, slot / 512) != 0
  }

  lemma StaysEntered(v: Volume, v1: Volume, v2: Volume, no: int, slot: int, ino: Word, name: string)
    requires Entered(v, v1, no, slot, ino, name) && SameBytes(v1, v2) && Kept(v1, v2)
    ensures Entered(v, v2, no, slot, ino, name)
  {
    SameAfterWrote(v, v1, v2, no, slot, Record(ino, name));
    KeptTrans(v, v1, v2);
    KeptBlock(v1, v2, no, slot / 512);
  }

  lemma EnteredAfter(v: Volume, v1: Volume, v2: Volume, no: int, slot: int, ino: Word, name: string)
    requires SameBytes(v, v1) && Kept(v, v1) && Entered(v1, v2, no, slot, ino, name)
    ensures Entered(v, v2, no, slot, ino, name)
  {
    WroteAfterSame(v, v1, v2, no, slot, Record(ino, name));
    KeptTrans(v, v1, v2);
  }

  /** What a creation does to the listings of all directories: the parent grew by 32 bytes and got
      the record, the new file is empty as its inode was before, and no other inode changed. */
  lemma RecordIsAdded(g: Geometry, v: Volume, v': Volume, dir: int, slot: int, ino: Word, name: string)
    requires Sized(g, v.s.w) && Sized(g, v'.s.w) && |v.t| == g.InodeCount() && |v'.t| == |v.t| && IsInode(g, dir)
    requires Sane(DirOf(g, v, dir)) && slot == SlotFor(DirOf(g, v, dir)) && DirOf(g, v, dir).size % ENTRY_SIZE == 0
    requires |DirOf(g, v, dir).entries| < MAX_ENTRIES
    requires Narrow(name) && WroteBytes(v, v', dir, slot, Record(ino, name))
    requires InodeAt(g, v'.s.w, dir).size == InodeAt(g, v.s.w, dir).size + ENTRY_SIZE
    requires forall k {:trigger InodeAt(g, v'.s.w, k)} :: IsInode(g, k) && k != dir ==>
             InodeAt(g, v'.s.w, k).size == InodeAt(g, v.s.w, k).size
    ensures Added(Dirs(g, v), Dirs(g, v'), dir, slot, Entry(ino, name), Behind(g, v, dir))
  {
    var d, d' := DirOf(g, v, dir), DirOf(g, v', dir);
    SlotIsFree(d);
    var e, tail := slot / ENTRY_SIZE, Behind(g, v, dir);
    assert slot == 32 * e && |d'.entries| == |d.entries| + 1;
    hide EntryOf, WroteBytes, SlotFor, InodeAt, Record, EntriesAfter;
    RecordIsEntry(v, v', dir, e, ino, name);
    EntryInDir(g, v', dir, e);
    forall k | 0 <= k <= |d.entries| && k != e
      ensures d'.entries[k] == EntryOf(v, dir, k) && (k < |d.entries| ==> d.entries[k] == EntryOf(v, dir, k))
    {
      OtherEntries(v, v', dir, e, Record(ino, name), dir, k);
      EntryInDir(g, v', dir, k);
      if k < |d.entries| {
        EntryInDir(g, v, dir, k);
      }
    }
    EntriesAreAfter(d.entries, d'.entries, e, Entry(ino, name), tail);
    forall k | IsInode(g, k) && k != dir
      ensures DirOf(g, v', k).size == DirOf(g, v, k).size && DirOf(g, v', k).entries == DirOf(g, v, k).entries
    {
      OtherListing(g, v, v', dir, e, Record(ino, name), k);
    }
  }

  lemma EntriesAreAfter(a: seq<Entry>, b: seq<Entry>, e: nat, x: Entry, tail: Entry)
    requires e <= |a| && |b| == |a| + 1 && b[e] == x && (e < |a| ==> b[|a|] == tail)
    requires forall k :: 0 <= k < |a| && k != e ==> b[k] == a[k]
    ensures b == EntriesAfter(a, e, x, tail)
  {
  }

  lemma OtherListing(g: Geometry, v: Volume, v': Volume, dir: int, e: int, bytes: seq<Byte>, k: int)
    requires Sized(g, v.s.w) && Sized(g, v'.s.w) && |v.t| == g.InodeCount() && |v'.t| == |v.t| && IsInode(g, dir)
    requires 0 <= e < MAX_ENTRIES && |bytes| == ENTRY_SIZE && WroteBytes(v, v', dir, 32 * e, bytes)
    requires IsInode(g, k) && k != dir && InodeAt(g, v'.s.w, k).size == InodeAt(g, v.s.w, k).size
    ensures DirOf(g, v', k).size == DirOf(g, v, k).size && DirOf(g, v', k).entries == DirOf(g, v, k).entries
  {
    var n := EntryCount(InodeAt(g, v.s.w, k).size);
    if 0 <= n <= MAX_ENTRIES {
      forall i | 0 <= i < n
        ensures EntryOf(v', k, i) == EntryOf(v, k, i)
      {
        OtherEntries(v, v', dir, e, bytes, k, i);
      }
      hide EntryOf;
      assert Entries(v', k, n) == Entries(v, k, n);
    }
  }
}

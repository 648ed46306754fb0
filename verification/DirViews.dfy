/** Directories as lookups see them: entries read through the block map, holes reading as 0. */
module DirViews {
  import opened Words
  import opened DiskImage
  import opened SuperBlocks
  import opened FreeList
  import opened BlockMap
  import opened BlockMapLaws
  import opened Runs
  import opened Inodes
  import opened Paths

  /** The address arrays of all inodes on disk. */
  ghost function DiskTable(g: Geometry, w: seq<Word>): (t: Table)
    requires Sized(g, w)
    ensures |t| == g.InodeCount()
    ensures forall no {:trigger t[no]} :: 0 <= no < |t| ==> t[no] == InodeAt(g, w, no).addr
  {
    seq(g.InodeCount(), no requires 0 <= no < g.InodeCount() => InodeAt(g, w, no).addr)
  }

  /** Word `i` of entry `e` of file `no`. */
  ghost function EntryWord(v: Volume, no: int, e: int, i: int): Word
    requires 0 <= no < |v.t| && 0 <= e < MAX_ENTRIES && 0 <= i < 8
  {
    LeafBijection(no, e / 16, LeafOf(no, e / 16), |v.t|);
    Data(v.s.w, v.t, LeafOf(no, e / 16), 8 * (e % 16) + i)
  }

  ghost function NameChar(v: Volume, no: int, e: int, j: int): char
    requires 0 <= no < |v.t| && 0 <= e < MAX_ENTRIES && 0 <= j < NAME_LENGTH
  {
    (ByteOf(EntryWord(v, no, e, 1 + j / 4), j % 4) as int) as char
  }

  ghost function EntryOf(v: Volume, no: int, e: int): (r: Entry)
    requires 0 <= no < |v.t| && 0 <= e < MAX_ENTRIES
    ensures r.ino == EntryWord(v, no, e, 0) && |r.name| == NAME_LENGTH
    ensures forall j {:trigger r.name[j]} :: 0 <= j < NAME_LENGTH ==> r.name[j] == NameChar(v, no, e, j)
  {
    Entry(EntryWord(v, no, e, 0), seq(NAME_LENGTH, j requires 0 <= j < NAME_LENGTH => NameChar(v, no, e, j)))
  }

  /** The unmapped blocks among blocks `k` to `n - 1` of file `no`. */
  ghost function Holes(v: Volume, no: int, k: nat, n: nat): nat
    requires 0 <= no < |v.t| && k <= n <= MAX_BLOCKS
    decreases n - k
  {
    if k == n then 0 else (if Block(v, no, k) == 0 then 1 else 0) + Holes(v, no, k + 1, n)
  }

  ghost function BlockCount(entries: nat): nat {
    (entries + 15) / 16
  }

  ghost function DirOf(g: Geometry, v: Volume, no: int): (d: Dir)
    requires Sized(g, v.s.w) && IsInode(g, no) && |v.t| == g.InodeCount()
    ensures d.size == InodeAt(g, v.s.w, no).size
    ensures 0 <= EntryCount(d.size) <= MAX_ENTRIES <==> Sane(d)
    ensures Sane(d) ==> d.holes == Holes(v, no, 0, BlockCount(|d.entries|))
  {
    var size := InodeAt(g, v.s.w, no).size;
    var n := EntryCount(size);
    if 0 <= n <= MAX_ENTRIES then
      Dir(size, Entries(v, no, n), Holes(v, no, 0, BlockCount(n)))
    else Dir(size, [], 0)
  }

  lemma EntryInDir(g: Geometry, v: Volume, no: int, e: int)
    requires Sized(g, v.s.w) && IsInode(g, no) && |v.t| == g.InodeCount() && Sane(DirOf(g, v, no))
    requires 0 <= e < |DirOf(g, v, no).entries|
    ensures DirOf(g, v, no).entries[e] == EntryOf(v, no, e)
  {
  }

  ghost function Entries(v: Volume, no: int, n: nat): (r: seq<Entry>)
    requires 0 <= no < |v.t| && n <= MAX_ENTRIES
    ensures |r| == n && forall e {:trigger r[e]} :: 0 <= e < n ==> r[e] == EntryOf(v, no, e)
  {
    seq(n, e requires 0 <= e < n => EntryOf(v, no, e))
  }

  ghost function Dirs(g: Geometry, v: Volume): (r: seq<Dir>)
    requires Sized(g, v.s.w) && |v.t| == g.InodeCount()
    ensures |r| == g.InodeCount() && forall no {:trigger r[no]} :: 0 <= no < |r| ==> r[no] == DirOf(g, v, no)
  {
    seq(g.InodeCount(), no requires 0 <= no < g.InodeCount() => DirOf(g, v, no))
  }

  // ---------------------------------------------------------------- states during a lookup

  /** Places that had a block in `v0` still have it. */
  ghost predicate Kept(v0: Volume, v: Volume) {
    && |v.t| == |v0.t|
    && forall x: Node {:trigger Ptr(v.s.w, v.t, x)} :: x.In(|v0.t|) && Ptr(v0.s.w, v0.t, x) != 0 ==>
         Ptr(v.s.w, v.t, x) == Ptr(v0.s.w, v0.t, x)
  }

  /** `v` arose from `v0` by filling holes, none of which failed: all files read the same, and
      boot and inode area are the same. */
  ghost predicate Later(g: Geometry, v0: Volume, v: Volume)
    requires Sized(g, v0.s.w)
  {
    && Kept(v0, v) && |v.s.w| == |v0.s.w| && v.s.sb.nfree >= 1
    && SameData(v0.s.w, v0.t, v.s.w, v.t) && SameTables(g, v0.s.w, v.s.w)
  }

  /** The one accounts for all data blocks exactly if the other does. */
  ghost predicate AsComplete(g: Geometry, v: Volume, v': Volume) {
    Complete(g, v') <==> Complete(g, v)
  }

  lemma AsCompleteTrans(g: Geometry, v: Volume, v1: Volume, v2: Volume)
    requires AsComplete(g, v, v1) && AsComplete(g, v1, v2)
    ensures AsComplete(g, v, v2)
  {
  }

  /** The address under which logical block `k` lies. */
  function RootOf(k: int): int {
    LeafOf(0, k).i
  }

  /** Looking up block `k` of file `f` filled its address at most. */
  ghost predicate Onto(v: Volume, v': Volume, f: int, k: int) {
    && 0 <= f < |v.t| == |v'.t| && 0 <= RootOf(k) < 10 && v'.t[f][RootOf(k)] != 0
    && forall i {:trigger v'.t[f][i]} :: 0 <= i < 10 && i != RootOf(k) ==> v'.t[f][i] == v.t[f][i]
  }

  lemma RootOfLeaf(w: seq<Word>, t: Table, f: int, n: int)
    requires 0 <= f < |t| && 0 <= n < MAX_BLOCKS
    ensures LeafOf(f, n).In(|t|) && 0 <= RootOf(n) < 10
    ensures Ptr(w, t, LeafOf(f, n)) != 0 ==> t[f][RootOf(n)] != 0
    ensures forall i :: i != RootOf(n) ==> Top(f, i) !in PathOf(LeafOf(f, n))
  {
    LeafBijection(f, n, LeafOf(f, n), |t|);
  }

  /** Addresses that are not on the path stay. */
  lemma OtherAddresses(g: Geometry, v: Volume, v': Volume, path: seq<Node>, f: int)
    requires Sized(g, v.s.w) && AllIn(path, |v.t|) && Extended(g, v, v', Filled(v, path)) && 0 <= f < |v.t|
    ensures forall i {:trigger v'.t[f][i]} :: 0 <= i < 10 && Top(f, i) !in path ==> v'.t[f][i] == v.t[f][i]
  {
    var taken := Filled(v, path);
    hide Filled, SameData, SameTables;
    forall i | 0 <= i < 10 && Top(f, i) !in path
      ensures v'.t[f][i] == v.t[f][i]
    {
      NotFilled(v, path, Top(f, i));
      assert Ptr(v'.s.w, v'.t, Top(f, i)) == Ptr(v.s.w, v.t, Top(f, i));
    }
  }

  lemma NotFilled(v: Volume, path: seq<Node>, x: Node)
    requires AllIn(path, |v.t|) && x !in path
    ensures x !in Filled(v, path)
  {
  }

  lemma RootFilled(g: Geometry, v: Volume, v': Volume, f: int, n: int, b: Word)
    requires Sound(g, v) && 0 <= f < |v.t| && 0 <= n < MAX_BLOCKS && Walked(g, v, v', LeafOf(f, n), b)
    requires Need(v, f, n) <= |v.free|
    ensures Onto(v, v', f, n)
  {
    WalkedLaws(g, v, v', f, n, b);
    RootOfLeaf(v'.s.w, v'.t, f, n);
    hide Sound, Complete, Filled, LeafOf, RootOf, SameTables, SameData, Need, Extended, Reached;
    OtherAddresses(g, v, v', PathOf(LeafOf(f, n)), f);
  }

  /** The addresses under which the first `m` blocks of a file lie. */
  function Reach(m: nat): nat {
    if m == 0 then 0 else if RootOf(m - 1) < 0 then 0 else RootOf(m - 1) + 1
  }

  lemma RootCases(k: nat)
    requires k < MAX_BLOCKS
    ensures RootOf(k) == if k < 6 then k else if k < 134 then 6 else if k < 262 then 7 else if k < 16646 then 8 else 9
  {
  }

  lemma ReachStep(m: nat)
    requires m < MAX_BLOCKS
    ensures Reach(m + 1) == RootOf(m) + 1 && Reach(m) <= Reach(m + 1) <= Reach(m) + 1 && Reach(m + 1) <= 10
  {
    RootCases(m);
    if m > 0 {
      RootCases(m - 1);
    }
    hide RootOf;
  }

  /** The first `m` blocks of file `no` have been looked up since `v0`, and no others. */
  ghost predicate RootsSeen(v0: Volume, v: Volume, no: int, m: nat) {
    && 0 <= no < |v0.t| == |v.t|
    && forall i {:trigger v.t[no][i]} :: 0 <= i < 10 ==> (v.t[no][i] != 0 <==> v0.t[no][i] != 0 || i < Reach(m))
  }

  /** The addresses of the first `m` blocks of file `no` are not 0. */
  ghost predicate RootsMapped(v: Volume, no: int, m: nat) {
    0 <= no < |v.t| && forall i {:trigger v.t[no][i]} :: 0 <= i < 10 && i < Reach(m) ==> v.t[no][i] != 0
  }

  lemma SeenStep(v0: Volume, v: Volume, v': Volume, no: int, m: nat)
    requires RootsSeen(v0, v, no, m) && m < MAX_BLOCKS && Onto(v, v', no, m)
    ensures RootsSeen(v0, v', no, m + 1)
  {
    ReachStep(m);
    hide RootOf, Reach;
    forall i | 0 <= i < 10
      ensures v'.t[no][i] != 0 <==> v0.t[no][i] != 0 || i < Reach(m + 1)
    {
      assert v.t[no][i] != 0 <==> v0.t[no][i] != 0 || i < Reach(m);
    }
  }

  /** One block more has been looked up. At most 3 blocks are used, and none if it was mapped. */
  lemma LookupLater(g: Geometry, v0: Volume, v: Volume, v': Volume, f: int, n: int, b: Word)
    requires Sized(g, v0.s.w) && Sound(g, v) && Later(g, v0, v) && 0 <= f < |v0.t| && 0 <= n < MAX_BLOCKS
    requires Walked(g, v, v', LeafOf(f, n), b)
    requires |v.free| >= if Block(v0, f, n) == 0 then 3 else 0
    ensures Later(g, v0, v') && b == Block(v', f, n) && g.InData(b)
    ensures |v'.free| >= |v.free| - if Block(v0, f, n) == 0 then 3 else 0
    ensures AsComplete(g, v, v') && Onto(v, v', f, n)
  {
    NeedOfLookup(g, v0, v, f, n);
    LeafBijection(f, n, LeafOf(f, n), |v.t|);
    WalkedLaws(g, v, v', f, n, b);
    RootFilled(g, v, v', f, n, b);
    KeptByWalk(g, v0, v, v', f, n, b);
    SameDataTrans(v0, v, v');
    assert v'.owner[Ptr(v'.s.w, v'.t, LeafOf(f, n))] == LeafOf(f, n);
  }

  /** A block that was mapped in `v0` needs nothing, any other at most 3. */
  lemma NeedOfLookup(g: Geometry, v0: Volume, v: Volume, f: int, n: int)
    requires Kept(v0, v) && 0 <= f < |v0.t| && 0 <= n < MAX_BLOCKS
    ensures Need(v, f, n) <= if Block(v0, f, n) == 0 then 3 else 0
  {
    LeafBijection(f, n, LeafOf(f, n), |v.t|);
    PathIn(f, n, |v.t|);
    MissingAtEnd(v.s.w, v.t, LeafOf(f, n));
    assert Block(v0, f, n) != 0 ==> Block(v, f, n) == Block(v0, f, n);
  }

  lemma KeptByWalk(g: Geometry, v0: Volume, v: Volume, v': Volume, f: int, n: int, b: Word)
    requires Sized(g, v.s.w) && Kept(v0, v) && 0 <= f < |v0.t| && 0 <= n < MAX_BLOCKS
             && Walked(g, v, v', LeafOf(f, n), b)
    ensures Kept(v0, v')
  {
    var path := PathOf(LeafOf(f, n));
    forall x: Node | x.In(|v0.t|) && Ptr(v0.s.w, v0.t, x) != 0
      ensures Ptr(v'.s.w, v'.t, x) == Ptr(v0.s.w, v0.t, x)
    {
      assert Ptr(v.s.w, v.t, x) != 0;
      assert x !in Filled(v, path);
    }
  }

  lemma SameDataTrans(v0: Volume, v: Volume, v': Volume)
    requires SameData(v0.s.w, v0.t, v.s.w, v.t) && SameData(v.s.w, v.t, v'.s.w, v'.t)
    ensures SameData(v0.s.w, v0.t, v'.s.w, v'.t)
  {
  }

  /** Going back to the addresses on disk forgets blocks put into in-core addresses since, and
      nothing else. */
  lemma Reload(g: Geometry, v0: Volume, v: Volume)
    requires Sized(g, v0.s.w) && Sound(g, v0) && Sound(g, v) && Later(g, v0, v)
    ensures var v' := v.(t := v0.t); Sound(g, v') && Later(g, v0, v')
  {
    var v' := v.(t := v0.t);
    forall x: Node | x.In(|v0.t|)
      ensures Ptr(v'.s.w, v'.t, x) != 0 ==> Ptr(v'.s.w, v'.t, x) == Ptr(v.s.w, v.t, x)
      ensures Ptr(v0.s.w, v0.t, x) != 0 ==> Ptr(v'.s.w, v'.t, x) == Ptr(v0.s.w, v0.t, x)
    {
      ReloadNode(v0, v, x);
    }
    forall x: Node, j | x.In(|v0.t|) && x.Leaf() && 0 <= j < 128
      ensures Data(v'.s.w, v'.t, x, j) == Data(v0.s.w, v0.t, x, j)
    {
      assert Data(v.s.w, v.t, x, j) == Data(v0.s.w, v0.t, x, j);
      assert Ptr(v'.s.w, v'.t, x) == 0 ==> Ptr(v0.s.w, v0.t, x) == 0;
    }
  }

  /** Leaving a directory forgets a block, which nothing holds from then on, exactly if an address of
      the blocks that were read was 0. */
  lemma ReloadComplete(g: Geometry, v0: Volume, v: Volume, no: int, m: nat)
    requires Sized(g, v0.s.w) && Sound(g, v) && Later(g, v0, v) && RootsSeen(v0, v, no, m)
    requires v.t == v0.t[no := v.t[no]]
    ensures Complete(g, v.(t := v0.t)) <==> Complete(g, v) && RootsMapped(v0, no, m)
  {
    var v' := v.(t := v0.t);
    forall i | 0 <= i < 10 && v0.t[no][i] != 0
      ensures v.t[no][i] == v0.t[no][i]
    {
      assert Ptr(v0.s.w, v0.t, Top(no, i)) != 0;
      assert Ptr(v.s.w, v.t, Top(no, i)) == Ptr(v0.s.w, v0.t, Top(no, i));
    }
    if RootsMapped(v0, no, m) {
      hide Reach;
      assert v.t[no] == v0.t[no];
    } else {
      var i :| 0 <= i < 10 && i < Reach(m) && v0.t[no][i] == 0;
      assert v.owner[Ptr(v.s.w, v.t, Top(no, i))] == Top(no, i);
      assert Ptr(v'.s.w, v'.t, Top(no, i)) == 0;
    }
  }

  /** The effect of leaving directory `no` after `m` of its blocks have been read. */
  ghost predicate Left(g: Geometry, v0: Volume, v: Volume, v': Volume, no: int, m: nat) {
    Complete(g, v') <==> Complete(g, v) && RootsMapped(v0, no, m)
  }

  /** The blocks of directory `no` that a lookup reads for the name at position `i` of the path: none
      for a name that is too long. */
  ghost function ReadAt(g: Geometry, v: Volume, path: string, no: int, i: nat): nat {
    if Sized(g, v.s.w) && |v.t| == g.InodeCount() && IsInode(g, no) && i <= |path|
        && |NameAt(path, i)| <= NAME_LENGTH then
      BlocksRead(DirOf(g, v, no), Padded(NameAt(path, i)))
    else 0
  }

  /** Just the blocks that were read for the name at position `i` have been looked up. */
  ghost predicate SeenAt(g: Geometry, v0: Volume, v: Volume, path: string, no: int, i: nat) {
    RootsSeen(v0, v, no, ReadAt(g, v0, path, no, i))
  }

  lemma SeenAtFrame(g: Geometry, v0: Volume, v: Volume, v': Volume, path: string, no: int, i: nat)
    requires SeenAt(g, v0, v, path, no, i) && v'.t == v.t
    ensures SeenAt(g, v0, v', path, no, i)
  {
  }

  lemma SeenAtRead(g: Geometry, v0: Volume, v: Volume, path: string, no: int, i: nat, name: string)
    requires Sized(g, v0.s.w) && |v0.t| == g.InodeCount() && IsInode(g, no) && i <= |path|
    requires |NameAt(path, i)| <= NAME_LENGTH && name == Padded(NameAt(path, i))
    requires RootsSeen(v0, v, no, BlocksRead(DirOf(g, v0, no), name))
    ensures SeenAt(g, v0, v, path, no, i)
  {
  }

  lemma SeenAtNone(g: Geometry, v0: Volume, v: Volume, path: string, no: int, i: nat)
    requires 0 <= no < |v0.t| && v.t == v0.t && i <= |path| && |NameAt(path, i)| > NAME_LENGTH
    ensures SeenAt(g, v0, v, path, no, i)
  {
  }

  lemma BlockCountGrows(a: nat, b: nat)
    requires a <= b
    ensures BlockCount(a) <= BlockCount(b)
  {
  }

  /** The forgotten block in the open: it is a data block that is neither free nor held by any place. */
  lemma CompleteIffNothingLost(g: Geometry, v: Volume, v': Volume)
    requires Sound(g, v) && Complete(g, v) && Sound(g, v') && v' == v.(s := v'.s, t := v'.t) && |v'.t| == |v.t|
    ensures Complete(g, v') <==> NothingLost(g, v')
  {
    if Complete(g, v') {
      SoundIsOwned(g, v');
    }
    if NothingLost(g, v') {
      forall b | b in v'.owner
        ensures Ptr(v'.s.w, v'.t, v'.owner[b]) == b
      {
        var x: Node :| x.In(|v'.t|) && Ptr(v'.s.w, v'.t, x) == b;
      }
    }
  }

  lemma ReloadNode(v0: Volume, v: Volume, x: Node)
    requires Kept(v0, v) && x.In(|v0.t|)
    ensures Ptr(v.s.w, v0.t, x) != 0 ==> Ptr(v.s.w, v0.t, x) == Ptr(v.s.w, v.t, x)
    ensures Ptr(v0.s.w, v0.t, x) != 0 ==> Ptr(v.s.w, v0.t, x) == Ptr(v0.s.w, v0.t, x)
    decreases if x.Top? then 0 else if x.Mid? then 1 else 2
  {
    assert Ptr(v0.s.w, v0.t, x) != 0 ==> Ptr(v.s.w, v.t, x) == Ptr(v0.s.w, v0.t, x);
    if !x.Top? {
      ReloadNode(v0, v, x.Parent());
    }
  }

  // ---------------------------------------------------------------- a block in memory

  /** The buffer holds logical block `k` of file `no`. */
  ghost predicate Holds(buf: seq<Byte>, v: Volume, no: int, k: int)
    requires 0 <= no < |v.t| && 0 <= k < MAX_BLOCKS
  {
    LeafBijection(no, k, LeafOf(no, k), |v.t|);
    && |buf| == BLOCK_SIZE
    && forall i {:trigger buf[i]} :: 0 <= i < BLOCK_SIZE ==>
         buf[i] == ByteOf(Data(v.s.w, v.t, LeafOf(no, k), i / 4), i % 4)
  }

  /** The 512 bytes from the start of a mapped block on. */
  lemma BlockInBuffer(g: Geometry, v0: Volume, v: Volume, no: int, k: int, buf: seq<Byte>, b: Word)
    requires Sized(g, v0.s.w) && Sized(g, v.s.w) && Later(g, v0, v) && 0 <= no < |v0.t| && 0 <= k < MAX_BLOCKS
    requires |buf| == BLOCK_SIZE && g.InData(b) && b == Block(v, no, k)
    requires forall i {:trigger buf[i]} :: 0 <= i < BLOCK_SIZE ==> buf[i] == ByteAt(v.s.w, 512 * (b as int) + i)
    ensures Holds(buf, v0, no, k)
  {
    var leaf := LeafOf(no, k);
    LeafBijection(no, k, leaf, |v.t|);
    forall i | 0 <= i < BLOCK_SIZE
      ensures buf[i] == ByteOf(Data(v0.s.w, v0.t, leaf, i / 4), i % 4)
    {
      assert (512 * (b as int) + i) / 4 == 128 * (b as int) + i / 4 && (512 * (b as int) + i) % 4 == i % 4;
      assert Data(v.s.w, v.t, leaf, i / 4) == v.s.w[128 * (b as int) + i / 4];
    }
  }

  lemma EntryByte(buf: seq<Byte>, v: Volume, no: int, e: int, j: int)
    requires 0 <= no < |v.t| && 0 <= e < MAX_ENTRIES && Holds(buf, v, no, e / 16) && 0 <= j < ENTRY_SIZE
    ensures |buf| == BLOCK_SIZE && buf[ENTRY_SIZE * (e % 16) + j] == ByteOf(EntryWord(v, no, e, j / 4), j % 4)
  {
    var i := ENTRY_SIZE * (e % 16) + j;
    assert i / 4 == 8 * (e % 16) + j / 4 && i % 4 == j % 4;
    assert buf[i] == ByteOf(Data(v.s.w, v.t, LeafOf(no, e / 16), i / 4), i % 4);
  }

  /** The 28 bytes of a name in a buffer. */
  ghost function NameIn(buf: seq<Byte>, at: int): (r: string)
    requires |buf| == BLOCK_SIZE && 0 <= at && at + ENTRY_SIZE <= BLOCK_SIZE
    ensures |r| == NAME_LENGTH
    ensures forall j {:trigger r[j]} :: 0 <= j < NAME_LENGTH ==> r[j] == (buf[at + 4 + j] as int) as char
  {
    seq(NAME_LENGTH, j requires 0 <= j < NAME_LENGTH => (buf[at + 4 + j] as int) as char)
  }

  lemma OffsetInBlock(e: nat)
    ensures ENTRY_SIZE * e % BLOCK_SIZE == ENTRY_SIZE * (e % 16)
    ensures ENTRY_SIZE * e / BLOCK_SIZE == e / 16
  {
    assert ENTRY_SIZE * e == BLOCK_SIZE * (e / 16) + ENTRY_SIZE * (e % 16);
  }

  /** The inode number of an entry in the buffer. */
  lemma EntryNumber(buf: seq<Byte>, v: Volume, no: int, e: int, at: int)
    requires 0 <= no < |v.t| && 0 <= e < MAX_ENTRIES && Holds(buf, v, no, e / 16) && at == ENTRY_SIZE * (e % 16)
    ensures |buf| == BLOCK_SIZE && EntryOf(v, no, e).ino == FromBytes(buf[at], buf[at + 1], buf[at + 2], buf[at + 3])
  {
    BytesRoundTrip(EntryWord(v, no, e, 0));
    EntryByte(buf, v, no, e, 0);
    EntryByte(buf, v, no, e, 1);
    EntryByte(buf, v, no, e, 2);
    EntryByte(buf, v, no, e, 3);
  }

  lemma EntryChar(buf: seq<Byte>, v: Volume, no: int, e: int, at: int, j: int)
    requires 0 <= no < |v.t| && 0 <= e < MAX_ENTRIES && Holds(buf, v, no, e / 16) && at == ENTRY_SIZE * (e % 16)
    requires 0 <= j < NAME_LENGTH
    ensures |buf| == BLOCK_SIZE && EntryOf(v, no, e).name[j] == (buf[at + 4 + j] as int) as char
  {
    assert (4 + j) / 4 == 1 + j / 4 && (4 + j) % 4 == j % 4;
    EntryByte(buf, v, no, e, 4 + j);
  }

  /** The name of an entry in the buffer. */
  lemma EntryName(buf: seq<Byte>, v: Volume, no: int, e: int, at: int)
    requires 0 <= no < |v.t| && 0 <= e < MAX_ENTRIES && Holds(buf, v, no, e / 16) && at == ENTRY_SIZE * (e % 16)
    ensures |buf| == BLOCK_SIZE && EntryOf(v, no, e).name == NameIn(buf, at)
  {
    assert |buf| == BLOCK_SIZE;
    hide Holds;
    forall j | 0 <= j < NAME_LENGTH
      ensures EntryOf(v, no, e).name[j] == (buf[at + 4 + j] as int) as char
    {
      EntryChar(buf, v, no, e, at, j);
    }
  }

  // ---------------------------------------------------------------- the scan of one directory

  /** The variables of the scan that remember an unused entry, after the first `e` entries. */
  ghost predicate Remembered(entries: seq<Entry>, e: nat, firstFreeOffset: int, freeFlag: int)
    requires e <= |entries|
  {
    if e > 1 && FirstUnused(entries[..e], 1) < e then
      firstFreeOffset == ENTRY_SIZE * FirstUnused(entries[..e], 1) && freeFlag == 1
    else firstFreeOffset == 0 && freeFlag == if e > 0 && entries[0].Unused() then 1 else 0
  }

  lemma SameBlockNext(e: nat)
    ensures (e + 1) % 16 != 0 ==> (e + 1) / 16 == e / 16
  {
  }

  /** The lowest match is here, or further on. */
  lemma MatchStep(entries: seq<Entry>, name: string, e: nat)
    requires e < |entries| && Match(entries, name, 0) >= e
    ensures if entries[e].name == name then Match(entries, name, 0) == e else Match(entries, name, 0) > e
  {
  }

  lemma FirstUnusedSnoc(entries: seq<Entry>, e: nat, from: nat)
    requires from <= e < |entries|
    ensures FirstUnused(entries[..e + 1], from) ==
            if FirstUnused(entries[..e], from) < e then FirstUnused(entries[..e], from)
            else if entries[e].Unused() then e else e + 1
  {
    var a, b := FirstUnused(entries[..e], from), FirstUnused(entries[..e + 1], from);
    assert forall k :: 0 <= k < e ==> entries[..e][k] == entries[k] && entries[..e + 1][k] == entries[k];
    assert entries[..e + 1][e] == entries[e];
    assert b < e ==> entries[..e][b].Unused();
    assert a < e ==> entries[..e + 1][a].Unused();
  }

  /** One more entry that does not match. */
  lemma RememberStep(entries: seq<Entry>, e: nat, firstFreeOffset: int, freeFlag: int)
    requires e < |entries| && Remembered(entries, e, firstFreeOffset, freeFlag)
    ensures if entries[e].Unused() && firstFreeOffset == 0 then Remembered(entries, e + 1, ENTRY_SIZE * e, 1)
            else Remembered(entries, e + 1, firstFreeOffset, freeFlag)
  {
    if e >= 1 {
      FirstUnusedSnoc(entries, e, 1);
    }
  }

  /** No entry before `e` has the name. */
  ghost predicate NoneBefore(entries: seq<Entry>, name: string, e: nat) {
    Match(entries, name, 0) >= e
  }

  /** The variables of the scan after the first `e` entries. */
  ghost predicate Searched(d: Dir, name: string, e: nat, firstFreeOffset: int, freeFlag: int) {
    e <= |d.entries| && NoneBefore(d.entries, name, e) && Remembered(d.entries, e, firstFreeOffset, freeFlag)
  }

  lemma SearchedStep(d: Dir, name: string, e: nat, firstFreeOffset: int, freeFlag: int)
    requires Searched(d, name, e, firstFreeOffset, freeFlag) && e < |d.entries|
    ensures if d.entries[e].name == name then Match(d.entries, name, 0) == e
            else if d.entries[e].Unused() && firstFreeOffset == 0 then Searched(d, name, e + 1, ENTRY_SIZE * e, 1)
            else Searched(d, name, e + 1, firstFreeOffset, freeFlag)
  {
    MatchStep(d.entries, name, e);
    RememberStep(d.entries, e, firstFreeOffset, freeFlag);
  }

  /** At the end of the directory the variables tell where a new entry goes. */
  lemma SearchedAll(d: Dir, name: string, firstFreeOffset: int, freeFlag: int)
    requires Sane(d) && Searched(d, name, |d.entries|, firstFreeOffset, freeFlag)
    ensures Match(d.entries, name, 0) == |d.entries|
    ensures SlotFor(d) == if freeFlag == 0 then d.size else firstFreeOffset
  {
    assert d.entries[..|d.entries|] == d.entries;
  }

  /** The blocks that a search for a name reads: it stops in the block of the lowest match. */
  ghost function BlocksRead(d: Dir, name: string): nat {
    var e := Match(d.entries, name, 0);
    BlockCount(if e < |d.entries| then e + 1 else e)
  }

  lemma ReadUpTo(d: Dir, name: string, e: nat)
    requires e < |d.entries| && Match(d.entries, name, 0) == e
    ensures BlocksRead(d, name) == BlockCount(e + 1)
  {
  }

  lemma ReadAll(d: Dir, name: string, firstFreeOffset: int, freeFlag: int)
    requires Searched(d, name, |d.entries|, firstFreeOffset, freeFlag)
    ensures BlocksRead(d, name) == BlockCount(|d.entries|)
  {
  }

  /** Going on by one entry either stays in the block or enters the next one. */
  lemma HolesStep(v: Volume, no: int, e: nat, n: nat)
    requires 0 <= no < |v.t| && e < n <= MAX_ENTRIES
    ensures e / 16 < MAX_BLOCKS && BlockCount(e) <= BlockCount(e + 1) <= BlockCount(n) <= MAX_BLOCKS
    ensures Holes(v, no, BlockCount(e), BlockCount(n)) ==
            (if e % 16 == 0 && Block(v, no, e / 16) == 0 then 1 else 0) + Holes(v, no, BlockCount(e + 1), BlockCount(n))
  {
    if e % 16 == 0 {
      assert BlockCount(e) == e / 16 && BlockCount(e + 1) == e / 16 + 1;
    }
  }

  lemma BlockCountStep(e: nat)
    ensures if e % 16 == 0 then BlockCount(e) == e / 16
            && BlockCount(e + 1) == e / 16 + 1 else BlockCount(e + 1) == BlockCount(e)
  {
  }

  /** There are blocks for all holes from entry `e` on, and `rest` more. */
  ghost predicate Enough(v0: Volume, v: Volume, no: int, e: nat, n: nat, rest: nat)
    requires 0 <= no < |v0.t| && e <= n <= MAX_ENTRIES
  {
    BlockCount(e) <= BlockCount(n) <= MAX_BLOCKS && |v.free| >= 3 * Holes(v0, no, BlockCount(e), BlockCount(n)) + rest
  }

  /** In the middle of a block the buffer holds that block. */
  ghost predicate Buffered(buf: seq<Byte>, v0: Volume, no: int, e: nat)
    requires 0 <= no < |v0.t| && e <= MAX_ENTRIES
  {
    e % 16 != 0 ==> Holds(buf, v0, no, e / 16)
  }

  /** Before entry `e` is looked at: a new block costs at most three free blocks, and only if it is
      a hole. */
  lemma EnoughHere(v0: Volume, v: Volume, no: int, e: nat, n: nat, rest: nat)
    requires 0 <= no < |v0.t| && e < n <= MAX_ENTRIES && Enough(v0, v, no, e, n, rest)
    ensures e / 16 < MAX_BLOCKS
    ensures forall v': Volume ::
            |v'.free| >= |v.free| - (if e % 16 == 0 && Block(v0, no, e / 16) == 0 then 3 else 0) ==>
              Enough(v0, v', no, e + 1, n, rest)
    ensures e % 16 == 0 && Block(v0, no, e / 16) == 0 ==> |v.free| >= 3
  {
    HolesStep(v0, no, e, n);
  }

  /** What the buffer tells about entry `e` of a directory. */
  lemma EntryFacts(g: Geometry, v: Volume, no: int, e: int, buf: seq<Byte>, at: int)
    requires Sized(g, v.s.w) && |v.t| == g.InodeCount() && IsInode(g, no) && Sane(DirOf(g, v, no))
    requires 0 <= e < |DirOf(g, v, no).entries| && at == ENTRY_SIZE * (e % 16) && Holds(buf, v, no, e / 16)
    ensures |buf| == BLOCK_SIZE
    ensures var x := DirOf(g, v, no).entries[e];
            && x.ino == FromBytes(buf[at], buf[at + 1], buf[at + 2], buf[at + 3]) && x.name == NameIn(buf, at)
            && (x.Unused() <==> buf[at + 4] == 0)
  {
    EntryInDir(g, v, no, e);
    EntryNumber(buf, v, no, e, at);
    EntryName(buf, v, no, e, at);
    assert NameIn(buf, at)[0] == (buf[at + 4 + 0] as int) as char;
  }

  // ---------------------------------------------------------------- one step of the walk

  /** The name that starts at position `i` of a path. */
  function NameAt(path: string, i: nat): string
    requires i <= |path|
  {
    path[i..NameEnd(path, i)]
  }

  /** The directory in which a lookup ends, and how many blocks it reads there. */
  ghost function LastStop(dirs: seq<Dir>, dir: int, names: seq<string>): (int, nat)
    requires names != []
    decreases |names|
  {
    if !(0 <= dir < |dirs|) || |names[0]| > NAME_LENGTH || !Sane(dirs[dir]) then (dir, 0)
    else
      var d, name := dirs[dir], Padded(names[0]);
      var e := Match(d.entries, name, 0);
      if e < |d.entries| && |names| > 1 then LastStop(dirs, d.entries[e].ino, names[1..])
      else (dir, BlocksRead(d, name))
  }

  /** It reads blocks of the entries only. */
  lemma {:induction false} StopInEntries(dirs: seq<Dir>, dir: int, names: seq<string>)
    requires names != []
    ensures var (no, m) := LastStop(dirs, dir, names);
            0 <= no < |dirs| ==> m <= BlockCount(|dirs[no].entries|)
    decreases |names|
  {
    if 0 <= dir < |dirs| && |names[0]| <= NAME_LENGTH && Sane(dirs[dir]) {
      var d := dirs[dir];
      var e := Match(d.entries, Padded(names[0]), 0);
      if e < |d.entries| && |names| > 1 {
        StopInEntries(dirs, d.entries[e].ino, names[1..]);
      } else {
        BlockCountGrows(if e < |d.entries| then e + 1 else e, |d.entries|);
      }
    }
  }

  /** Unfolding of the walk along the names of a path. */
  lemma WalkStep(dirs: seq<Dir>, dir: int, path: string, i: nat, flag: int)
    requires i <= |path| && 0 <= dir < |dirs| && Walk(dirs, dir, NamesFrom(path, i), flag) != Corrupt
    ensures |NameAt(path, i)| > NAME_LENGTH ==>
              && Walk(dirs, dir, NamesFrom(path, i), flag) == TooLong
              && LastStop(dirs, dir, NamesFrom(path, i)) == (dir, 0)
    ensures |NameAt(path, i)| <= NAME_LENGTH ==>
              var d, next := dirs[dir], NextName(path, i);
              var e := Match(d.entries, Padded(NameAt(path, i)), 0);
              && Sane(d) && WalkCost(dirs, dir, NamesFrom(path, i)) >= 3 * d.holes
              && (next == |path| ==>
                    Walk(dirs, dir, NamesFrom(path, i), flag) ==
                    if e == |d.entries| then if flag == CREATEFILE then Create(dir, SlotFor(d)) else NotFound
                    else if flag == DELETEFILE then Delete(dir, ENTRY_SIZE * e, d.entries[e].ino) else Exists)
              && (next == |path| ==> LastName(path, i) == NameAt(path, i))
              && (next < |path| ==> i < next && LastName(path, i) == LastName(path, next))
              && (next < |path| && e == |d.entries| ==> Walk(dirs, dir, NamesFrom(path, i), flag) == NotFound)
              && LastStop(dirs, dir, NamesFrom(path, i)) ==
                   (if next < |path| && e < |d.entries| then LastStop(dirs, d.entries[e].ino, NamesFrom(path, next))
                    else (dir, BlocksRead(d, Padded(NameAt(path, i)))))
              && (next < |path| && e < |d.entries| ==>
                    && 0 <= d.entries[e].ino < |dirs|
                    && Walk(dirs, dir, NamesFrom(path, i), flag) ==
                         Walk(dirs, d.entries[e].ino, NamesFrom(path, next), flag)
                    && WalkCost(dirs, dir, NamesFrom(path, i)) ==
                         3 * d.holes + WalkCost(dirs, d.entries[e].ino, NamesFrom(path, next)))
  {
    var names, next := NamesFrom(path, i), NextName(path, i);
    if next < |path| {
      assert names[0] == NameAt(path, i) && names[1..] == NamesFrom(path, next);
    } else {
      assert names == [NameAt(path, i)];
    }
  }

  /** A change outside the data area alone changes no file and no free block. */
  lemma TablesUpdate(g: Geometry, v: Volume, s': Store)
    requires Sound(g, v) && |s'.w| == |v.s.w| && SameWords(v.s.w, s'.w, 128 * g.DataStart(), |v.s.w|)
    requires s'.sb.nfree == v.s.sb.nfree && s'.sb.free == v.s.sb.free
    ensures Sound(g, v.(s := s')) && SameData(v.s.w, v.t, s'.w, v.t) && Kept(v, v.(s := s'))
    ensures AsComplete(g, v, v.(s := s'))
  {
    var v' := v.(s := s');
    forall x: Node | x.In(|v.t|)
      ensures Ptr(s'.w, v.t, x) == Ptr(v.s.w, v.t, x)
      ensures forall j :: 0 <= j < 128 ==> Data(s'.w, v.t, x, j) == Data(v.s.w, v.t, x, j)
    {
      TablesUpdateNode(g, v, s'.w, x);
    }
    forall b | b in v.free
      ensures SameBlock(v.s.w, s'.w, b)
    {
      var i :| 0 <= i < |v.free| && v.free[i] == b;
      assert g.InData(b);
    }
    FreeFrame(g, v.s, s', v.free);
  }

  lemma TablesUpdateNode(g: Geometry, v: Volume, w': seq<Word>, x: Node)
    requires Sound(g, v) && |w'| == |v.s.w| && SameWords(v.s.w, w', 128 * g.DataStart(), |v.s.w|) && x.In(|v.t|)
    ensures Ptr(w', v.t, x) == Ptr(v.s.w, v.t, x)
    ensures forall j :: 0 <= j < 128 ==> Data(w', v.t, x, j) == Data(v.s.w, v.t, x, j)
    decreases if x.Top? then 0 else if x.Mid? then 1 else 2
  {
    if !x.Top? {
      TablesUpdateNode(g, v, w', x.Parent());
      assert Ptr(v.s.w, v.t, x.Parent()) != 0 ==> v.owner[Ptr(v.s.w, v.t, x.Parent())] == x.Parent();
    }
    assert Ptr(v.s.w, v.t, x) != 0 ==> v.owner[Ptr(v.s.w, v.t, x)] == x;
  }

  /** An update of the superblock alone can happen in the middle of a lookup. */
  lemma SuperUpdateLater(g: Geometry, v0: Volume, v: Volume, s': Store)
    requires Sized(g, v0.s.w) && Sound(g, v) && Later(g, v0, v) && |s'.w| == |v.s.w|
    requires SameWords(v.s.w, s'.w, 0, 128 * g.boot) && SameWords(v.s.w, s'.w, 128 * g.InodeStart(), |v.s.w|)
    requires s'.sb.nfree == v.s.sb.nfree && s'.sb.free == v.s.sb.free
    ensures Sound(g, v.(s := s')) && Later(g, v0, v.(s := s')) && AsComplete(g, v, v.(s := s'))
  {
    var v' := v.(s := s');
    TablesUpdate(g, v, s');
    forall x: Node | x.In(|v0.t|) && Ptr(v0.s.w, v0.t, x) != 0
      ensures Ptr(v'.s.w, v'.t, x) == Ptr(v0.s.w, v0.t, x)
    {
      assert Ptr(v.s.w, v.t, x) == Ptr(v0.s.w, v0.t, x);
    }
    SameDataTrans(v0, v, v');
  }

  /** Nothing has happened yet. */
  lemma LaterAtStart(g: Geometry, v: Volume)
    requires Sized(g, v.s.w) && v.s.sb.nfree >= 1
    ensures Later(g, v, v)
  {
  }

  /** The number that a fetch in `v0` takes is not in the cache of `s`. */
  ghost predicate Unlisted(g: Geometry, v0: Volume, s: Store)
    requires Sized(g, v0.s.w) && v0.s.sb.ninode <= GROUP
  {
    var r := Fetch(g, v0.s).1;
    r.Number? ==> !Cached(s, r.no)
  }

  /** A fetch in the middle of a lookup returns what a fetch before it would have returned. */
  lemma FetchLater(g: Geometry, v0: Volume, v: Volume)
    requires Sized(g, v0.s.w) && Sound(g, v) && Later(g, v0, v) && CacheSound(g, v0.s)
    requires v.s.sb.ninode == v0.s.sb.ninode && v.s.sb.inode == v0.s.sb.inode
    ensures var (s', r) := Fetch(g, v.s);
            && Sound(g, v.(s := s')) && Later(g, v0, v.(s := s')) && CacheSound(g, s')
            && r == Fetch(g, v0.s).1 && (r.Number? ==> IsFree(g, v0.s.w, r.no)) && Unlisted(g, v0, s')
            && AsComplete(g, v, v.(s := s'))
  {
    var (s', r) := Fetch(g, v.s);
    CacheFrame(g, v0.s, v.s);
    FetchFrame(g, v0.s, v.s);
    FetchTakesFree(g, v0.s);
    FetchTakesFree(g, v.s);
    SuperUpdateLater(g, v0, v, s');
  }

  /** The number that a creation gets; if no inode is free it keeps the one it came with. */
  ghost function Assigned(g: Geometry, s: Store, fallback: int): int
    requires Sized(g, s.w) && s.sb.ninode <= GROUP
  {
    var r := Fetch(g, s).1;
    if r.Number? then r.no else fallback
  }

  /** What a creation gets is free exactly if any inode is. Otherwise the exception is swallowed, and
      the caller goes on with the number of an inode in use. */
  lemma AssignedIffFree(g: Geometry, s: Store, fallback: int)
    requires Sized(g, s.w) && CacheSound(g, s) && !IsFree(g, s.w, fallback)
    ensures IsFree(g, s.w, Assigned(g, s, fallback)) <==> exists no :: IsInode(g, no) && IsFree(g, s.w, no)
    ensures !IsFree(g, s.w, Assigned(g, s, fallback)) ==> Assigned(g, s, fallback) == fallback
  {
    FetchTakesFree(g, s);
  }

  /** It does happen: with all modes set, a new file gets the number that its caller passed in. */
  lemma NoneLeft(sb: Super)
    requires sb.ninode == 0
    ensures var g, s := Geometry(1, 1, 3, 7), Store(seq(896, _ => 1), sb);
            && Sized(g, s.w) && CacheSound(g, s) && (forall no :: IsInode(g, no) ==> !IsFree(g, s.w, no))
            && Assigned(g, s, 0) == 0
  {
    var g, s := Geometry(1, 1, 3, 7), Store(seq(896, _ => 1), sb);
    forall no | IsInode(g, no)
      ensures !IsFree(g, s.w, no)
    {
      assert 0 <= SlotStart(g, no) < |s.w|;
    }
    FetchTakesFree(g, s);
  }

  // ---------------------------------------------------------------- a whole lookup

  /** A volume whose in-core tables are those on disk, in which no request has failed, and a path of
      single-byte characters that leads through directories only. */
  ghost predicate Resolvable(g: Geometry, v: Volume, path: string, flag: int) {
    && Sized(g, v.s.w) && v.t == DiskTable(g, v.s.w) && v.s.sb.nfree >= 1 && CacheSound(g, v.s) && IsInode(g, 0)
    && (forall k :: 0 <= k < |path| ==> path[k] as int < 256)
    && Resolve(Dirs(g, v), path, flag) != Corrupt
  }

  /** The same with enough free blocks for the holes of those directories, and `spare` more. */
  ghost predicate Searchable(g: Geometry, v: Volume, path: string, flag: int, spare: nat) {
    Resolvable(g, v, path, flag) && |v.free| >= WalkCost(Dirs(g, v), 0, Split(path)) + spare
  }

  /** What a lookup relies on from its beginning to its end. */
  ghost predicate Settled(g: Geometry, v: Volume) {
    Sized(g, v.s.w) && Sound(g, v) && CacheSound(g, v.s) && v.t == DiskTable(g, v.s.w)
  }

  ghost function OutcomeOf(g: Geometry, v: Volume, path: string, flag: int): Outcome
    requires Resolvable(g, v, path, flag)
  {
    Resolve(Dirs(g, v), path, flag)
  }

  /** The results of a lookup report the outcome. A creation gets a new inode number and the inode
      that the disk holds under it; creation and deletion learn the last name of the path. */
  ghost predicate Answered(g: Geometry, v: Volume, path: string, flag: int, fallback: int, status: Status, offset: int,
                           dirInodeNo: int, fileInodeNo: int, fileName: string, fileInode: Inode)
    requires Resolvable(g, v, path, flag)
  {
    var outcome, last := OutcomeOf(g, v, path, flag), LastName(path, SkipSlashes(path, 0));
    && Reports(outcome, status, offset, dirInodeNo, fileInodeNo, Assigned(g, v.s, fallback))
    && (outcome.Create? ==> IsInode(g, fileInodeNo) && fileInode == InodeAt(g, v.s.w, fileInodeNo))
    && (outcome.Create? || outcome.Delete? ==> |last| <= NAME_LENGTH && fileName == Padded(last))
  }

  /** Directory `no` is where the lookup stands before it takes the name at position `i`. */
  ghost predicate OnTheWay(g: Geometry, v: Volume, path: string, flag: int, no: int, i: nat) {
    && Resolvable(g, v, path, flag) && IsInode(g, no) && i <= |path|
    && Walk(Dirs(g, v), no, NamesFrom(path, i), flag) == OutcomeOf(g, v, path, flag)
    && LastName(path, i) == LastName(path, SkipSlashes(path, 0))
    && LastStop(Dirs(g, v), no, NamesFrom(path, i)) == StopOf(g, v, path)
  }

  /** Where a lookup of the path ends, and how many blocks it reads there. */
  ghost function StopOf(g: Geometry, v: Volume, path: string): (int, nat)
    requires Sized(g, v.s.w) && |v.t| == g.InodeCount()
  {
    LastStop(Dirs(g, v), 0, Split(path))
  }

  /** The lookup ended in directory `no`; there just the blocks that it read have been looked up. */
  ghost predicate StoppedIn(g: Geometry, v: Volume, v': Volume, path: string, no: int) {
    && Sized(g, v.s.w) && |v.t| == g.InodeCount()
    && var stop := StopOf(g, v, path); no == stop.0 && RootsSeen(v, v', no, stop.1)
  }

  /** No block that a lookup reads lies under an address that is 0, neither in the directories that it
      leaves behind nor in the one where it ends. */
  ghost predicate AllRooted(g: Geometry, v: Volume, path: string) {
    && RootedFrom(g, v, path, 0, SkipSlashes(path, 0))
    && var stop := StopOf(g, v, path); RootsMapped(v, stop.0, stop.1)
  }

  /** What a lookup loses if its in-core inode is dropped: once the addresses are those on disk again,
      all blocks are accounted for exactly if they were before and every address met was not 0. */
  ghost predicate Dropped(g: Geometry, v: Volume, v': Volume, path: string) {
    Complete(g, v'.(t := v.t)) <==> Complete(g, v) && AllRooted(g, v, path)
  }

  lemma DroppedIff(g: Geometry, v: Volume, v': Volume, path: string, no: int)
    requires Sized(g, v.s.w) && Sound(g, v') && Later(g, v, v') && StoppedIn(g, v, v', path, no)
    requires v'.t == v.t[no := v'.t[no]] && Whole(g, v, v', path)
    ensures Dropped(g, v, v', path)
  {
    hide Sound, Complete, Later, RootsSeen, RootsMapped, Rooted;
    ReloadComplete(g, v, v', no, StopOf(g, v, path).1);
  }

  /** Blocks that the rest of the lookup may need. */
  ghost function CostFrom(g: Geometry, v: Volume, path: string, flag: int, no: int, i: nat): nat
    requires OnTheWay(g, v, path, flag, no, i)
  {
    WalkCost(Dirs(g, v), no, NamesFrom(path, i))
  }

  /** In no directory that a lookup leaves behind does a block that it reads lie under an address
      that is 0. */
  ghost predicate Rooted(g: Geometry, v: Volume, no: int, names: seq<string>)
    requires Sized(g, v.s.w) && |v.t| == g.InodeCount() && names != []
    decreases |names|
  {
    if !IsInode(g, no) || |names[0]| > NAME_LENGTH || |names| == 1 || !Sane(DirOf(g, v, no)) then true
    else
      var d, name := DirOf(g, v, no), Padded(names[0]);
      var e := Match(d.entries, name, 0);
      e < |d.entries| ==> RootsMapped(v, no, BlocksRead(d, name)) && Rooted(g, v, d.entries[e].ino, names[1..])
  }

  ghost predicate RootedFrom(g: Geometry, v: Volume, path: string, no: int, i: nat) {
    Sized(g, v.s.w) && |v.t| == g.InodeCount() && i <= |path| && Rooted(g, v, no, NamesFrom(path, i))
  }

  /** What a lookup of the path loses: `v'` accounts for all blocks exactly if `v` did and the lookup
      leaves no directory behind in which it filled an address. */
  ghost predicate Whole(g: Geometry, v: Volume, v': Volume, path: string) {
    Complete(g, v') <==> Complete(g, v) && RootedFrom(g, v, path, 0, SkipSlashes(path, 0))
  }

  /** The same from one position of the lookup to another. */
  ghost predicate WholeFrom(g: Geometry, v0: Volume, v: Volume, no: int, i: nat, v': Volume, no': int, i': nat,
                            path: string) {
    Complete(g, v') && RootedFrom(g, v0, path, no', i') <==> Complete(g, v) && RootedFrom(g, v0, path, no, i)
  }

  lemma AsCompleteFrom(g: Geometry, v0: Volume, v: Volume, v1: Volume, v2: Volume, no: int, i: nat, no': int, i': nat,
                       path: string)
    requires AsComplete(g, v, v1) && WholeFrom(g, v0, v1, no, i, v2, no', i', path)
    ensures WholeFrom(g, v0, v, no, i, v2, no', i', path)
  {
  }

  /** A lookup ends where it does not go on, so nothing is left behind. */
  lemma EndIsRooted(g: Geometry, v: Volume, path: string, flag: int, no: int, i: nat)
    requires OnTheWay(g, v, path, flag, no, i)
    requires |NameAt(path, i)| <= NAME_LENGTH ==>
             NextName(path, i) == |path| || Hit(g, v, path, no, i) == |DirOf(g, v, no).entries|
    ensures RootedFrom(g, v, path, no, i)
  {
    NamesUnfold(path, i);
  }

  lemma NamesUnfold(path: string, i: nat)
    requires i <= |path|
    ensures var names, next := NamesFrom(path, i), NextName(path, i);
            && names[0] == NameAt(path, i)
            && (if next == |path| then |names| == 1 else |names| > 1 && names[1..] == NamesFrom(path, next))
  {
  }

  lemma StepIsRooted(g: Geometry, v: Volume, path: string, flag: int, no: int, i: nat)
    requires OnTheWay(g, v, path, flag, no, i) && |NameAt(path, i)| <= NAME_LENGTH && Sane(DirOf(g, v, no))
    requires NextName(path, i) < |path| && Hit(g, v, path, no, i) < |DirOf(g, v, no).entries|
    ensures var d := DirOf(g, v, no);
            RootedFrom(g, v, path, no, i) <==>
            && RootsMapped(v, no, BlocksRead(d, Padded(NameAt(path, i))))
            && RootedFrom(g, v, path, d.entries[Hit(g, v, path, no, i)].ino, NextName(path, i))
  {
    NamesUnfold(path, i);
  }

  /** A disk of six data blocks, all free, and eight inodes, all empty but for the given root. */
  const SMALL := Geometry(1, 1, 6, 10)

  ghost function SmallDisk(root: Inode): (v: Volume)
    ensures |v.t| == SMALL.InodeCount() && Sized(SMALL, v.s.w)
  {
    var zeros: seq<Word> := seq(128 * SMALL.diskBlocks, _ => 0);
    var sb: Super := Fields(1, 10, 7, [0, 9, 8, 7, 6, 5, 4] + seq(93, _ => 0), 0, seq(GROUP, _ => 0), 0, 0, 0, 0, 0,
                            seq(PADDING_WORDS, _ => 0));
    Fresh(SMALL, Store(WithInode(SMALL, zeros, 0, root), sb), SMALL.InodeCount())
  }

  lemma SmallInodes(root: Inode)
    ensures var w := SmallDisk(root).s.w;
            && InodeAt(SMALL, w, 0) == root
            && forall no {:trigger InodeAt(SMALL, w, no)} :: IsInode(SMALL, no) && no != 0 ==>
                 InodeAt(SMALL, w, no) == EmptyInode()
  {
    var zeros: seq<Word> := seq(128 * SMALL.diskBlocks, _ => 0);
    InodeRoundTrip(SMALL, zeros, 0, root);
    forall no | IsInode(SMALL, no)
      ensures InodeAt(SMALL, zeros, no) == EmptyInode()
    {
      DecodedFields(SMALL, zeros, no);
      assert zeros[SlotStart(SMALL, no) + 4..SlotStart(SMALL, no) + 14] == NO_BLOCKS;
    }
  }

  lemma SmallIsSettled(root: Inode)
    requires root.addr == NO_BLOCKS
    ensures var v := SmallDisk(root); Settled(SMALL, v) && Complete(SMALL, v) && v.s.sb.nfree >= 1 && |v.free| == 6
  {
    var v := SmallDisk(root);
    var s := v.s;
    assert Denotes(SMALL, s.w, s.sb.nfree, s.sb.free, Interval(4, 10));
    FreshIsSound(SMALL, s, SMALL.InodeCount());
    SmallInodes(root);
    hide InodeAt, Sound, Complete;
    assert v.t == DiskTable(SMALL, s.w);
  }

  /** It does happen, in the directory where a lookup ends: the root has one entry but no block, and
      the first name of `/a/b` is not there. The lookup reads block 0 of the root, for which it takes
      block 4. Once the addresses are reloaded that block is neither free nor held by any place. */
  lemma ForgottenBlock() returns (v: Volume, v': Volume)
    ensures v == SmallDisk(EmptyInode().(mode := 0xC1FF, size := 32)) && Settled(SMALL, v) && Complete(SMALL, v)
    ensures Searchable(SMALL, v, "/a/b", CREATEFILE, 3) && OutcomeOf(SMALL, v, "/a/b", CREATEFILE) == NotFound
    ensures RootedFrom(SMALL, v, "/a/b", 0, 1) && StopOf(SMALL, v, "/a/b") == (0, 1) && !AllRooted(SMALL, v, "/a/b")
    ensures forall u: Volume :: Whole(SMALL, v, u, "/a/b") && Dropped(SMALL, v, u, "/a/b") ==>
              Complete(SMALL, u) && !Complete(SMALL, u.(t := v.t))
    ensures var r := BMap(SMALL, v.s, NO_BLOCKS, 0); v'.s == r.0 && v'.t == v.t[0 := r.1] && r.2 == 4
    ensures SMALL.InData(4) && 4 !in v'.free && forall x: Node :: x.In(|v.t|) ==> Ptr(v'.s.w, v.t, x) != 4
  {
    var root := EmptyInode().(mode := 0xC1FF, size := 32);
    v := SmallDisk(root);
    SmallIsSettled(root);
    SmallLookup(v);
    assert v.free[0] == 4 && v.t[0] == NO_BLOCKS && Sound(SMALL, v);
    hide *;
    v' := TakenAndLost(v);
  }

  lemma TakenAndLost(v: Volume) returns (v': Volume)
    requires Sound(SMALL, v) && v.free != [] && v.free[0] == 4
    requires |v.t| > 0 && forall f :: 0 <= f < |v.t| ==> v.t[f] == NO_BLOCKS
    ensures var r := BMap(SMALL, v.s, NO_BLOCKS, 0); v'.s == r.0 && v'.t == v.t[0 := r.1] && r.2 == 4
    ensures SMALL.InData(4) && 4 !in v'.free && forall x: Node :: x.In(|v.t|) ==> Ptr(v'.s.w, v.t, x) != 4
  {
    FirstBlock(v);
    hide Complete, BMap, FreeState, Forest, SameData, SameTables, Need;
    v' := GetOrInsert(SMALL, v, 0, 0);
    NowhereElse(SMALL, v', v.t, 4);
  }

  lemma SmallLookup(v: Volume)
    requires v == SmallDisk(EmptyInode().(mode := 0xC1FF, size := 32)) && Settled(SMALL, v)
    ensures Searchable(SMALL, v, "/a/b", CREATEFILE, 3) && OutcomeOf(SMALL, v, "/a/b", CREATEFILE) == NotFound
    ensures RootedFrom(SMALL, v, "/a/b", 0, 1) && StopOf(SMALL, v, "/a/b") == (0, 1) && !AllRooted(SMALL, v, "/a/b")
  {
    var d := SmallRoot(v);
    TwoNames("/a/b", "a", "b");
    assert SkipSlashes("/a/b", 0) == 1;
    FirstNameMissing(Dirs(SMALL, v), d, "a", "b");
    assert v.s.sb.nfree == 7 && |v.free| == 6 && v.t == DiskTable(SMALL, v.s.w) && CacheSound(SMALL, v.s);
    hide Dirs, DirOf, Match, BlocksRead, LastStop, Walk, WalkCost, CacheSound, DiskTable, SmallDisk;
    assert Resolvable(SMALL, v, "/a/b", CREATEFILE);
  }

  /** The root has one entry, which is not named `a`, in a block that is not mapped. */
  lemma SmallRoot(v: Volume) returns (d: Dir)
    requires v == SmallDisk(EmptyInode().(mode := 0xC1FF, size := 32)) && Settled(SMALL, v)
    ensures Dirs(SMALL, v)[0] == d == DirOf(SMALL, v, 0) && Sane(d) && d.holes == 1 && |d.entries| == 1
    ensures Match(d.entries, Padded("a"), 0) == 1 && BlocksRead(d, Padded("a")) == 1 && !RootsMapped(v, 0, 1)
  {
    SmallInodes(EmptyInode().(mode := 0xC1FF, size := 32));
    d := DirOf(SMALL, v, 0);
    assert d.size == 32 && |d.entries| == 1;
    NoName(v);
    hide InodeAt, Sound, CacheSound, DiskTable, EntryOf, SmallDisk, Settled, DirOf;
    assert Padded("a")[0] == 'a';
    assert d.entries[0].name[0] == 0 as char;
  }

  /** The lookup of a path of two names ends in the root if the first one is not there. */
  lemma FirstNameMissing(dirs: seq<Dir>, d: Dir, name: string, last: string)
    requires |dirs| > 0 && dirs[0] == d && Sane(d) && |name| <= NAME_LENGTH
    requires Match(d.entries, Padded(name), 0) == |d.entries|
    ensures Walk(dirs, 0, [name, last], CREATEFILE) == NotFound && WalkCost(dirs, 0, [name, last]) == 3 * d.holes
    ensures LastStop(dirs, 0, [name, last]) == (0, BlocksRead(d, Padded(name)))
  {
  }

  /** The entry of an unmapped block reads as zeros. */
  lemma NoName(v: Volume)
    requires |v.t| > 0 && v.t[0] == NO_BLOCKS
    ensures EntryOf(v, 0, 0).name[0] == 0 as char && Block(v, 0, 0) == 0
  {
  }

  lemma FirstBlock(v: Volume)
    requires |v.t| > 0 && v.t[0][0] == 0
    ensures Need(v, 0, 0) == 1
  {
    MissingSnoc(v.s.w, v.t, [], Top(0, 0));
    assert PathTo(0, 0) == [] + [Top(0, 0)];
  }

  /** The block in the first address of the first file, after all addresses have gone back to 0. */
  lemma NowhereElse(g: Geometry, v: Volume, t: Table, b: int)
    requires Sound(g, v) && |v.t| == |t| > 0 && Block(v, 0, 0) == b && g.InData(b)
    requires forall f :: 0 <= f < |t| ==> t[f] == NO_BLOCKS
    ensures b !in v.free && forall x: Node :: x.In(|t|) ==> Ptr(v.s.w, t, x) != b
  {
    assert Ptr(v.s.w, v.t, Top(0, 0)) == b;
    assert v.owner[b] == Top(0, 0);
  }

  lemma OnTheWayAtStart(g: Geometry, v: Volume, path: string, flag: int, spare: nat)
    requires Searchable(g, v, path, flag, spare)
    ensures OnTheWay(g, v, path, flag, 0, SkipSlashes(path, 0))
    ensures |v.free| >= CostFrom(g, v, path, flag, 0, SkipSlashes(path, 0)) + spare
  {
  }

  /** The lowest entry of directory `no` with the name at position `i` of the path. */
  ghost function Hit(g: Geometry, v: Volume, path: string, no: int, i: nat): (e: nat)
    requires Sized(g, v.s.w) && |v.t| == g.InodeCount() && IsInode(g, no) && i <= |path|
             && |NameAt(path, i)| <= NAME_LENGTH
    ensures e <= |DirOf(g, v, no).entries|
  {
    Match(DirOf(g, v, no).entries, Padded(NameAt(path, i)), 0)
  }

  /** The same, 0 for a name that is too long. */
  ghost function EntryFor(g: Geometry, v: Volume, path: string, no: int, i: nat): nat {
    if Sized(g, v.s.w) && |v.t| == g.InodeCount() && IsInode(g, no) && i <= |path|
        && |NameAt(path, i)| <= NAME_LENGTH then
      Hit(g, v, path, no, i)
    else 0
  }

  /** One round: the directory can be scanned, and if the name is there and is not the last one, the
      lookup goes on from the directory it names. */
  lemma RoundGoesOn(g: Geometry, v: Volume, path: string, flag: int, no: int, i: nat)
    requires OnTheWay(g, v, path, flag, no, i) && |NameAt(path, i)| <= NAME_LENGTH
    ensures Sized(g, v.s.w) && |v.t| == g.InodeCount()
    ensures var d, next, e := DirOf(g, v, no), NextName(path, i), Hit(g, v, path, no, i);
            && Sane(d) && CostFrom(g, v, path, flag, no, i) >= 3 * d.holes
            && (next < |path| && e < |d.entries| ==>
                  && i < next && OnTheWay(g, v, path, flag, d.entries[e].ino, next)
                  && CostFrom(g, v, path, flag, no, i) ==
                       3 * d.holes + CostFrom(g, v, path, flag, d.entries[e].ino, next))
  {
    WalkStep(Dirs(g, v), no, path, i, flag);
  }

  /** How a round ends the lookup. */
  ghost predicate RoundEnds(g: Geometry, v: Volume, path: string, flag: int, fallback: int, status: Status, offset: int,
                            no: int, fileInodeNo: int, fileName: string, fileInode: Inode, i: nat)
    requires OnTheWay(g, v, path, flag, no, i)
  {
    if |NameAt(path, i)| > NAME_LENGTH then status == NameTooLong
    else
      var d, next, e := DirOf(g, v, no), NextName(path, i), Hit(g, v, path, no, i);
      && fileName == Padded(NameAt(path, i))
      && if e == |d.entries| && flag == CREATEFILE && next == |path| then
      && status == Done && offset == SlotFor(d) && fileInodeNo == Assigned(g, v.s, fallback)
      && IsInode(g, fileInodeNo) && fileInode == InodeAt(g, v.s.w, fileInodeNo)
         else if e == |d.entries| then status == SearchDir && offset == -1
         else if flag == DELETEFILE then
           next == |path| && status == Done && offset == ENTRY_SIZE * e && fileInodeNo == d.entries[e].ino
         else next == |path| && status == SameFileName && offset == -1
  }

  lemma RoundAnswers(g: Geometry, v: Volume, path: string, flag: int, fallback: int, status: Status, offset: int,
                     no: int, fileInodeNo: int, fileName: string, fileInode: Inode, i: nat)
    requires OnTheWay(g, v, path, flag, no, i)
    requires RoundEnds(g, v, path, flag, fallback, status, offset, no, fileInodeNo, fileName, fileInode, i)
    ensures Answered(g, v, path, flag, fallback, status, offset, no, fileInodeNo, fileName, fileInode)
    ensures StopOf(g, v, path) == (no, ReadAt(g, v, path, no, i))
  {
    WalkStep(Dirs(g, v), no, path, i, flag);
  }
}

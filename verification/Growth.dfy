/** Many creations in a row: an invariant under which every next one is in order, and what a whole
    sequence of creations leaves. */
module Growth {
  import opened Words
  import opened DiskImage
  import opened FreeList
  import opened BlockMap
  import opened BlockMapLaws
  import opened Inodes
  import opened Paths
  import opened DirViews
  import opened Creation
  import opened Trees
  import opened FileBytes
  import opened Storing

  /** The first `m` blocks of file `no` are mapped. */
  ghost predicate MappedTo(v: Volume, no: int, m: nat) {
    0 <= no < |v.t| && m <= MAX_BLOCKS && forall k {:trigger Block(v, no, k)} :: 0 <= k < m ==> Block(v, no, k) != 0
  }

  /** An entry carries a name and leads to an inode in use. */
  ghost predicate GoodEntry(g: Geometry, w: seq<Word>, x: Entry)
    requires Sized(g, w)
  {
    !x.Unused() && IsInode(g, x.ino) && !IsFree(g, w, x.ino)
  }

  ghost predicate GoodEntries(g: Geometry, w: seq<Word>, entries: seq<Entry>)
    requires Sized(g, w)
  {
    forall e {:trigger entries[e]} :: 0 <= e < |entries| ==> GoodEntry(g, w, entries[e])
  }

  /** An inode read as a directory has room for `n` more entries, all its entries are good and their
      blocks mapped. Inodes that are not in use are empty. */
  ghost predicate Tidy(g: Geometry, v: Volume, no: int, n: nat)
    requires Sized(g, v.s.w) && IsInode(g, no) && |v.t| == g.InodeCount()
  {
    var d := DirOf(g, v, no);
    && Sane(d) && d.size % ENTRY_SIZE == 0 && |d.entries| + n <= MAX_ENTRIES && (IsFree(g, v.s.w, no) ==> d.size == 0)
    && GoodEntries(g, v.s.w, d.entries) && MappedTo(v, no, BlockCount(|d.entries|))
  }

  ghost predicate AllTidy(g: Geometry, v: Volume, n: nat) {
    && Sized(g, v.s.w) && |v.t| == g.InodeCount()
    && forall no {:trigger DirOf(g, v, no)} :: IsInode(g, no) ==> Tidy(g, v, no, n)
  }

  ghost function FreeNumbers(g: Geometry, w: seq<Word>): set<int>
    requires Sized(g, w)
  {
    set no | 0 <= no < g.InodeCount() && IsFree(g, w, no)
  }

  /** The volume has a root directory, its directories are tidy, and blocks, inodes and entries
      suffice for `n` creations. */
  ghost predicate Healthy(g: Geometry, v: Volume, n: nat) {
    && Settled(g, v) && v.s.sb.nfree >= 1 && IsInode(g, 0) && !IsFree(g, v.s.w, 0)
    && AllTidy(g, v, n) && |v.free| >= 3 * n && |FreeNumbers(g, v.s.w)| >= n
  }

  lemma HealthyForLess(g: Geometry, v: Volume, n: nat, m: nat)
    requires Healthy(g, v, n) && m <= n
    ensures Healthy(g, v, m)
  {
    hide Settled, MappedTo, GoodEntries, DirOf, IsFree;
    forall no | IsInode(g, no)
      ensures Tidy(g, v, no, m)
    {
      assert DirOf(g, v, no) == DirOf(g, v, no);
    }
  }

  /** Single-byte characters, and names that are not empty and do not begin with the character 0. */
  ghost predicate Nameable(path: string) {
    Proper(Split(path)) && forall k :: 0 <= k < |path| ==> path[k] as int < 256
  }

  // ---------------------------------------------------------------- lookups in tidy directories

  lemma {:induction false} NoHoles(v: Volume, no: int, k: nat, m: nat)
    requires MappedTo(v, no, m) && k <= m
    ensures Holes(v, no, k, m) == 0
    decreases m - k
  {
    if k < m {
      assert Block(v, no, k) != 0;
      NoHoles(v, no, k + 1, m);
    }
  }

  lemma {:induction false} MappedRoots(v: Volume, no: int, m: nat)
    requires MappedTo(v, no, m)
    ensures RootsMapped(v, no, m)
  {
    if m > 0 {
      hide RootsMapped, RootOf, Reach, LeafOf;
      MappedRoots(v, no, m - 1);
      OneMoreRoot(v, no, m - 1);
    }
  }

  lemma OneMoreRoot(v: Volume, no: int, m: nat)
    requires RootsMapped(v, no, m) && m < MAX_BLOCKS && Block(v, no, m) != 0
    ensures RootsMapped(v, no, m + 1)
  {
    ReachStep(m);
    RootOfLeaf(v.s.w, v.t, no, m);
    hide RootOf, Reach, LeafOf;
  }

  lemma FewerRoots(v: Volume, no: int, m: nat, n: nat)
    requires MappedTo(v, no, n) && m <= n
    ensures RootsMapped(v, no, m)
  {
    MappedRoots(v, no, m);
  }

  /** A lookup from an inode in use never ends in disorder, needs no block, and creates only in an
      inode in use. */
  lemma {:induction false} WalkTidy(g: Geometry, v: Volume, n: nat, from: int, names: seq<string>, flag: int)
    requires AllTidy(g, v, n) && IsInode(g, from) && !IsFree(g, v.s.w, from) && names != []
    ensures var r := Walk(Dirs(g, v), from, names, flag);
            r != Corrupt && (r.Create? ==> IsInode(g, r.dir) && !IsFree(g, v.s.w, r.dir))
    ensures WalkCost(Dirs(g, v), from, names) == 0 && Rooted(g, v, from, names)
    decreases |names|
  {
    var dirs, d := Dirs(g, v), DirOf(g, v, from);
    assert dirs[from] == d && Tidy(g, v, from, n);
    NoHoles(v, from, 0, BlockCount(|d.entries|));
    if |names[0]| <= NAME_LENGTH && |names| > 1 {
      var name := Padded(names[0]);
      var e := Match(d.entries, name, 0);
      if e < |d.entries| {
        BlockCountGrows(e + 1, |d.entries|);
        FewerRoots(v, from, BlocksRead(d, name), BlockCount(|d.entries|));
        assert GoodEntry(g, v.s.w, d.entries[e]);
        WalkTidy(g, v, n, d.entries[e].ino, names[1..], flag);
      }
    }
  }

  /** In a tidy directory the new entry goes to the end. */
  lemma SlotAtEnd(g: Geometry, v: Volume, no: int, n: nat)
    requires Sized(g, v.s.w) && IsInode(g, no) && |v.t| == g.InodeCount() && Tidy(g, v, no, n)
    ensures SlotFor(DirOf(g, v, no)) == DirOf(g, v, no).size == ENTRY_SIZE * |DirOf(g, v, no).entries|
  {
    var d := DirOf(g, v, no);
    SlotIsFree(d);
    forall e | 0 <= e < |d.entries|
      ensures !d.entries[e].Unused()
    {
      assert GoodEntry(g, v.s.w, d.entries[e]);
    }
  }

  lemma FreeNumberReady(g: Geometry, v: Volume, n: nat)
    requires Healthy(g, v, n) && n > 0
    ensures NumberReady(g, v)
  {
    assert FreeNumbers(g, v.s.w) != {};
    var no :| no in FreeNumbers(g, v.s.w);
    assert IsFree(g, v.s.w, no);
    hide AllTidy, Sound, DiskTable, CacheSound;
    FetchTakesFree(g, v.s);
    FreeIsEmpty(g, v, n, Fetch(g, v.s).1.no);
  }

  lemma FreeIsEmpty(g: Geometry, v: Volume, n: nat, no: int)
    requires AllTidy(g, v, n) && IsFree(g, v.s.w, no)
    ensures InodeAt(g, v.s.w, no).size == 0
  {
    assert Tidy(g, v, no, n) && DirOf(g, v, no).size == InodeAt(g, v.s.w, no).size;
  }

  /** Every path of single-byte characters can be looked up for a creation, without a block, and if
      the name is missing the creation is in order. */
  lemma HealthyIsCreatable(g: Geometry, v: Volume, n: nat, path: string)
    requires Healthy(g, v, n) && n > 0 && forall k :: 0 <= k < |path| ==> path[k] as int < 256
    ensures Creatable(g, v, path) && Spare(g, v, path) == |v.free| && RootedFrom(g, v, path, 0, SkipSlashes(path, 0))
  {
    WalkTidy(g, v, n, 0, Split(path), CREATEFILE);
    FreeNumberReady(g, v, n);
    var outcome := Resolve(Dirs(g, v), path, CREATEFILE);
    if outcome.Create? {
      assert Tidy(g, v, outcome.dir, n) && DirOf(g, v, outcome.dir) == DirOf(g, v, outcome.dir);
    }
  }

  // ---------------------------------------------------------------- after a creation

  lemma MappedKept(v: Volume, v': Volume, no: int, m: nat)
    requires MappedTo(v, no, m) && Kept(v, v')
    ensures MappedTo(v', no, m)
  {
    forall k | 0 <= k < m
      ensures Block(v', no, k) != 0
    {
      assert Block(v, no, k) != 0;
      KeptBlock(v, v', no, k);
    }
  }

  /** Inodes in use stay in use, so good entries stay good. */
  lemma GoodKept(g: Geometry, w: seq<Word>, w': seq<Word>, entries: seq<Entry>)
    requires Sized(g, w) && Sized(g, w') && GoodEntries(g, w, entries)
    requires forall k {:trigger IsFree(g, w', k)} :: IsFree(g, w', k) ==> IsFree(g, w, k)
    ensures GoodEntries(g, w', entries)
  {
    forall e | 0 <= e < |entries|
      ensures GoodEntry(g, w', entries[e])
    {
      assert GoodEntry(g, w, entries[e]);
    }
  }

  /** After the creation of a directory just its number is no longer free. */
  lemma FreeAfter(g: Geometry, w: seq<Word>, w': seq<Word>, dir: int, no: int)
    requires TwoChanged(g, w, w', dir, no) && IsFree(g, w, no) && InodeAt(g, w', no).mode != 0
    ensures forall k {:trigger IsFree(g, w', k)} :: IsFree(g, w', k) <==> IsFree(g, w, k) && k != no
    ensures |FreeNumbers(g, w')| == |FreeNumbers(g, w)| - 1
  {
    forall k | IsInode(g, k)
      ensures IsFree(g, w', k) <==> IsFree(g, w, k) && k != no
    {
      FreeMeansModeZero(g, w, k);
      FreeMeansModeZero(g, w', k);
      hide IsFree;
      assert k != dir && k != no ==> InodeAt(g, w', k) == InodeAt(g, w, k);
    }
    assert FreeNumbers(g, w') == FreeNumbers(g, w) - {no};
  }

  /** All inodes but the parent stay tidy. */
  lemma OthersTidy(g: Geometry, v: Volume, v': Volume, no: int, n: nat, n': nat)
    requires Sized(g, v.s.w) && Sized(g, v'.s.w) && IsInode(g, no) && |v.t| == |v'.t| == g.InodeCount()
    requires Tidy(g, v, no, n) && Kept(v, v') && n' <= n
    requires DirOf(g, v', no).size == DirOf(g, v, no).size && DirOf(g, v', no).entries == DirOf(g, v, no).entries
    requires forall k {:trigger IsFree(g, v'.s.w, k)} :: IsFree(g, v'.s.w, k) ==> IsFree(g, v.s.w, k)
    ensures Tidy(g, v', no, n')
  {
    var d := DirOf(g, v, no);
    hide DirOf;
    MappedKept(v, v', no, BlockCount(|d.entries|));
    GoodKept(g, v.s.w, v'.s.w, d.entries);
  }

  /** The record of the next entry lies in the last of the mapped blocks. */
  lemma MappedNext(v: Volume, v': Volume, dir: int, e: nat, no: Word, name: string)
    requires MappedTo(v, dir, BlockCount(e)) && e < MAX_ENTRIES && Entered(v, v', dir, ENTRY_SIZE * e, no, name)
    ensures MappedTo(v', dir, BlockCount(e + 1))
  {
    hide WroteBytes, Block;
    MappedKept(v, v', dir, BlockCount(e));
    OffsetInBlock(e);
    BlockCountStep(e);
    hide BlockCount;
  }

  /** So does the parent, which has one entry more at its end. */
  lemma ParentTidy(g: Geometry, v: Volume, v': Volume, dir: int, n: nat, no: Word, name: string)
    requires Sized(g, v.s.w) && Sized(g, v'.s.w) && IsInode(g, dir) && |v.t| == |v'.t| == g.InodeCount()
    requires Tidy(g, v, dir, n) && n > 0 && !IsFree(g, v.s.w, dir)
    requires EntryAdded(DirOf(g, v, dir), DirOf(g, v', dir), ENTRY_SIZE * |DirOf(g, v, dir).entries|, Entry(no, name),
                        Behind(g, v, dir))
    requires Entered(v, v', dir, ENTRY_SIZE * |DirOf(g, v, dir).entries|, no, name)
    requires forall k {:trigger IsFree(g, v'.s.w, k)} :: IsFree(g, v'.s.w, k) ==> IsFree(g, v.s.w, k)
    requires GoodEntry(g, v'.s.w, Entry(no, name))
    ensures Tidy(g, v', dir, n - 1)
  {
    var d, d', e := DirOf(g, v, dir), DirOf(g, v', dir), |DirOf(g, v, dir).entries|;
    assert d'.entries == d.entries + [Entry(no, name)];
    hide DirOf, EntryAdded, EntriesAfter, GoodEntry, WroteBytes;
    GoodKept(g, v.s.w, v'.s.w, d.entries);
    MappedNext(v, v', dir, e, no, name);
  }

  /** A creation in order. */
  ghost predicate Grew(g: Geometry, v: Volume, v': Volume, path: string, dir: int, slot: int, no: int) {
    && Resolvable(g, v, path, CREATEFILE) && OutcomeOf(g, v, path, CREATEFILE) == Create(dir, slot)
    && NewFile(g, v, v', path, dir, slot, no, true) && Sound(g, v') && |v'.free| >= |v.free| - 3
  }

  lemma {:induction false} LastIsProper(path: string, i: nat)
    requires i <= |path| && Proper(NamesFrom(path, i))
    ensures LastName(path, i) != [] && LastName(path, i)[0] != 0 as char
  {
    var names := NamesFrom(path, i);
    assert names[|names| - 1] == LastName(path, i);
  }

  lemma NewIsGood(g: Geometry, w: seq<Word>, path: string, no: Word)
    requires Sized(g, w) && IsInode(g, no) && !IsFree(g, w, no) && Proper(Split(path))
    requires |LastName(path, SkipSlashes(path, 0))| <= NAME_LENGTH
    ensures GoodEntry(g, w, NewEntry(path, no))
  {
    LastIsProper(path, SkipSlashes(path, 0));
    var name := LastName(path, SkipSlashes(path, 0));
    assert Padded(name)[0] == name[0];
  }

  /** No entry leads to a free number. */
  lemma FreeNotListed(g: Geometry, v: Volume, n: nat, no: int)
    requires AllTidy(g, v, n) && IsFree(g, v.s.w, no) && !IsFree(g, v.s.w, 0)
    ensures NotListed(Dirs(g, v), no)
  {
    forall d, e | 0 <= d < |Dirs(g, v)| && 0 <= e < |Dirs(g, v)[d].entries|
      ensures Dirs(g, v)[d].entries[e].ino != no
    {
      assert Tidy(g, v, d, n) && Dirs(g, v)[d] == DirOf(g, v, d);
      assert GoodEntry(g, v.s.w, DirOf(g, v, d).entries[e]);
    }
  }

  /** After the creation of a directory, volume, inodes and directories are ready for the next. */
  lemma HealthyStep(g: Geometry, v: Volume, v': Volume, n: nat, path: string, dir: int, slot: int, no: int)
    requires Healthy(g, v, n) && n > 0 && Grew(g, v, v', path, dir, slot, no) && Proper(Split(path))
    ensures Healthy(g, v', n - 1)
    ensures slot == Dirs(g, v)[dir].size && slot / ENTRY_SIZE == |Dirs(g, v)[dir].entries|
  {
    WalkTidy(g, v, n, 0, Split(path), CREATEFILE);
    CreateMeansAbsent(Dirs(g, v), 0, Split(path), dir, slot);
    FetchTakesFree(g, v.s);
    FreeAfter(g, v.s.w, v'.s.w, dir, no);
    assert Tidy(g, v, dir, n) && DirOf(g, v, dir) == Dirs(g, v)[dir];
    SlotAtEnd(g, v, dir, n);
    NewIsGood(g, v'.s.w, path, no);
    hide Sound, CacheSound, DiskTable, Walk, FreeNumbers, LastName, Tidy, IsFree, InodeAt, Fetch, GoodEntry, SlotFor,
         Proper, Listed, Entered, AllTidy;
    KeptTidy(g, v, v', n, dir, slot, no, Padded(LastName(path, SkipSlashes(path, 0))));
  }

  lemma KeptTidy(g: Geometry, v: Volume, v': Volume, n: nat, dir: int, slot: int, no: Word, name: string)
    requires AllTidy(g, v, n) && n > 0 && Listed(g, v, v', dir, slot, no, name) && Entered(v, v', dir, slot, no, name)
    requires slot == ENTRY_SIZE * |DirOf(g, v, dir).entries| && !IsFree(g, v.s.w, dir)
    requires forall k {:trigger IsFree(g, v'.s.w, k)} :: IsFree(g, v'.s.w, k) ==> IsFree(g, v.s.w, k)
    requires GoodEntry(g, v'.s.w, Entry(no, name))
    ensures AllTidy(g, v', n - 1)
  {
    hide DirOf, Tidy, IsFree, GoodEntry, EntryAdded, WroteBytes, Behind;
    forall k | IsInode(g, k)
      ensures Tidy(g, v', k, n - 1)
    {
      assert Dirs(g, v)[k] == DirOf(g, v, k) && Dirs(g, v')[k] == DirOf(g, v', k) && Tidy(g, v, k, n);
      if k == dir {
        ParentTidy(g, v, v', dir, n, no, name);
      } else {
        OthersTidy(g, v, v', k, n, n - 1);
      }
    }
  }

  /** Every inode is either unmarked or a directory that everybody may read, write and search. */
  ghost predicate OnlyDirectories(g: Geometry, w: seq<Word>) {
    && Sized(g, w)
    && forall no {:trigger InodeAt(g, w, no)} :: IsInode(g, no) ==>
         InodeAt(g, w, no).mode == 0 || InodeAt(g, w, no).mode == 0x8000 + 0x4000 + 0x1FF
  }

  ghost predicate KeepsDirectories(g: Geometry, v: Volume, v': Volume) {
    OnlyDirectories(g, v.s.w) ==> OnlyDirectories(g, v'.s.w)
  }

  lemma NewDirectory(g: Geometry, v: Volume, v': Volume, path: string, dir: int, slot: int, no: int)
    requires NewFile(g, v, v', path, dir, slot, no, true)
    ensures KeepsDirectories(g, v, v')
  {
    assert TwoChanged(g, v.s.w, v'.s.w, dir, no);
    assert InodeAt(g, v'.s.w, no).mode == 0x8000 + 0x4000 + 0x1FF;
    hide InodeAt, NewFile, Created;
  }

  lemma SameDirectories(g: Geometry, v: Volume, v': Volume)
    requires Sized(g, v.s.w) && Later(g, v, v')
    ensures KeepsDirectories(g, v, v')
  {
    hide InodeAt;
    forall no | IsInode(g, no)
      ensures InodeAt(g, v'.s.w, no) == InodeAt(g, v.s.w, no)
    {
      SameInodes(g, v.s.w, v'.s.w, no);
    }
  }

  lemma KeepsTrans(g: Geometry, v: Volume, v1: Volume, v2: Volume)
    requires KeepsDirectories(g, v, v1) && KeepsDirectories(g, v1, v2)
    ensures KeepsDirectories(g, v, v2)
  {
  }

  // ---------------------------------------------------------------- after a refusal

  /** A lookup after which nothing was created. */
  ghost predicate Refused(g: Geometry, v: Volume, v': Volume, path: string, dir: int) {
    && Sized(g, v.s.w) && |v.t| == g.InodeCount() && Sound(g, v') && Later(g, v, v') && CacheSound(g, v'.s)
    && StoppedIn(g, v, v', path, dir)
    && (forall k {:trigger v'.t[k]} :: 0 <= k < |v.t| && k != dir ==> v'.t[k] == v.t[k])
    && |v'.free| >= |v.free|
  }

  lemma SameAddresses(g: Geometry, v: Volume, v': Volume, n: nat, path: string, dir: int)
    requires AllTidy(g, v, n) && Refused(g, v, v', path, dir)
    ensures v'.t == v.t
  {
    var d := DirOf(g, v, dir);
    assert Tidy(g, v, dir, n);
    StopInEntries(Dirs(g, v), 0, Split(path));
    var m := StopOf(g, v, path).1;
    assert Dirs(g, v)[dir] == d;
    FewerRoots(v, dir, m, BlockCount(|d.entries|));
    hide Reach, RootOf, Tidy, DirOf, Sound, CacheSound, StopOf;
    forall i | 0 <= i < 10
      ensures v'.t[dir][i] == v.t[dir][i]
    {
      if v.t[dir][i] != 0 {
        assert Ptr(v.s.w, v.t, Top(dir, i)) != 0;
        assert Ptr(v'.s.w, v'.t, Top(dir, i)) == Ptr(v.s.w, v.t, Top(dir, i));
      }
    }
    assert v'.t[dir] == v.t[dir];
  }

  lemma SameListing(g: Geometry, v: Volume, v': Volume, no: int)
    requires Sized(g, v.s.w) && IsInode(g, no) && |v.t| == g.InodeCount() && Later(g, v, v')
    ensures Sized(g, v'.s.w) && DirOf(g, v', no).size == DirOf(g, v, no).size
    ensures DirOf(g, v', no).entries == DirOf(g, v, no).entries
  {
    SameInodes(g, v.s.w, v'.s.w, no);
    SameDataBytes(v, v');
    var n := EntryCount(InodeAt(g, v.s.w, no).size);
    if 0 <= n <= MAX_ENTRIES {
      forall e | 0 <= e < n
        ensures EntryOf(v', no, e) == EntryOf(v, no, e)
      {
        SameEntry(v, v', no, e);
      }
      hide EntryOf;
      assert Entries(v', no, n) == Entries(v, no, n);
    }
  }

  /** A lookup that creates nothing leaves inodes, addresses and listings as they are. */
  lemma HealthyRefused(g: Geometry, v: Volume, v': Volume, n: nat, path: string, dir: int)
    requires Healthy(g, v, n) && Refused(g, v, v', path, dir)
    ensures Healthy(g, v', n) && Dirs(g, v') == Dirs(g, v)
  {
    SameAddresses(g, v, v', n, path, dir);
    hide DirOf, InodeAt, IsFree, Sound, CacheSound, DiskTable, StopOf, RootsSeen;
    forall k | IsInode(g, k)
      ensures (IsFree(g, v'.s.w, k) <==> IsFree(g, v.s.w, k)) && InodeAt(g, v'.s.w, k) == InodeAt(g, v.s.w, k)
    {
      SameInodes(g, v.s.w, v'.s.w, k);
    }
    SameFreeNumbers(g, v.s.w, v'.s.w);
    assert DiskTable(g, v'.s.w) == DiskTable(g, v.s.w);
    forall k | IsInode(g, k)
      ensures Tidy(g, v', k, n) && DirOf(g, v', k) == DirOf(g, v, k)
    {
      assert Tidy(g, v, k, n) by {
        assert DirOf(g, v, k) == DirOf(g, v, k);
      }
      SameListing(g, v, v', k);
      SameTidy(g, v, v', k, n);
    }
    assert Dirs(g, v') == Dirs(g, v);
  }

  lemma SameFreeNumbers(g: Geometry, w: seq<Word>, w': seq<Word>)
    requires Sized(g, w) && Sized(g, w')
    requires forall k {:trigger IsFree(g, w', k)} :: IsInode(g, k) ==> (IsFree(g, w', k) <==> IsFree(g, w, k))
    ensures FreeNumbers(g, w') == FreeNumbers(g, w)
  {
    hide IsFree;
  }

  lemma SameTidy(g: Geometry, v: Volume, v': Volume, no: int, n: nat)
    requires Sized(g, v.s.w) && Sized(g, v'.s.w) && IsInode(g, no) && |v.t| == |v'.t| == g.InodeCount()
    requires Tidy(g, v, no, n) && Kept(v, v')
    requires DirOf(g, v', no).size == DirOf(g, v, no).size && DirOf(g, v', no).entries == DirOf(g, v, no).entries
    requires forall k {:trigger IsFree(g, v'.s.w, k)} :: IsInode(g, k) ==>
             (IsFree(g, v'.s.w, k) <==> IsFree(g, v.s.w, k))
    ensures Tidy(g, v', no, n) && DirOf(g, v', no) == DirOf(g, v, no)
  {
    var d := DirOf(g, v, no);
    forall k
      ensures IsFree(g, v'.s.w, k) ==> IsFree(g, v.s.w, k)
    {
    }
    OthersTidy(g, v, v', no, n, n);
    NoHoles(v, no, 0, BlockCount(|d.entries|));
    NoHoles(v', no, 0, BlockCount(|d.entries|));
  }

  // ---------------------------------------------------------------- a sequence of creations

  /** A creation on a healthy volume is one more of the story, whether of a directory or not. */
  lemma OneMore(g: Geometry, v: Volume, v': Volume, n: nat, path: string, dir: int, slot: int, no: int,
                isDirectory: bool)
    returns (r: Made)
    requires Healthy(g, v, n) && n > 0 && forall k :: 0 <= k < |path| ==> path[k] as int < 256
    requires Creatable(g, v, path) && OutcomeOf(g, v, path, CREATEFILE) == Create(dir, slot)
    requires NewFile(g, v, v', path, dir, slot, no, isDirectory)
    ensures Creates(Dirs(g, v), Dirs(g, v'), r) && Appended(Dirs(g, v), r, path)
  {
    CreatedStep(g, v, v', path, no);
    r := Step(g, v, path, no);
    CreateMeansAbsent(Dirs(g, v), 0, Split(path), dir, slot);
    FetchTakesFree(g, v.s);
    FreeNotListed(g, v, n, no);
    assert Tidy(g, v, dir, n) && DirOf(g, v, dir) == Dirs(g, v)[dir];
    SlotAtEnd(g, v, dir, n);
  }

  /** One more creation of the story. */
  lemma AfterCreation(g: Geometry, v: Volume, v': Volume, n: nat, path: string, dir: int, slot: int, no: int)
    returns (r: Made)
    requires Healthy(g, v, n) && n > 0 && Nameable(path) && Grew(g, v, v', path, dir, slot, no)
    ensures Healthy(g, v', n - 1) && Creates(Dirs(g, v), Dirs(g, v'), r) && Appended(Dirs(g, v), r, path)
  {
    HealthyIsCreatable(g, v, n, path);
    HealthyStep(g, v, v', n, path, dir, slot, no);
    hide Healthy, Settled, AllTidy, Created, Creates, Appended, Sound, Creatable;
    r := OneMore(g, v, v', n, path, dir, slot, no, true);
  }

  /** One call of a creation: it adds to the listings what `r` says, or leaves them alone. */
  ghost predicate Advanced(g: Geometry, v: Volume, v': Volume, path: string, created: bool, r: Made) {
    && Sized(g, v.s.w) && Sized(g, v'.s.w) && |v.t| == |v'.t| == g.InodeCount()
    && if created then Creates(Dirs(g, v), Dirs(g, v'), r) && Appended(Dirs(g, v), r, path)
       else Dirs(g, v') == Dirs(g, v)
  }

  /** A lookup of the path meets a name that is too long. */
  ghost predicate Overlong(g: Geometry, v: Volume, path: string) {
    Sized(g, v.s.w) && |v.t| == g.InodeCount() && Resolve(Dirs(g, v), path, CREATEFILE) == TooLong
  }

  /** A creation for the path is refused; `code` is the shared error code before it. */
  ghost predicate Declines(dirs: seq<Dir>, path: string, code: int) {
    code != SUCCESS || !Resolve(dirs, path, CREATEFILE).Create?
  }

  /** What one call tells its caller, given the shared error codes before and after it. */
  ghost predicate Responds(g: Geometry, v: Volume, path: string, before: int, created: bool, thrown: bool, after: int) {
    && Sized(g, v.s.w) && |v.t| == g.InodeCount()
    && var outcome := Resolve(Dirs(g, v), path, CREATEFILE);
       && after == CodeAfter(outcome, before) && (thrown <==> outcome == TooLong)
       && (created <==> outcome.Create? && before == SUCCESS) && (created || thrown || after != SUCCESS)
  }

  /** After `i` calls, from `v` to `v'`: the log holds the creations, which are those for the first
      paths, and the call after the last of them was refused. The shared error code was `code` before
      and is now `now`; it tells whether any call failed, unless the last one threw. */
  ghost predicate Chronicle(g: Geometry, v: Volume, v': Volume, h: seq<seq<Dir>>, log: seq<Made>, paths: seq<string>,
                            i: nat, code: int, now: int, thrown: bool) {
    && Sized(g, v.s.w) && Sized(g, v'.s.w) && |v.t| == |v'.t| == g.InodeCount()
    && Story(h, log, paths) && |log| <= i <= |paths| && |h| == |log| + 1
    && h[0] == Dirs(g, v) && h[|log|] == Dirs(g, v') && (|log| < i ==> Declines(h[|log|], paths[|log|], code))
    && (if thrown then |log| < i && Overlong(g, v', paths[i - 1])
        else if |log| < i then now != SUCCESS
        else now == code)
  }

  lemma ChronicleStarts(g: Geometry, v: Volume, paths: seq<string>, code: int)
    requires Sized(g, v.s.w) && |v.t| == g.InodeCount()
    ensures Chronicle(g, v, v, [Dirs(g, v)], [], paths, 0, code, code, false)
  {
    StoryStarts(Dirs(g, v), paths);
  }

  /** One more call. */
  lemma ChronicleStep(g: Geometry, v: Volume, v1: Volume, v2: Volume, h: seq<seq<Dir>>, log: seq<Made>,
                      paths: seq<string>, i: nat, code: int, before: int, created: bool, thrown: bool, after: int,
                      r: Made)
    returns (h': seq<seq<Dir>>, log': seq<Made>)
    requires Chronicle(g, v, v1, h, log, paths, i, code, before, false) && i < |paths|
    requires Advanced(g, v1, v2, paths[i], created, r) && Responds(g, v1, paths[i], before, created, thrown, after)
    ensures Chronicle(g, v, v2, h', log', paths, i + 1, code, after, thrown)
    ensures |log'| == if created then |log| + 1 else |log|
  {
    h', log' := h, log;
    hide Dirs, Creates, Appended, Story, Resolve;
    if created {
      StoryGoesOn(h, log, paths, Dirs(g, v2), r);
      h', log' := h + [Dirs(g, v2)], log + [r];
    }
  }
}

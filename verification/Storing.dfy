/** What a creation stores besides the directory entry, when it is in order, and what it leaves. */
module Storing {
  import opened Words
  import opened DiskImage
  import opened SuperBlocks
  import opened FreeList
  import opened BlockMap
  import opened BlockMapLaws
  import opened Inodes
  import opened Paths
  import opened DirViews
  import opened Creation
  import opened FileBytes

  const SUCCESS := 0
  const SEARCHDIR := 4
  const SAMEFILENAME := 5

  /** `IALLOC | IFDIR` and read, write and execute permission for everybody. */
  const DIRECTORY_MODE: UWord := 0xC1FF

  /** Failed lookups leave their code; a successful one leaves the code of the last failure. */
  function Code(status: Status, before: int): int {
    if status == SearchDir then SEARCHDIR else if status == SameFileName then SAMEFILENAME else before
  }

  /** The same in terms of the outcome of the lookup. */
  function CodeAfter(outcome: Outcome, before: int): int {
    if outcome == NotFound then SEARCHDIR else if outcome == Exists then SAMEFILENAME else before
  }

  // ---------------------------------------------------------------- the inodes after a creation

  /** The image with the inodes of the new file and of its parent stored. */
  ghost function WithTwo(g: Geometry, w: seq<Word>, no: int, file: Inode, dir: int, parent: Inode): (r: seq<Word>)
    requires Sized(g, w) && IsInode(g, no) && IsInode(g, dir)
    ensures |r| == |w|
  {
    WithInode(g, WithInode(g, w, no, file), dir, parent)
  }

  /** Just these two inodes change, and nothing in the data area. */
  lemma TwoInodes(g: Geometry, w0: seq<Word>, w: seq<Word>, no: int, file: Inode, dir: int, parent: Inode)
    requires Sized(g, w0) && |w| == |w0| && SameTables(g, w0, w) && IsInode(g, no) && IsInode(g, dir) && no != dir
    ensures var w' := WithTwo(g, w, no, file, dir, parent);
            && SameWords(w, w', 128 * g.DataStart(), |w|)
            && forall k {:trigger InodeAt(g, w', k)} :: IsInode(g, k) ==>
                 InodeAt(g, w', k) == if k == dir then parent else if k == no then file else InodeAt(g, w0, k)
  {
    var w1, w' := WithInode(g, w, no, file), WithTwo(g, w, no, file, dir, parent);
    InodeRoundTrip(g, w, no, file);
    InodeRoundTrip(g, w1, dir, parent);
    hide WithInode;
    forall k | IsInode(g, k)
      ensures InodeAt(g, w', k) == if k == dir then parent else if k == no then file else InodeAt(g, w0, k)
    {
      SameInodes(g, w0, w, k);
    }
  }

  /** The addresses on disk are again those in core. */
  lemma TwoTables(g: Geometry, v: Volume, w: seq<Word>, no: int, file: Inode, dir: int, parent: Inode)
    requires Sized(g, v.s.w) && v.t == DiskTable(g, v.s.w) && |w| == |v.s.w| && SameTables(g, v.s.w, w)
    requires IsInode(g, no) && IsInode(g, dir) && no != dir && file.addr == InodeAt(g, v.s.w, no).addr
    ensures DiskTable(g, WithTwo(g, w, no, file, dir, parent)) == v.t[dir := parent.addr]
  {
    TwoInodes(g, v.s.w, w, no, file, dir, parent);
  }

  /** A directory in use and a number that is not in the cache can be stored. */
  lemma TwoKeepCache(g: Geometry, s: Store, no: int, file: Inode, dir: int, parent: Inode)
    requires Sized(g, s.w) && CacheSound(g, s) && IsInode(g, no) && IsInode(g, dir) && no != dir
    requires !Cached(s, no) && !IsFree(g, s.w, dir) && parent.mode != 0
    ensures CacheSound(g, s.(w := WithTwo(g, s.w, no, file, dir, parent)))
  {
    StoreKeepsCache(g, s, no, file);
    var s1 := s.(w := WithInode(g, s.w, no, file));
    hide WithInode;
    StoreKeepsCache(g, s1, dir, parent);
  }

  // ---------------------------------------------------------------- when a creation is in order

  /** The parent directory has a mode, its size is a whole number of entries and can grow; a number
      is free, and the inode under it is empty, as `FreeInode` leaves it. */
  ghost predicate Creatable(g: Geometry, v: Volume, path: string) {
    && Searchable(g, v, path, CREATEFILE, 3)
    && var outcome := OutcomeOf(g, v, path, CREATEFILE);
       outcome.Create? ==>
         && IsInode(g, outcome.dir) && !IsFree(g, v.s.w, outcome.dir)
         && RoomFor(DirOf(g, v, outcome.dir)) && NumberReady(g, v)
  }

  /** The free blocks that a lookup leaves at least. */
  ghost function Spare(g: Geometry, v: Volume, path: string): int
    requires Sized(g, v.s.w) && |v.t| == g.InodeCount()
  {
    |v.free| - WalkCost(Dirs(g, v), 0, Split(path))
  }

  ghost predicate RoomFor(d: Dir) {
    Sane(d) && d.size % ENTRY_SIZE == 0 && |d.entries| < MAX_ENTRIES
  }

  /** The size of a directory that can grow does not overflow. */
  lemma RoomIsEnough(d: Dir)
    requires RoomFor(d)
    ensures Wrap(d.size + ENTRY_SIZE) == d.size + ENTRY_SIZE
  {
  }

  ghost predicate NumberReady(g: Geometry, v: Volume)
    requires Sized(g, v.s.w) && v.s.sb.ninode <= GROUP
  {
    var r := Fetch(g, v.s).1;
    r.Number? && IsFree(g, v.s.w, r.no) && InodeAt(g, v.s.w, r.no).size == 0
  }

  /** The listings gained the entry and what lay behind the end, if a free entry was used. */
  ghost predicate Listed(g: Geometry, v: Volume, v': Volume, dir: int, slot: int, no: Word, name: string) {
    && Sized(g, v.s.w) && Sized(g, v'.s.w) && |v.t| == g.InodeCount() && |v'.t| == |v.t| && IsInode(g, dir)
    && Added(Dirs(g, v), Dirs(g, v'), dir, slot, Entry(no, name), Behind(g, v, dir))
  }

  /** No inodes but those of the parent and of the new file changed; the parent grew by one entry. */
  ghost predicate TwoChanged(g: Geometry, w: seq<Word>, w': seq<Word>, dir: int, no: int) {
    && Sized(g, w) && Sized(g, w') && IsInode(g, dir) && IsInode(g, no) && dir != no
    && (forall k {:trigger InodeAt(g, w', k)} :: IsInode(g, k) && k != dir && k != no ==>
         InodeAt(g, w', k) == InodeAt(g, w, k))
    && var x, x' := InodeAt(g, w, dir), InodeAt(g, w', dir);
       x'.size == x.size + 32 && x' == x.(addr := x'.addr, size := x'.size, atime := x'.atime, mtime := x'.mtime)
  }

  /** The state after a creation: tables on disk and in core agree, the cache is sound, the record
      is in its place, the listings gained the new entry, and no other inode changed. */
  ghost predicate Created(g: Geometry, v: Volume, v': Volume, path: string, dir: int, slot: int, no: Word) {
    var last := LastName(path, SkipSlashes(path, 0));
    && Sized(g, v.s.w) && Sized(g, v'.s.w) && |v.t| == g.InodeCount() && v.s.sb.ninode <= GROUP
    && v'.t == DiskTable(g, v'.s.w) && CacheSound(g, v'.s) && v'.s.sb.nfree >= 1
    && |last| <= NAME_LENGTH && Listed(g, v, v', dir, slot, no, Padded(last))
    && Entered(v, v', dir, slot, no, Padded(last)) && TwoChanged(g, v.s.w, v'.s.w, dir, no)
  }

  /** The entry that a creation adds. */
  ghost function NewEntry(path: string, no: Word): Entry
    requires |LastName(path, SkipSlashes(path, 0))| <= NAME_LENGTH
  {
    Entry(no, Padded(LastName(path, SkipSlashes(path, 0))))
  }

  /** The creation as a step from listing to listing. */
  ghost function Step(g: Geometry, v: Volume, path: string, no: Word): Made
    requires Resolvable(g, v, path, CREATEFILE) && OutcomeOf(g, v, path, CREATEFILE).Create?
    requires |LastName(path, SkipSlashes(path, 0))| <= NAME_LENGTH
    requires IsInode(g, OutcomeOf(g, v, path, CREATEFILE).dir)
  {
    var outcome := OutcomeOf(g, v, path, CREATEFILE);
    Made(outcome.dir, outcome.slot, NewEntry(path, no), Behind(g, v, outcome.dir))
  }

  lemma CreatedStep(g: Geometry, v: Volume, v': Volume, path: string, no: Word)
    requires Creatable(g, v, path) && OutcomeOf(g, v, path, CREATEFILE).Create? && Fetch(g, v.s).1 == Number(no)
    requires var outcome := OutcomeOf(g, v, path, CREATEFILE); Created(g, v, v', path, outcome.dir, outcome.slot, no)
    ensures var r := Step(g, v, path, no);
            && Creates(Dirs(g, v), Dirs(g, v'), r) && OutcomeOf(g, v, path, CREATEFILE) == Create(r.no, r.slot)
            && r.entry == NewEntry(path, no)
  {
    var outcome := OutcomeOf(g, v, path, CREATEFILE);
    CreateMeansAbsent(Dirs(g, v), 0, Split(path), outcome.dir, outcome.slot);
    assert DirOf(g, v, no).size == 0;
  }

  /** After a creation the path leads to the new inode, a second creation is refused, and every path
      that led to an inode before still does. No other path leads to an inode that did not before
      exactly if no name surfaces behind the end of the directory. */
  lemma CreatedResolves(g: Geometry, v: Volume, v': Volume, path: string, no: Word)
    requires Creatable(g, v, path) && OutcomeOf(g, v, path, CREATEFILE).Create? && Fetch(g, v.s).1 == Number(no)
    requires forall k :: 0 <= k < |path| ==> path[k] != 0 as char
    requires var outcome := OutcomeOf(g, v, path, CREATEFILE); Created(g, v, v', path, outcome.dir, outcome.slot, no)
    ensures var r, dirs, dirs' := Step(g, v, path, no), Dirs(g, v), Dirs(g, v');
            && Creates(dirs, dirs', r)
            && Resolve(dirs', path, CREATEFILE) == Exists
            && Resolve(dirs', path, DELETEFILE) == Delete(r.no, r.slot, no)
            && (OnlyCreated(dirs, dirs', r.no, r.slot, r.entry) <==> !Surfaces(dirs[r.no], r.slot, r.entry, r.tail))
            && (r.slot == dirs[r.no].size || r.tail.Unused() ==> OnlyCreated(dirs, dirs', r.no, r.slot, r.entry))
    ensures forall other: string {:trigger Resolve(Dirs(g, v'), other, DELETEFILE)} ::
              Proper(Split(other)) && Resolve(Dirs(g, v), other, DELETEFILE).Delete? ==>
              Resolve(Dirs(g, v'), other, DELETEFILE) == Resolve(Dirs(g, v), other, DELETEFILE)
  {
    var r, dirs, dirs' := Step(g, v, path, no), Dirs(g, v), Dirs(g, v');
    CreatedStep(g, v, v', path, no);
    SplitProper(path);
    assert Resolve(dirs, path, CREATEFILE) == Create(r.no, r.slot);
    hide Added, Dirs, Walk, CacheSound, DiskTable, Sized, LastName, LeadsNowhere, SlotFor, Surfaces, OnlyCreated,
         Created;
    CreationResolves(dirs, dirs', path, r.no, r.slot, r.entry, r.tail);
    OnlyCreatedIff(dirs, dirs', path, r.no, r.slot, r.entry, r.tail);
  }

  /** What a lookup that ended in directory `no` leaves for the writes that follow; `parent` is the
      in-core inode of the directory. */
  ghost predicate LookupDone(g: Geometry, v: Volume, v1: Volume, no: int, parent: Inode) {
    && Sized(g, v.s.w) && IsInode(g, no) && |v.t| == g.InodeCount()
    && Sound(g, v1) && Later(g, v, v1) && CacheSound(g, v1.s) && v1.t == v.t[no := parent.addr]
    && parent == InodeAt(g, v.s.w, no).(addr := parent.addr)
  }

  /** The record is written: from the volume in which the lookup began to the one before the inodes
      are stored. */
  ghost predicate RecordDone(g: Geometry, v: Volume, v2: Volume, no: int, slot: int, parent: Inode, file: Word,
                             name: string) {
    && Sized(g, v.s.w) && IsInode(g, no) && |v.t| == g.InodeCount() && |v2.s.w| == |v.s.w|
    && Sound(g, v2) && SameTables(g, v.s.w, v2.s.w) && CacheSound(g, v2.s) && v2.t == v.t[no := parent.addr]
    && v2.s.sb.nfree >= 1 && Entered(v, v2, no, slot, file, name) && !Cached(v2.s, file)
  }

  lemma RecordFollows(g: Geometry, v: Volume, v1: Volume, v2: Volume, no: int, slot: int, parent: Inode, addr: Addrs,
                      file: Word, name: string)
    requires LookupDone(g, v, v1, no, parent) && !Cached(v1.s, file) && Narrow(name)
    requires Sound(g, v2) && v2.t == v1.t[no := addr] && Streamed(g, v1, v2, no, slot, Record(file, name))
    requires v2.s.sb.ninode == v1.s.sb.ninode && v2.s.sb.inode == v1.s.sb.inode
    ensures RecordDone(g, v, v2, no, slot, parent.(addr := addr), file, name)
  {
    SameDataBytes(v, v1);
    EnteredAfter(v, v1, v2, no, slot, file, name);
    CacheFrame(g, v1.s, v2.s);
  }

  /** The fields that are stored for the new file and for its parent. */
  ghost predicate FileFields(g: Geometry, w: seq<Word>, no: int, file: Inode, isDirectory: bool)
    requires Sized(g, w) && IsInode(g, no)
  {
    file == InodeAt(g, w, no).(mode := if isDirectory then 0x8000 + 0x4000 + 0x1FF else InodeAt(g, w, no).mode,
                               ilink := 1, uid := 0, gid := 0, size := 0, atime := file.atime, mtime := file.mtime)
  }

  ghost predicate ParentFields(g: Geometry, w: seq<Word>, no: int, before: Inode, parent: Inode)
    requires Sized(g, w) && IsInode(g, no)
  {
    parent == InodeAt(g, w, no).(addr := before.addr, size := Wrap(InodeAt(g, w, no).size + ENTRY_SIZE),
                                 atime := parent.atime, mtime := parent.mtime)
  }

  /** What `SetCommonFileInode` makes of an inode. */
  ghost function FileAfter(x: Inode, isDirectory: bool, now: Word): Inode {
    x.(ilink := 1, gid := 0, uid := 0, atime := now, mtime := now, size := 0,
       mode := if isDirectory then 0x8000 + 0x4000 + 0x1FF else x.mode)
  }

  /** What the entry and `UpdateFatherDirInode` make of the parent; `addr` are its addresses by then. */
  ghost function ParentAfter(x: Inode, addr: Addrs, now: Word): Inode {
    x.(addr := addr, size := Wrap(x.size + 32), atime := now, mtime := now)
  }

  lemma AddressesAside(x: Inode, y: Inode, now: Word)
    requires y == x.(addr := y.addr)
    ensures ParentAfter(y, y.addr, now) == ParentAfter(x, y.addr, now)
  {
  }

  lemma FieldsFollow(g: Geometry, w: seq<Word>, no: int, file0: Inode, dir: int, parent0: Inode, before: Inode,
                     isDirectory: bool, now: Word)
    requires Sized(g, w) && IsInode(g, no) && IsInode(g, dir) && file0 == InodeAt(g, w, no)
    requires parent0 == InodeAt(g, w, dir).(addr := parent0.addr)
    ensures var file, parent := FileAfter(file0, isDirectory, now), ParentAfter(parent0, before.addr, now);
            && FileFields(g, w, no, file, isDirectory) && ParentFields(g, w, dir, before, parent)
            && file.atime == now && file.mtime == now && parent.atime == now && parent.mtime == now
  {
    hide InodeAt, Wrap;
  }

  /** Both times of an inode on disk. */
  ghost predicate Stamped(g: Geometry, w: seq<Word>, no: int, now: Word) {
    Sized(g, w) && IsInode(g, no) && InodeAt(g, w, no).atime == now && InodeAt(g, w, no).mtime == now
  }

  /** The volume after both inodes have been stored. */
  ghost function Completed(g: Geometry, v: Volume, no: int, file: Inode, dir: int, parent: Inode): Volume
    requires Sized(g, v.s.w) && IsInode(g, no) && IsInode(g, dir)
  {
    v.(s := v.s.(w := WithTwo(g, v.s.w, no, file, dir, parent)))
  }

  /** Storing the inodes keeps the volume, the tables and the cache in order. */
  lemma InodesDone(g: Geometry, v: Volume, v2: Volume, dir: int, slot: int, no: Word, name: string, before: Inode,
                   file: Inode, parent: Inode, isDirectory: bool)
    requires RecordDone(g, v, v2, dir, slot, before, no, name) && v.t == DiskTable(g, v.s.w)
    requires IsFree(g, v.s.w, no) && IsInode(g, dir) && !IsFree(g, v.s.w, dir)
    requires FileFields(g, v.s.w, no, file, isDirectory) && ParentFields(g, v.s.w, dir, before, parent)
    ensures var v' := Completed(g, v2, no, file, dir, parent);
            && Sound(g, v') && |v'.s.w| == |v2.s.w| && v'.t == DiskTable(g, v'.s.w) && CacheSound(g, v'.s)
            && SameData(v2.s.w, v2.t, v'.s.w, v'.t) && Kept(v2, v') && AsComplete(g, v2, v')
  {
    FreeMeansModeZero(g, v.s.w, dir);
    SameInodes(g, v.s.w, v2.s.w, dir);
    TwoInodes(g, v.s.w, v2.s.w, no, file, dir, parent);
    TwoTables(g, v, v2.s.w, no, file, dir, parent);
    hide WithTwo, Sound, CacheSound, DiskTable, SameTables, InodeAt;
    TwoKeepCache(g, v2.s, no, file, dir, parent);
    TablesUpdate(g, v2, Completed(g, v2, no, file, dir, parent).s);
  }

  /** The directory listings gain the new entry, and nothing else. */
  lemma ListingDone(g: Geometry, v: Volume, v2: Volume, v': Volume, dir: int, slot: int, no: Word, name: string,
                    before: Inode, file: Inode, parent: Inode, isDirectory: bool)
    requires RecordDone(g, v, v2, dir, slot, before, no, name) && IsInode(g, no) && dir != no
             && v' == Completed(g, v2, no, file, dir, parent)
    requires FileFields(g, v.s.w, no, file, isDirectory) && ParentFields(g, v.s.w, dir, before, parent)
    requires InodeAt(g, v.s.w, no).size == 0 && RoomFor(DirOf(g, v, dir)) && slot == SlotFor(DirOf(g, v, dir))
    requires SameData(v2.s.w, v2.t, v'.s.w, v'.t) && Kept(v2, v')
    ensures Listed(g, v, v', dir, slot, no, name) && Entered(v, v', dir, slot, no, name)
    ensures TwoChanged(g, v.s.w, v'.s.w, dir, no)
    ensures InodeAt(g, v'.s.w, no) == file && InodeAt(g, v'.s.w, dir) == parent
  {
    SameDataBytes(v2, v');
    StaysEntered(v, v2, v', dir, slot, no, name);
    TwoDone(g, v, v2.s.w, no, file, dir, before, parent, isDirectory);
    assert Sized(g, v'.s.w) && |v.t| == |v'.t| == g.InodeCount();
    hide Completed, WithTwo, Sound, CacheSound, DiskTable, SameTables, InodeAt, SameData, WroteBytes, Sane, SlotFor,
         DirOf, Kept, Block, RecordDone, FileFields, ParentFields;
    RecordIsAdded(g, v, v', dir, slot, no, name);
  }

  /** Only the two inodes change, and the parent grows. */
  lemma TwoDone(g: Geometry, v: Volume, w: seq<Word>, no: int, file: Inode, dir: int, before: Inode, parent: Inode,
                isDirectory: bool)
    requires Sized(g, v.s.w) && |w| == |v.s.w| && SameTables(g, v.s.w, w) && IsInode(g, no) && IsInode(g, dir)
             && no != dir
    requires |v.t| == g.InodeCount() && RoomFor(DirOf(g, v, dir))
    requires FileFields(g, v.s.w, no, file, isDirectory) && ParentFields(g, v.s.w, dir, before, parent)
    requires InodeAt(g, v.s.w, no).size == 0
    ensures var w' := WithTwo(g, w, no, file, dir, parent);
            && TwoChanged(g, v.s.w, w', dir, no) && InodeAt(g, w', no) == file && InodeAt(g, w', dir) == parent
            && forall k {:trigger InodeAt(g, w', k)} :: IsInode(g, k) && k != dir ==>
                 InodeAt(g, w', k).size == InodeAt(g, v.s.w, k).size
  {
    RoomIsEnough(DirOf(g, v, dir));
    hide Wrap, EntryCount;
    TwoInodes(g, v.s.w, w, no, file, dir, parent);
  }

  /** The same in terms of the path. */
  lemma CreationDone(g: Geometry, v: Volume, v2: Volume, path: string, no: Word, before: Inode, file: Inode,
                     parent: Inode, isDirectory: bool)
    requires Creatable(g, v, path) && OutcomeOf(g, v, path, CREATEFILE).Create? && Fetch(g, v.s).1 == Number(no)
    requires var outcome, last := OutcomeOf(g, v, path, CREATEFILE), LastName(path, SkipSlashes(path, 0));
             |last| <= NAME_LENGTH && RecordDone(g, v, v2, outcome.dir, outcome.slot, before, no, Padded(last))
    requires FileFields(g, v.s.w, no, file, isDirectory)
    requires ParentFields(g, v.s.w, OutcomeOf(g, v, path, CREATEFILE).dir, before, parent)
    ensures var outcome := OutcomeOf(g, v, path, CREATEFILE);
            var v' := Completed(g, v2, no, file, outcome.dir, parent);
            && Sound(g, v') && Created(g, v, v', path, outcome.dir, outcome.slot, no)
            && InodeAt(g, v'.s.w, no) == file && InodeAt(g, v'.s.w, outcome.dir) == parent && AsComplete(g, v2, v')
  {
    var outcome, last := OutcomeOf(g, v, path, CREATEFILE), LastName(path, SkipSlashes(path, 0));
    var dir, slot := outcome.dir, outcome.slot;
    CreateMeansAbsent(Dirs(g, v), 0, Split(path), dir, slot);
    assert dir != no && Dirs(g, v)[dir] == DirOf(g, v, dir);
    hide RecordDone, FileFields, ParentFields, Sound, SlotFor, DiskTable, CacheSound, Walk, Added, RoomFor, IsFree,
         Fetch, SameData, WithTwo, LastName, NamesFrom, InodeAt;
    InodesDone(g, v, v2, dir, slot, no, Padded(last), before, file, parent, isDirectory);
    ListingDone(g, v, v2, Completed(g, v2, no, file, dir, parent), dir, slot, no, Padded(last), before, file, parent,
        isDirectory);
  }

  /** The new file is in its directory and its inode is on disk. */
  ghost predicate NewFile(g: Geometry, v: Volume, v': Volume, path: string, dir: int, slot: int, no: int,
                          isDirectory: bool) {
    && g.Valid() && IsInode(g, no) && Created(g, v, v', path, dir, slot, no) && Fetch(g, v.s).1 == Number(no)
    && FileFields(g, v.s.w, no, InodeAt(g, v'.s.w, no), isDirectory)
  }

  lemma RecordIsFor(g: Geometry, v: Volume, v2: Volume, path: string, dir: int, slot: int, before: Inode, no: Word,
                    name: string)
    requires RecordDone(g, v, v2, dir, slot, before, no, name)
    requires var last := LastName(path, SkipSlashes(path, 0)); |last| <= NAME_LENGTH && name == Padded(last)
    ensures RecordFor(g, v, v2, path, dir, slot, before, no)
  {
  }

  /** What the stores of a creation amount to: `file0` and `parent0` are the in-core inodes before the
      first write, `before` the parent after it. */
  lemma NewDone(g: Geometry, v: Volume, v2: Volume, v': Volume, path: string, dir: int, slot: int, no: Word,
                file0: Inode, file: Inode, parent0: Inode, before: Inode, parent: Inode, isDirectory: bool, now: Word)
    requires Creatable(g, v, path) && OutcomeOf(g, v, path, CREATEFILE) == Create(dir, slot)
    requires Fetch(g, v.s).1 == Number(no) && RecordFor(g, v, v2, path, dir, slot, before, no)
    requires IsInode(g, no) && IsInode(g, dir) && file0 == InodeAt(g, v.s.w, no)
    requires parent0 == InodeAt(g, v.s.w, dir).(addr := parent0.addr)
    requires file == FileAfter(file0, isDirectory, now) && parent == ParentAfter(parent0, before.addr, now)
    requires Sized(g, v2.s.w) && v' == Completed(g, v2, no, file, dir, parent)
    ensures Sound(g, v') && NewFile(g, v, v', path, dir, slot, no, isDirectory) && AsComplete(g, v2, v')
    ensures Stamped(g, v'.s.w, no, now) && Stamped(g, v'.s.w, dir, now)
  {
    assert g.Valid() && Sized(g, v.s.w);
    FieldsFollow(g, v.s.w, no, file0, dir, parent0, before, isDirectory, now);
    assert var last := LastName(path, SkipSlashes(path, 0));
      |last| <= NAME_LENGTH && RecordDone(g, v, v2, dir, slot, before, no, Padded(last));
    hide *;
    CreationDone(g, v, v2, path, no, before, file, parent, isDirectory);
    NewFileIs(g, v, v', path, dir, slot, no, file, parent, isDirectory, now);
  }

  lemma NewFileIs(g: Geometry, v: Volume, v': Volume, path: string, dir: int, slot: int, no: Word, file: Inode,
                  parent: Inode, isDirectory: bool, now: Word)
    requires g.Valid() && IsInode(g, no) && IsInode(g, dir) && Created(g, v, v', path, dir, slot, no)
    requires Sized(g, v.s.w) && Sized(g, v'.s.w) && v.s.sb.ninode <= GROUP && Fetch(g, v.s).1 == Number(no)
    requires FileFields(g, v.s.w, no, file, isDirectory)
    requires InodeAt(g, v'.s.w, no) == file && InodeAt(g, v'.s.w, dir) == parent
    requires file.atime == now && file.mtime == now && parent.atime == now && parent.mtime == now
    ensures NewFile(g, v, v', path, dir, slot, no, isDirectory)
    ensures Stamped(g, v'.s.w, no, now) && Stamped(g, v'.s.w, dir, now)
  {
    hide InodeAt, Created, FileFields, Fetch;
  }

  /** The record is written under the last name of the path. */
  ghost predicate RecordFor(g: Geometry, v: Volume, v2: Volume, path: string, dir: int, slot: int, before: Inode,
                            no: Word) {
    var last := LastName(path, SkipSlashes(path, 0));
    |last| <= NAME_LENGTH && RecordDone(g, v, v2, dir, slot, before, no, Padded(last))
  }

  /** A new directory is allocated, is a directory by its format bits, and everybody may read, write and
      search it. */
  lemma DirectoryBits(g: Geometry, v: Volume, v': Volume, path: string, dir: int, slot: int, no: int)
    requires NewFile(g, v, v', path, dir, slot, no, true)
    ensures var mode := InodeAt(g, v'.s.w, no).mode;
            && mode == 0x8000 + 0x4000 + 0x1FF && mode / 0x8000 == 1 && mode / 0x2000 % 4 == 2
            && mode % 0x2000 == 0x100 + 0x80 + 0x40 + 0x20 + 0x10 + 8 + 4 + 2 + 1
  {
    var mode := InodeAt(g, v'.s.w, no).mode;
    assert FileFields(g, v.s.w, no, InodeAt(g, v'.s.w, no), true);
    assert mode == 0x8000 + 0x4000 + 0x1FF;
    hide *;
    BitsOf(mode);
  }

  lemma BitsOf(mode: int)
    requires mode == 0x8000 + 0x4000 + 0x1FF
    ensures mode / 0x8000 == 1 && mode / 0x2000 % 4 == 2
    ensures mode % 0x2000 == 0x100 + 0x80 + 0x40 + 0x20 + 0x10 + 8 + 4 + 2 + 1
  {
  }

  /** A number that was given to a plain file is still free on disk: only the subclasses set a mode. */
  lemma MarkedIffDirectory(g: Geometry, v: Volume, v': Volume, path: string, dir: int, slot: int, no: int,
                           isDirectory: bool)
    requires NewFile(g, v, v', path, dir, slot, no, isDirectory) && CacheSound(g, v.s)
    ensures IsFree(g, v'.s.w, no) <==> !isDirectory
  {
    FetchTakesFree(g, v.s);
    FreeMeansModeZero(g, v.s.w, no);
    FreeMeansModeZero(g, v'.s.w, no);
  }

  /** If no inode is free the new file keeps number 0. Its inode, which is empty, then replaces the
      root's exactly if the parent is another directory; if it is the root itself, the parent's is
      stored after it. */
  lemma RootSurvivesIff(g: Geometry, w: seq<Word>, file: Inode, dir: int, parent: Inode)
    requires Sized(g, w) && IsInode(g, 0) && IsInode(g, dir) && file.size == 0 && parent.size != 0
    ensures InodeAt(g, WithTwo(g, w, 0, file, dir, parent), 0) == if dir == 0 then parent else file
    ensures InodeAt(g, WithTwo(g, w, 0, file, dir, parent), 0).size != 0 <==> dir == 0
  {
    InodeRoundTrip(g, w, 0, file);
    InodeRoundTrip(g, WithInode(g, w, 0, file), dir, parent);
  }

  /** Between the two images inode `no` became an empty file without blocks, and no other changed. */
  ghost predicate RootMade(g: Geometry, w: seq<Word>, w': seq<Word>, no: int, isDirectory: bool) {
    && Sized(g, w) && Sized(g, w') && IsInode(g, no) && RootFields(InodeAt(g, w', no), isDirectory)
    && forall k {:trigger InodeAt(g, w', k)} :: IsInode(g, k) && k != no ==> InodeAt(g, w', k) == InodeAt(g, w, k)
  }

  predicate RootFields(x: Inode, isDirectory: bool) {
    x == Inode(if isDirectory then 0x8000 + 0x4000 + 0x1FF else 0, 1, 0, 0, 0, NO_BLOCKS, x.mtime, x.mtime)
  }

  ghost predicate RootReady(g: Geometry, v: Volume) {
    Settled(g, v) && v.s.sb.nfree >= 1
  }

  /** The volume without the addresses of one inode. */
  ghost function Cleared(v: Volume, no: int): Volume
    requires 0 <= no < |v.t|
  {
    v.(t := v.t[no := NO_BLOCKS])
  }

  /** Blocks that the inode held are lost. */
  lemma ClearedVolume(g: Geometry, v: Volume, no: int)
    requires Sound(g, v) && 0 <= no < |v.t|
    ensures Sound(g, Cleared(v, no))
    ensures Complete(g, Cleared(v, no)) <==> Complete(g, v) && v.t[no] == NO_BLOCKS
  {
    var v' := Cleared(v, no);
    forall x: Node | x.In(|v.t|)
      ensures Ptr(v.s.w, v'.t, x) == if x.f == no then 0 else Ptr(v.s.w, v.t, x)
    {
    }
    if v.t[no] == NO_BLOCKS {
      assert v'.t == v.t;
    } else {
      var i :| 0 <= i < 10 && v.t[no][i] != 0;
      assert v.owner[Ptr(v.s.w, v.t, Top(no, i))] == Top(no, i);
    }
  }

  /** The root inode is on disk; nothing else has changed but the superblock. */
  ghost predicate RootDone(g: Geometry, v: Volume, v': Volume, no: int, isDirectory: bool) {
    && 0 <= no < |v.t| && v' == Cleared(v, no).(s := v'.s) && Settled(g, v') && v'.s.sb.nfree >= 1
    && v.s.sb.ninode <= GROUP
    && (Complete(g, v') <==> Complete(g, v) && v.t[no] == NO_BLOCKS)
    && RootMade(g, v.s.w, v'.s.w, no, isDirectory) && g.Valid() && Fetch(g, v.s).1 == Number(no)
  }

  /** The volume `v1` has lost number `no` from its cache. */
  ghost predicate FetchedFor(g: Geometry, v: Volume, v1: Volume, no: int) {
    && Settled(g, v) && Sound(g, v1) && Later(g, v, v1) && CacheSound(g, v1.s) && v1 == v.(s := v1.s)
    && g.Valid() && IsInode(g, no) && v.s.sb.ninode <= GROUP && Fetch(g, v.s).1 == Number(no) && !Cached(v1.s, no)
    && AsComplete(g, v, v1)
  }

  lemma RootFetched(g: Geometry, v: Volume)
    requires RootReady(g, v)
    ensures var (s', r) := Fetch(g, v.s);
            if r.Number? then IsInode(g, r.no) && FetchedFor(g, v, v.(s := s'), r.no) else s' == v.s
  {
    LaterAtStart(g, v);
    FetchLater(g, v, v);
    FetchTakesFree(g, v.s);
  }

  /** Storing the root inode keeps the volume in order. */
  lemma RootStored(g: Geometry, v: Volume, v1: Volume, no: Word, x: Inode, isDirectory: bool)
    requires FetchedFor(g, v, v1, no) && RootFields(x, isDirectory)
    ensures var v' := Cleared(v1.(s := v1.s.(w := WithInode(g, v1.s.w, no, x))), no);
            && Sound(g, v') && RootDone(g, v, v', no, isDirectory) && InodeAt(g, v'.s.w, no) == x
  {
    var v2 := v1.(s := v1.s.(w := WithInode(g, v1.s.w, no, x)));
    OnlyRoot(g, v.s.w, v1.s.w, no, x, isDirectory);
    InodeRoundTrip(g, v1.s.w, no, x);
    hide WithInode, Fetch, InodeAt, SameData, Kept;
    StoreKeepsCache(g, v1.s, no, x);
    TablesUpdate(g, v1, v2.s);
    ClearedVolume(g, v2, no);
    hide Sound, CacheSound, Complete, RootFields;
    assert DiskTable(g, v2.s.w) == v.t[no := NO_BLOCKS];
  }

  lemma OnlyRoot(g: Geometry, w: seq<Word>, w1: seq<Word>, no: int, x: Inode, isDirectory: bool)
    requires Sized(g, w) && |w1| == |w| && SameTables(g, w, w1) && IsInode(g, no) && RootFields(x, isDirectory)
    ensures RootMade(g, w, WithInode(g, w1, no, x), no, isDirectory)
  {
    InodeRoundTrip(g, w1, no, x);
    hide WithInode, InodeAt;
    forall k | IsInode(g, k)
      ensures InodeAt(g, w1, k) == InodeAt(g, w, k)
    {
      SameInodes(g, w, w1, k);
    }
  }

  /** Lookups for a creation never report a deletion. */
  lemma {:induction false} NoDeletion(dirs: seq<Dir>, from: int, names: seq<string>)
    requires names != []
    ensures !Walk(dirs, from, names, CREATEFILE).Delete?
    decreases |names|
  {
    if 0 <= from < |dirs| && |names[0]| <= NAME_LENGTH && Sane(dirs[from]) && |names| > 1 {
      var d := dirs[from];
      var e := Match(d.entries, Padded(names[0]), 0);
      if e < |d.entries| {
        NoDeletion(dirs, d.entries[e].ino, names[1..]);
      }
    }
  }

  /** The last name of a path of single-byte characters. */
  lemma {:induction false} LastIsNarrow(path: string, i: nat)
    requires i <= |path| && |LastName(path, i)| <= NAME_LENGTH && forall k :: 0 <= k < |path| ==> path[k] as int < 256
    ensures Narrow(Padded(LastName(path, i)))
    decreases |path| - i
  {
    var next := NextName(path, i);
    if next < |path| {
      assert i < next;
      LastIsNarrow(path, next);
    }
  }

  /** An entry lies within one block. */
  lemma EntryFits(at: int)
    requires 0 <= at < MAX_BYTES && at % ENTRY_SIZE == 0
    ensures at % 512 + 32 <= BLOCK_SIZE
  {
  }

  lemma SlotInRange(d: Dir)
    requires RoomFor(d)
    ensures 0 <= SlotFor(d) < MAX_BYTES && SlotFor(d) % ENTRY_SIZE == 0
  {
    SlotIsFree(d);
  }

  /** A lookup that was answered without an error found where the file can be created. */
  lemma AnsweredCreate(g: Geometry, v: Volume, path: string, fallback: int, slot: int, dir: int, no: int, name: string,
                       file: Inode)
    requires Creatable(g, v, path) && Answered(g, v, path, CREATEFILE, fallback, Done, slot, dir, no, name, file)
    ensures OutcomeOf(g, v, path, CREATEFILE) == Create(dir, slot) && Fetch(g, v.s).1.Number?
            && no == Fetch(g, v.s).1.no && IsInode(g, no)
    ensures file == InodeAt(g, v.s.w, no) && Narrow(name) && 0 <= slot < MAX_BYTES && slot % ENTRY_SIZE == 0
    ensures var last := LastName(path, SkipSlashes(path, 0)); |last| <= NAME_LENGTH && name == Padded(last)
  {
    NoDeletion(Dirs(g, v), 0, Split(path));
    assert OutcomeOf(g, v, path, CREATEFILE) == Create(dir, slot);
    CreateMeansAbsent(Dirs(g, v), 0, Split(path), dir, slot);
    hide Walk, Match, SlotFor, NamesFrom, LastName, Sane;
    LastIsNarrow(path, SkipSlashes(path, 0));
    SlotInRange(DirOf(g, v, dir));
  }

  /** The status and the shared error code together tell whether the creation goes on. */
  lemma CodeTells(g: Geometry, v: Volume, path: string, fallback: int, status: Status, at: int, dir: int, no: int,
                  name: string, file: Inode, before: int)
    requires Searchable(g, v, path, CREATEFILE, 3)
             && Answered(g, v, path, CREATEFILE, fallback, status, at, dir, no, name, file)
    ensures !(status == NameTooLong || Code(status, before) != SUCCESS) <==>
            OutcomeOf(g, v, path, CREATEFILE).Create? && before == SUCCESS
    ensures status == Done <==> OutcomeOf(g, v, path, CREATEFILE).Create?
    ensures status == NameTooLong <==> OutcomeOf(g, v, path, CREATEFILE) == TooLong
    ensures Code(status, before) == CodeAfter(OutcomeOf(g, v, path, CREATEFILE), before)
  {
    NoDeletion(Dirs(g, v), 0, Split(path));
  }
}

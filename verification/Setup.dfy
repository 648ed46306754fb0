/** Building a disk, from the empty image to the last file. */
module Setup {
  import opened Words
  import opened DiskImage
  import opened SuperBlocks
  import opened FreeList
  import opened DataBlocks
  import opened BlockMap
  import opened Runs
  import opened Inodes
  import opened InodeBlocks
  import opened Paths
  import opened DirViews
  import opened Creation
  import opened Storing
  import opened Trees
  import opened Growth
  import opened BuiltDisks
  import opened Directories
  import opened Files

  class Run {
    const disk: Disk
    const superBlock: Superblock
    const inodeBlock: InodeBlock
    const dataBlock: DataBlock
    const errors: Errors

    ghost predicate Wired()
      reads disk`words, disk.data, superBlock`isize
    {
      && superBlock.disk == disk && inodeBlock.sup == superBlock && inodeBlock.disk == disk
      && dataBlock.sup == superBlock && dataBlock.disk == disk
      && superBlock.Valid() && superBlock.isize == superBlock.g.inodeBlocks
    }

    constructor (g: Geometry, now: Word)
      requires g.Valid()
      ensures Wired() && superBlock.g == g && Blank(g, disk.words) && errors.errorType == SUCCESS
      ensures fresh(disk) && fresh(disk.data) && fresh(superBlock) && fresh(dataBlock) && fresh(errors)
      ensures fresh(superBlock.free) && fresh(superBlock.inode) && fresh(superBlock.padding)
    {
      var d := new Disk(g.diskBlocks);
      var s := new Superblock(g, d, now);
      disk, superBlock := d, s;
      inodeBlock := new InodeBlock(s);
      dataBlock := new DataBlock(s);
      errors := new Errors();
    }

    ghost function State(): Store
      requires Wired()
      reads disk`words, disk.data, superBlock, superBlock.free, superBlock.inode, superBlock.padding
    {
      Store(disk.words, superBlock.Value())
    }

    /** Initialises both areas of a disk with a blank inode area. */
    method Format() returns (ghost s1: Store)
      requires Wired() && Blank(superBlock.g, disk.words)
      modifies superBlock, superBlock.free, superBlock.inode, superBlock.padding, disk, disk.data, dataBlock
      ensures Wired() && dataBlock.freeList == Interval(superBlock.g.DataStart(), superBlock.g.DataEnd())
      ensures Initialised(superBlock.g, old(disk.words), s1, State())
    {
      hide Superblock.Valid;
      inodeBlock.InitInodeManager();
      s1 := State();
      hide Blank, FreeState, SoundIfLarge, Fetch, InodeAt, Disk.Spelled;
      dataBlock.InitDataBlock();
      assert FreeState(superBlock.g, State(), dataBlock.freeList);
    }

    /** Formats the disk and creates the root directory. */
    method Begin(now: Word) returns (dire: Directory, ghost v: Volume)
      requires Wired() && Blank(superBlock.g, disk.words) && superBlock.g.InodeCount() >= GROUP
      modifies superBlock, superBlock.free, superBlock.inode, superBlock.padding, disk, disk.data, dataBlock
      ensures fresh(dire) && dire.sup == superBlock && dire.inodes == inodeBlock && dire.blocks == dataBlock
              && dire.disk == disk
      ensures dire.Shows(v) && Built(superBlock.g, v)
    {
      ghost var g, w := superBlock.g, disk.words;
      ghost var s1 := Format();
      ghost var s := State();
      InitialisedIsReady(g, w, s1, s);
      assert FreeState(g, s, dataBlock.freeList) && Sound(g, Fresh(g, s, g.InodeCount()));
      hide Initialised, Settled, RootDone, Built, Complete, FreeState, Sound, Fetch, InodeAt, Superblock.Value;
      dire := new Directory(inodeBlock, dataBlock);
      v := Fresh(g, s, g.InodeCount());
      dire.SoundBooks(v);
      var root := new File(dire, errors, true);
      var created;
      created, v := root.CreateRoot(now, v);
      RootIsBuilt(g, s, v);
    }

    /** The directory object of this run. */
    ghost predicate Uses(dire: Directory) {
      dire.sup == superBlock && dire.inodes == inodeBlock && dire.blocks == dataBlock && dire.disk == disk
    }

    /** Creates one directory. A failed lookup leaves its error code, and everything else as it was. */
    method CreateOne(dire: Directory, path: string, now: Word, ghost v: Volume, ghost n: nat)
      returns (created: bool, thrown: bool, ghost v': Volume, ghost r: Made)
      requires Uses(dire) && dire.Shows(v) && Healthy(superBlock.g, v, n) && n > 0 && Nameable(path)
      modifies errors, dataBlock, superBlock`nfree, superBlock.free, superBlock`ninode, superBlock.inode,
               superBlock.padding, disk, disk.data
      ensures dire.Shows(v') && Healthy(superBlock.g, v', n - 1) && AsComplete(superBlock.g, v, v')
      ensures Responds(superBlock.g, v, path, old(errors.errorType), created, thrown, errors.errorType)
      ensures Advanced(superBlock.g, v, v', path, created, r) && KeepsDirectories(superBlock.g, v, v')
    {
      ghost var g := superBlock.g;
      HealthyIsCreatable(g, v, n, path);
      NoDeletion(Dirs(g, v), 0, Split(path));
      r := Made(0, 0, Entry(0, ""), Entry(0, ""));
      assert dire.Wired();
      hide Healthy, Creatable, Directory.Shows, Directory.Ended, StoppedIn, Dropped, NewFile, Complete, RootedFrom,
           Nameable, Creates, Appended, OutcomeOf, Walk;
      var file := new File(dire, errors, true);
      created, thrown, v' := file.CreateFile(path, now, v);
      if created {
        NewDirectory(g, v, v', path, file.dirInodeNo, file.blankDirItem, file.fileInodeNo);
        r := AfterCreation(g, v, v', n, path, file.dirInodeNo, file.blankDirItem, file.fileInodeNo);
      } else {
        Declined(dire, file.dirInode, v, v', path, file.dirInodeNo, n);
      }
    }

    /** After a refusal everything is as it was. */
    lemma Declined(dire: Directory, istr: InodeStr, v: Volume, v': Volume, path: string, no: int, n: nat)
      requires dire.Ended(istr, v, v', no) && StoppedIn(dire.sup.g, v, v', path, no)
      requires Healthy(dire.sup.g, v, n) && n > 0 && |v'.free| >= |v.free|
      ensures dire.Shows(v') && Healthy(dire.sup.g, v', n - 1) && Dirs(dire.sup.g, v') == Dirs(dire.sup.g, v)
      ensures KeepsDirectories(dire.sup.g, v, v')
    {
      assert Refused(dire.sup.g, v, v', path, no);
      HealthyRefused(dire.sup.g, v, v', n, path, no);
      HealthyForLess(dire.sup.g, v', n, n - 1);
      SameDirectories(dire.sup.g, v, v');
    }

    /** In a sequence of creations that began in `v`, after `i` calls: the volume `v'` is ready for
        `n - i` more, and the chronicle tells what happened. */
    ghost predicate Underway(dire: Directory, v: Volume, v': Volume, n: nat, h: seq<seq<Dir>>, log: seq<Made>,
                             paths: seq<string>, i: nat, code: int, thrown: bool)
      reads errors, dire.blocks, dire.disk`words, dire.disk.data, dire.sup, dire.sup.free, dire.sup.inode,
          dire.sup.padding
    {
      && dire.Shows(v') && i <= n && Healthy(superBlock.g, v', n - i) && AsComplete(superBlock.g, v, v')
      && KeepsDirectories(superBlock.g, v, v')
      && Chronicle(superBlock.g, v, v', h, log, paths, i, code, errors.errorType, thrown)
    }

    lemma Departure(dire: Directory, v: Volume, n: nat, paths: seq<string>, code: int) returns (h: seq<seq<Dir>>)
      requires Uses(dire) && dire.Shows(v) && Healthy(superBlock.g, v, n) && code == errors.errorType
      ensures Underway(dire, v, v, n, h, [], paths, 0, code, false)
    {
      h := [Dirs(superBlock.g, v)];
      ChronicleStarts(superBlock.g, v, paths, code);
    }

    /** One call of a sequence of creations. */
    method CreateNext(dire: Directory, paths: seq<string>, i: nat, now: Word, ghost v: Volume, ghost v1: Volume,
                      ghost n: nat, ghost h: seq<seq<Dir>>, ghost log: seq<Made>, ghost code: int)
      returns (created: bool, thrown: bool, ghost v': Volume, ghost h': seq<seq<Dir>>, ghost log': seq<Made>)
      requires Uses(dire) && Underway(dire, v, v1, n, h, log, paths, i, code, false)
      requires AllNameable(paths) && i < |paths| <= n
      modifies errors, dataBlock, superBlock`nfree, superBlock.free, superBlock`ninode, superBlock.inode,
               superBlock.padding, disk, disk.data
      ensures Underway(dire, v, v', n, h', log', paths, i + 1, code, thrown)
      ensures |log'| == if created then |log| + 1 else |log|
    {
      ghost var r, before;
      before := errors.errorType;
      NextIsNameable(paths, i);
      assert dire.Shows(v1) && n - i - 1 == n - (i + 1);
      hide *;
      created, thrown, v', r := CreateOne(dire, paths[i], now, v1, n - i);
      h', log' := ChronicleStep(superBlock.g, v, v1, v', h, log, paths, i, code, before, created, thrown,
          errors.errorType, r);
      AsCompleteTrans(superBlock.g, v, v1, v');
      KeepsTrans(superBlock.g, v, v1, v');
    }

    /** Creates directories one after the other. Nobody looks at the error code, which is never reset;
        a name that is too long throws. */
    method CreateDirectories(dire: Directory, paths: seq<string>, now: Word, ghost v: Volume, ghost n: nat)
      returns (made: nat, done: nat, thrown: bool, ghost v': Volume, ghost h: seq<seq<Dir>>, ghost log: seq<Made>)
      requires Uses(dire) && dire.Shows(v) && Healthy(superBlock.g, v, n) && |paths| <= n && AllNameable(paths)
      modifies errors, dataBlock, superBlock`nfree, superBlock.free, superBlock`ninode, superBlock.inode,
               superBlock.padding, disk, disk.data
      ensures Underway(dire, v, v', n, h, log, paths, done, old(errors.errorType), thrown)
      ensures made == |log| && (!thrown ==> done == |paths|)
    {
      made, done, thrown, v', log := 0, 0, false, v, [];
      ghost var code := errors.errorType;
      h := Departure(dire, v, n, paths, code);
      hide *;
      while !thrown && done < |paths|
        invariant Underway(dire, v, v', n, h, log, paths, done, code, thrown) && made == |log| && done <= |paths|
      {
        var created;
        created, thrown, v', h, log := CreateNext(dire, paths, done, now, v, v', n, h, log, code);
        done := done + 1;
        if created {
          made := made + 1;
        }
      }
    }

    /** The whole construction, from the formatted disk to the last directory. */
    method Construct(paths: seq<string>, now: Word) returns (made: nat, ghost v: Volume, ghost log: seq<Made>)
      requires Wired() && Blank(superBlock.g, disk.words) && errors.errorType == SUCCESS
      requires superBlock.g.InodeCount() >= GROUP && |paths| < superBlock.g.InodeCount()
      requires 3 * |paths| <= superBlock.g.dataBlocks && |paths| <= MAX_ENTRIES
      requires AllNameable(paths)
      modifies errors, superBlock, superBlock.free, superBlock.inode, superBlock.padding, disk, disk.data, dataBlock
      ensures Wired() && Healthy(superBlock.g, v, 0) && Complete(superBlock.g, v) && v.s == State()
      ensures |log| == made <= |paths| && ExactTree(Dirs(superBlock.g, v), log, paths)
      ensures AdmitsUpTo(paths, made) && OnlyDirectories(superBlock.g, v.s.w)
    {
      var dire, done, thrown;
      ghost var v0, h;
      dire, v0 := Begin(now);
      BuiltIsHealthy(superBlock.g, v0, |paths|);
      BuiltIsMarked(superBlock.g, v0);
      made, done, thrown, v, h, log := CreateDirectories(dire, paths, now, v0, |paths|);
      hide Built, Chronicle, AllNameable, AdmitsUpTo, ExactTree, Healthy, Settled, AllTidy, Complete, Directory.Shows,
           Dirs;
      ConstructDone(superBlock.g, v0, v, h, log, paths, done, errors.errorType, thrown);
    }

    /** What the program does once its boot block is written: the root, four directories, and a file
        in one of them. */
    method ConstructDirectoryStruct(now: Word) returns (created: bool, ghost v: Volume)
      requires Wired() && Blank(superBlock.g, disk.words) && errors.errorType == SUCCESS
      requires superBlock.g.InodeCount() >= GROUP && superBlock.g.dataBlocks >= 15
      modifies errors, superBlock, superBlock.free, superBlock.inode, superBlock.padding, disk, disk.data, dataBlock
      ensures created && errors.errorType == SUCCESS && Wired() && v.s == State()
      ensures Settled(superBlock.g, v) && Complete(superBlock.g, v)
      ensures forall other: string {:trigger Resolve(Dirs(superBlock.g, v), other, DELETEFILE)} ::
                Resolve(Dirs(superBlock.g, v), other, DELETEFILE).Delete? <==>
                || SameNames(Split(other), ["dev"]) || SameNames(Split(other), ["home"])
                || SameNames(Split(other), ["usr"]) || SameNames(Split(other), ["etc"])
                || SameNames(Split(other), ["home", "test.txt"])
      ensures OnlyDirectories(superBlock.g, v.s.w) && IsPlain(superBlock.g, v, "/home/test.txt")
    {
      var dire, made, done, thrown;
      ghost var g, v0, v1, h, log;
      g := superBlock.g;
      dire, v0 := Begin(now);
      BuiltIsHealthy(g, v0, 5);
      BuiltIsMarked(g, v0);
      ProgramIsNameable();
      made, done, thrown, v1, h, log := CreateDirectories(dire, PROGRAM_DIRS, now, v0, 5);
      ProgramDirsMade(g, v0, v1, h, log, done, errors.errorType, thrown);
      created, v := CreateTestFile(dire, now, v1, h, log);
    }

    /** The file after the directories. */
    method CreateTestFile(dire: Directory, now: Word, ghost v: Volume, ghost h: seq<seq<Dir>>, ghost log: seq<Made>)
      returns (created: bool, ghost v': Volume)
      requires Uses(dire) && dire.Shows(v) && Healthy(superBlock.g, v, 1) && errors.errorType == SUCCESS
      requires Story(h, log, PROGRAM_DIRS) && |log| == 4 && Bare(h[0]) && h[4] == Dirs(superBlock.g, v)
      modifies errors, dataBlock, superBlock`nfree, superBlock.free, superBlock`ninode, superBlock.inode,
               superBlock.padding, disk, disk.data
      ensures created && errors.errorType == SUCCESS && dire.Shows(v') && AsComplete(superBlock.g, v, v')
      ensures Settled(superBlock.g, v') && OnlyProgramPaths(Dirs(superBlock.g, v'))
      ensures KeepsDirectories(superBlock.g, v, v') && IsPlain(superBlock.g, v', TEST_FILE)
    {
      ghost var g := superBlock.g;
      FileIsNext(g, v, h, log);
      assert dire.Wired();
      hide Healthy, Creatable, Directory.Shows, Directory.Ended, StoppedIn, Dropped, NewFile, Complete, RootedFrom,
           Story, Bare, OutcomeOf;
      var file := new File(dire, errors, false);
      var thrown;
      created, thrown, v' := file.CreateFile(TEST_FILE, now, v);
      FileMade(g, v, v', h, log, file.dirInodeNo, file.blankDirItem, file.fileInodeNo);
      TestFileIsPlain(g, v, v', file.dirInodeNo, file.blankDirItem, file.fileInodeNo);
      PlainKeepsDirectories(g, v, v', file.dirInodeNo, file.fileInodeNo);
    }
  }
}

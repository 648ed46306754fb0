/** What the file system looks like before the first file is created, and what sequences of
    creations leave on it. */
module BuiltDisks {
  import opened Words
  import opened DiskImage
  import opened SuperBlocks
  import opened FreeList
  import opened BlockMap
  import opened Runs
  import opened Inodes
  import opened Paths
  import opened DirViews
  import opened Creation
  import opened Storing
  import opened Trees
  import opened Growth

  /** The inode area holds zeros, whatever the boot block holds. */
  ghost predicate Blank(g: Geometry, w: seq<Word>) {
    Sized(g, w) && forall i :: 128 * g.InodeStart() <= i < 128 * g.DataStart() ==> w[i] == 0
  }

  lemma BlankInode(g: Geometry, w: seq<Word>, no: int)
    requires Blank(g, w) && IsInode(g, no)
    ensures InodeAt(g, w, no) == EmptyInode()
  {
    DecodedFields(g, w, no);
    SlotInArea(g, w, no);
    var a := SlotStart(g, no);
    assert w[a + 4..a + 14] == NO_BLOCKS;
  }

  /** Both managers have initialised a disk with a blank inode area: `s1` is the state after the
      inodes, `s` after the data blocks. */
  ghost predicate Initialised(g: Geometry, w: seq<Word>, s1: Store, s: Store) {
    && Blank(g, w) && |s1.w| == |w| && |s.w| == |w| && s1.sb.ninode == GROUP
    && (forall no {:trigger InodeAt(g, s1.w, no)} :: IsInode(g, no) ==>
         InodeAt(g, s1.w, no) == InodeAt(g, w, no).(mode := 0))
    && SoundIfLarge(g, s1) && Fetch(g, s1).1 == Number(0)
    && SameWords(s1.w, s.w, 128 * g.InodeStart(), 128 * g.DataStart())
    && s.sb.ninode == s1.sb.ninode && s.sb.inode == s1.sb.inode
    && s.sb.nfree >= 1 && FreeState(g, s, Interval(g.DataStart(), g.DataEnd()))
  }

  /** The volume is then in order, all its inodes are empty, and number 0 comes first. */
  lemma InitialisedIsReady(g: Geometry, w: seq<Word>, s1: Store, s: Store)
    requires Initialised(g, w, s1, s) && g.InodeCount() >= GROUP
    ensures var v := Fresh(g, s, g.InodeCount()); RootReady(g, v) && Complete(g, v) && Fetch(g, s).1 == Number(0)
    ensures forall no {:trigger InodeAt(g, s.w, no)} :: IsInode(g, no) ==> InodeAt(g, s.w, no) == EmptyInode()
  {
    var v := Fresh(g, s, g.InodeCount());
    FreshIsSound(g, s, g.InodeCount());
    CacheFrame(g, s1, s);
    FetchFrame(g, s1, s);
    hide CacheSound, Fetch, Sound, Complete, FreeState, InodeAt;
    forall no | IsInode(g, no)
      ensures InodeAt(g, s.w, no) == EmptyInode()
    {
      BlankInode(g, w, no);
      SameInodes(g, s1.w, s.w, no);
    }
    assert v.t == DiskTable(g, s.w);
  }

  /** The root directory exists, is empty and has no blocks; all other inodes are empty and free,
      and all data blocks are free. */
  ghost predicate Built(g: Geometry, v: Volume) {
    && Settled(g, v) && Complete(g, v) && v.s.sb.nfree >= 1 && v.free == Interval(g.DataStart(), g.DataEnd())
    && g.InodeCount() >= GROUP && RootFields(InodeAt(g, v.s.w, 0), true)
    && forall no {:trigger InodeAt(g, v.s.w, no)} :: IsInode(g, no) && no != 0 ==> InodeAt(g, v.s.w, no) == EmptyInode()
  }

  lemma RootIsBuilt(g: Geometry, s: Store, v: Volume)
    requires g.Valid() && RootReady(g, Fresh(g, s, g.InodeCount()))
             && RootDone(g, Fresh(g, s, g.InodeCount()), v, 0, true) && g.InodeCount() >= GROUP
    requires forall no {:trigger InodeAt(g, s.w, no)} :: IsInode(g, no) ==> InodeAt(g, s.w, no) == EmptyInode()
    ensures Built(g, v)
  {
    assert FreeState(g, v.s, v.free);
    FreshIsSound(g, v.s, g.InodeCount());
    assert v == Fresh(g, v.s, g.InodeCount());
  }

  /** On a disk as built, with three data blocks or more, every file with a proper name can be
      created in the root directory; it gets the first entry. */
  lemma FirstFile(g: Geometry, v: Volume, name: string)
    requires Built(g, v) && g.dataBlocks >= 3
    requires IsName(name) && |name| <= NAME_LENGTH && forall k :: 0 <= k < |name| ==> name[k] as int < 256
    ensures Creatable(g, v, [SLASH] + name) && OutcomeOf(g, v, [SLASH] + name, CREATEFILE) == Create(0, 0)
  {
    var path := [SLASH] + name;
    OneName(path, name);
    EmptyRoot(g, v, name);
    NextNumber(g, v);
    FreeMeansModeZero(g, v.s.w, 0);
  }

  /** A plain file `/a`, created first: the path leads to its inode, the number of which a later scan
      hands out again. */
  lemma PlainFileIsScanned(g: Geometry, v: Volume, v': Volume, no: int)
    requires Built(g, v) && g.dataBlocks >= 3 && NewFile(g, v, v', "/a", 0, 0, no, false)
    ensures Resolve(Dirs(g, v'), "/a", DELETEFILE) == Delete(0, 0, no)
    ensures no in FreeBelow(g, v'.s.w, g.InodeCount())
  {
    FirstFile(g, v, "a");
    assert [SLASH] + "a" == "/a";
    MarkedIffDirectory(g, v, v', "/a", 0, 0, no, false);
    FreeBelowHasAll(g, v'.s.w, g.InodeCount(), no);
    CreatedResolves(g, v, v', "/a", no);
  }

  /** The disk of `MachinePara` is large enough for any 6445 directories. */
  lemma MyDiskSuffices(n: nat)
    requires n <= 6445
    ensures MY_DISK.Valid() && MY_DISK.boot == 1 && MY_DISK.InodeStart() == 3 && MY_DISK.InodeCount() == 6576
    ensures MY_DISK.DataStart() == 825 && MY_DISK.DataEnd() == MY_DISK.diskBlocks == 20160 && GROUP <= 6576
    ensures n < MY_DISK.InodeCount() && 3 * n <= MY_DISK.dataBlocks && n <= MAX_ENTRIES
  {
  }

  lemma EmptyRoot(g: Geometry, v: Volume, name: string)
    requires Built(g, v) && |name| <= NAME_LENGTH
    ensures Walk(Dirs(g, v), 0, [name], CREATEFILE) == Create(0, 0) && WalkCost(Dirs(g, v), 0, [name]) == 0
    ensures RoomFor(DirOf(g, v, 0))
  {
    var d := DirOf(g, v, 0);
    assert Dirs(g, v)[0] == d && d.size == 0 && |d.entries| == 0 && d.holes == 0;
  }

  lemma NextNumber(g: Geometry, v: Volume)
    requires Built(g, v)
    ensures NumberReady(g, v)
  {
    FetchTakesFree(g, v.s);
    FreeMeansModeZero(g, v.s.w, 1);
    assert IsFree(g, v.s.w, 1);
    FreeMeansModeZero(g, v.s.w, 0);
  }

  /** The root is a directory, and no other inode is marked. */
  lemma BuiltIsMarked(g: Geometry, v: Volume)
    requires Built(g, v)
    ensures OnlyDirectories(g, v.s.w)
  {
    hide InodeAt;
    forall no | IsInode(g, no)
      ensures InodeAt(g, v.s.w, no).mode == 0 || InodeAt(g, v.s.w, no).mode == 0x8000 + 0x4000 + 0x1FF
    {
      assert no != 0 ==> InodeAt(g, v.s.w, no) == EmptyInode();
    }
  }

  /** All numbers but the root's are free. */
  lemma BuiltFreeNumbers(g: Geometry, v: Volume)
    requires Built(g, v)
    ensures |FreeNumbers(g, v.s.w)| == g.InodeCount() - 1
  {
    hide IsFree, InodeAt;
    forall k | IsInode(g, k)
      ensures IsFree(g, v.s.w, k) <==> k != 0
    {
      FreeMeansModeZero(g, v.s.w, k);
      assert k != 0 ==> InodeAt(g, v.s.w, k) == EmptyInode();
    }
    var numbers := Interval(1, g.InodeCount());
    DistinctSize(numbers);
    forall k: int
      ensures k in numbers <==> 1 <= k < g.InodeCount()
    {
      assert 1 <= k < g.InodeCount() ==> numbers[k - 1] == k;
    }
    assert FreeNumbers(g, v.s.w) == set k | k in numbers;
  }

  lemma BuiltIsTidy(g: Geometry, v: Volume, n: nat)
    requires Built(g, v) && n <= MAX_ENTRIES
    ensures AllTidy(g, v, n)
  {
    forall no | IsInode(g, no)
      ensures Tidy(g, v, no, n)
    {
      assert no != 0 ==> InodeAt(g, v.s.w, no) == EmptyInode();
      assert DirOf(g, v, no).size == 0 && |DirOf(g, v, no).entries| == 0;
    }
  }

  /** A disk as built is ready for as many creations as there are inodes left, if blocks suffice. */
  lemma BuiltIsHealthy(g: Geometry, v: Volume, n: nat)
    requires Built(g, v) && n < g.InodeCount() && 3 * n <= g.dataBlocks && n <= MAX_ENTRIES
    ensures Healthy(g, v, n)
  {
    BuiltFreeNumbers(g, v);
    BuiltIsTidy(g, v, n);
    FreeMeansModeZero(g, v.s.w, 0);
  }

  /** No directory has entries yet. */
  lemma BuiltIsBare(g: Geometry, v: Volume)
    requires Built(g, v)
    ensures Bare(Dirs(g, v))
  {
    forall no | IsInode(g, no)
      ensures Sane(Dirs(g, v)[no]) && Dirs(g, v)[no].entries == []
    {
      assert no != 0 ==> InodeAt(g, v.s.w, no) == EmptyInode();
      assert DirOf(g, v, no).size == 0;
    }
  }

  /** The tree consists of the paths that were made: each leads to the inode that its creation
      stored, and no others lead to any inode. */
  ghost predicate ExactTree(dirs: seq<Dir>, log: seq<Made>, paths: seq<string>) {
    && |log| <= |paths|
    && (forall i {:trigger log[i]} :: 0 <= i < |log| ==>
          Resolve(dirs, paths[i], DELETEFILE) == Delete(log[i].no, log[i].slot, log[i].entry.ino))
    && forall other: string {:trigger Resolve(dirs, other, DELETEFILE)} ::
         Resolve(dirs, other, DELETEFILE).Delete? <==> Among(Split(other), paths, |log|)
  }

  /** The paths before number `made` can be created one after the other, and the next one cannot. */
  ghost predicate AdmitsUpTo(paths: seq<string>, made: nat) {
    && made <= |paths| && (forall i :: 0 <= i < made ==> Admits(paths, i))
    && (made < |paths| ==> !Admits(paths, made))
  }

  ghost predicate AllNameable(paths: seq<string>) {
    forall i {:trigger paths[i]} :: 0 <= i < |paths| ==> Nameable(paths[i])
  }

  lemma NextIsNameable(paths: seq<string>, i: nat)
    requires AllNameable(paths) && i < |paths|
    ensures Nameable(paths[i])
  {
  }

  lemma TreeIsExact(g: Geometry, v: Volume, h: seq<seq<Dir>>, log: seq<Made>, paths: seq<string>)
    requires Built(g, v) && Story(h, log, paths) && h[0] == Dirs(g, v) && AllNameable(paths)
    ensures ExactTree(h[|log|], log, paths)
  {
    BuiltIsBare(g, v);
    hide Built, Story, Proper, Split, Dirs, Bare, Among;
    forall i | 0 <= i < |log|
      ensures Resolve(h[|log|], paths[i], DELETEFILE) == Delete(log[i].no, log[i].slot, log[i].entry.ino)
    {
      NextIsNameable(paths, i);
      StoryPath(h, log, paths, i);
    }
    forall other: string
      ensures Resolve(h[|log|], other, DELETEFILE).Delete? <==> Among(Split(other), paths, |log|)
    {
      FoundIffMade(h, log, paths, |log|, other);
    }
  }

  /** How far a sequence of creations on a disk as built comes depends on the paths only. */
  lemma MadeIsAdmitted(g: Geometry, v: Volume, v': Volume, h: seq<seq<Dir>>, log: seq<Made>, paths: seq<string>, i: nat,
                       now: int, thrown: bool)
    requires Built(g, v) && Chronicle(g, v, v', h, log, paths, i, SUCCESS, now, thrown)
    requires !thrown ==> i == |paths|
    ensures AdmitsUpTo(paths, |log|)
  {
    BuiltIsBare(g, v);
    forall k | 0 <= k < |log|
      ensures Admits(paths, k)
    {
      assert Appended(h[k], log[k], paths[k]);
      NextIff(h, log, paths, k);
    }
    if |log| < |paths| {
      NextIff(h, log, paths, |log|);
    }
  }

  /** What a sequence of creations leaves on a disk as built. */
  lemma ConstructDone(g: Geometry, v: Volume, v': Volume, h: seq<seq<Dir>>, log: seq<Made>, paths: seq<string>,
                      done: nat, now: int, thrown: bool)
    requires Built(g, v) && Chronicle(g, v, v', h, log, paths, done, SUCCESS, now, thrown) && AllNameable(paths)
    requires (!thrown ==> done == |paths|) && done <= |paths| && Healthy(g, v', |paths| - done)
    ensures Healthy(g, v', 0) && ExactTree(Dirs(g, v'), log, paths) && AdmitsUpTo(paths, |log|)
  {
    TreeIsExact(g, v, h, log, paths);
    MadeIsAdmitted(g, v, v', h, log, paths, done, now, thrown);
    HealthyForLess(g, v', |paths| - done, 0);
  }

  /** The shared error code stops more than it should: after `/x/y` has been refused, `/a` is not
      created, although the listings allow it. */
  lemma CodeSticks(g: Geometry, v: Volume, v': Volume, h: seq<seq<Dir>>, log: seq<Made>, now: int, thrown: bool)
    requires Built(g, v) && Chronicle(g, v, v', h, log, ["/x/y", "/a"], 2, SUCCESS, now, thrown)
    ensures log == [] && Dirs(g, v') == Dirs(g, v) && Resolve(Dirs(g, v'), "/a", CREATEFILE).Create?
  {
    MadeIsAdmitted(g, v, v', h, log, ["/x/y", "/a"], 2, now, thrown);
    TwoNames("/x/y", "x", "y");
    assert !Admits(["/x/y", "/a"], 0) && log == [];
    OneName("/a", "a");
    BuiltIsBare(g, v);
    NextIff(h, [], ["/a"], 0);
  }

  // ---------------------------------------------------------------- the program's own paths

  /** The directories that the program creates, and the plain file after them. */
  const PROGRAM_DIRS := ["/dev", "/home", "/usr", "/etc"]
  const TEST_FILE := "/home/test.txt"

  lemma ProgramNames()
    ensures Split("/dev") == ["dev"] && Split("/home") == ["home"]
    ensures Split("/usr") == ["usr"] && Split("/etc") == ["etc"]
  {
    OneName("/dev", "dev");
    OneName("/home", "home");
    OneName("/usr", "usr");
    OneName("/etc", "etc");
  }

  /** Paths of one name each, which begin with different characters, can be created in any order. */
  lemma AdmitsInRoot(paths: seq<string>, names: seq<string>, i: nat)
    requires |names| == |paths| && i < |paths|
    requires forall j {:trigger names[j]} :: 0 <= j < |names| ==>
               Split(paths[j]) == [names[j]] && 0 < |names[j]| <= NAME_LENGTH
    requires forall j {:trigger names[j]} :: 0 <= j < i ==> names[j][0] != names[i][0]
    ensures Admits(paths, i)
  {
    assert Padded(names[i])[0] == names[i][0];
    forall j | 0 <= j < i
      ensures !SameNames(Split(paths[i]), Split(paths[j]))
    {
      assert Padded(names[j])[0] == names[j][0];
      assert [names[i]][0] == names[i] && [names[j]][0] == names[j];
    }
  }

  lemma ProgramIsAdmitted(i: nat)
    requires i < 4
    ensures Admits(PROGRAM_DIRS, i) && Nameable(PROGRAM_DIRS[i])
  {
    ProgramNames();
    hide Split, Among, Admits, SameNames;
    AdmitsInRoot(PROGRAM_DIRS, ["dev", "home", "usr", "etc"], i);
  }

  /** A path of two names can be created after paths of one name that contain its first one. */
  lemma AdmitsBelow(paths: seq<string>, path: string, j: nat, parent: string, name: string)
    requires j < |paths| && Split(path) == [parent, name] && Split(paths[j]) == [parent]
    requires |parent| <= NAME_LENGTH && |name| <= NAME_LENGTH
    requires forall k {:trigger paths[k]} :: 0 <= k < |paths| ==> |Split(paths[k])| == 1
    ensures Admits(paths + [path], |paths|)
  {
    var all := paths + [path];
    assert Front([parent, name]) == [parent] && SameNames([parent], Split(all[j]));
    assert forall k {:trigger all[k]} :: 0 <= k < |paths| ==> all[k] == paths[k];
  }

  lemma ProgramIsNameable()
    ensures AllNameable(PROGRAM_DIRS)
  {
    forall i | 0 <= i < 4
      ensures Nameable(PROGRAM_DIRS[i])
    {
      ProgramIsAdmitted(i);
    }
  }

  lemma TestFileNames()
    ensures Split(TEST_FILE) == ["home", "test.txt"]
  {
    TwoNames(TEST_FILE, "home", "test.txt");
  }

  lemma TestFileIsNarrow()
    ensures forall k :: 0 <= k < |TEST_FILE| ==> 0 < TEST_FILE[k] as int < 256
  {
  }

  lemma FileIsAdmitted()
    ensures |PROGRAM_DIRS| == 4 && Admits(PROGRAM_DIRS + [TEST_FILE], 4)
  {
    TestFileNames();
    ProgramNames();
    hide Split, Admits;
    AdmitsBelow(PROGRAM_DIRS, TEST_FILE, 1, "home", "test.txt");
  }

  /** All four directories are made, and no error has been noted. */
  lemma ProgramDirsMade(g: Geometry, v: Volume, v': Volume, h: seq<seq<Dir>>, log: seq<Made>, done: nat, now: int,
                        thrown: bool)
    requires Built(g, v) && Chronicle(g, v, v', h, log, PROGRAM_DIRS, done, SUCCESS, now, thrown)
    requires done <= 4 && (!thrown ==> done == 4)
    ensures |log| == 4 && done == 4 && !thrown && now == SUCCESS && |h| == 5
    ensures Story(h, log, PROGRAM_DIRS) && Bare(h[0]) && Sized(g, v'.s.w) && |v'.t| == g.InodeCount()
            && h[4] == Dirs(g, v')
  {
    BuiltIsBare(g, v);
    MadeIsAdmitted(g, v, v', h, log, PROGRAM_DIRS, done, now, thrown);
    hide Admits, Built, Bare, Story, Dirs;
    if |log| < 4 {
      ProgramIsAdmitted(|log|);
    }
  }

  /** The file comes next. */
  lemma FileIsNext(g: Geometry, v: Volume, h: seq<seq<Dir>>, log: seq<Made>)
    requires Healthy(g, v, 1) && Story(h, log, PROGRAM_DIRS) && |log| == 4 && Bare(h[0]) && h[4] == Dirs(g, v)
    ensures Creatable(g, v, TEST_FILE) && OutcomeOf(g, v, TEST_FILE, CREATEFILE).Create?
    ensures Spare(g, v, TEST_FILE) == |v.free| && RootedFrom(g, v, TEST_FILE, 0, SkipSlashes(TEST_FILE, 0))
  {
    FileIsAdmitted();
    TestFileIsNarrow();
    hide TEST_FILE, PROGRAM_DIRS, Admits, Bare, Story, Split, Walk;
    HealthyIsCreatable(g, v, 1, TEST_FILE);
    hide Healthy, Dirs, Creatable;
    StoryOfMore(h, log, PROGRAM_DIRS, [TEST_FILE]);
    NextIff(h, log, PROGRAM_DIRS + [TEST_FILE], 4);
  }

  /** With the file just the five paths lead to inodes. */
  lemma FileMade(g: Geometry, v: Volume, v': Volume, h: seq<seq<Dir>>, log: seq<Made>, dir: int, slot: int, no: int)
    requires Healthy(g, v, 1) && Creatable(g, v, TEST_FILE) && Story(h, log, PROGRAM_DIRS) && |log| == 4
    requires Bare(h[0]) && h[4] == Dirs(g, v) && OutcomeOf(g, v, TEST_FILE, CREATEFILE) == Create(dir, slot)
    requires NewFile(g, v, v', TEST_FILE, dir, slot, no, false)
    ensures Sized(g, v'.s.w) && |v'.t| == g.InodeCount() && OnlyProgramPaths(Dirs(g, v'))
    ensures Resolve(Dirs(g, v'), TEST_FILE, DELETEFILE) == Delete(dir, slot, no)
  {
    TestFileIsNarrow();
    hide TEST_FILE, PROGRAM_DIRS, Story, Bare, Among, Split;
    var r := OneMore(g, v, v', 1, TEST_FILE, dir, slot, no, false);
    hide Healthy, Creatable, NewFile, Creates, Appended, Dirs;
    FiveMade(h, log, Dirs(g, v'), r);
    TestFileResolves(g, v, v', dir, slot, no);
  }

  lemma TestFileResolves(g: Geometry, v: Volume, v': Volume, dir: int, slot: int, no: int)
    requires Creatable(g, v, TEST_FILE) && OutcomeOf(g, v, TEST_FILE, CREATEFILE) == Create(dir, slot)
    requires NewFile(g, v, v', TEST_FILE, dir, slot, no, false)
    ensures Sized(g, v'.s.w) && |v'.t| == g.InodeCount()
    ensures Resolve(Dirs(g, v'), TEST_FILE, DELETEFILE) == Delete(dir, slot, no)
  {
    TestFileIsNarrow();
    hide TEST_FILE;
    CreatedResolves(g, v, v', TEST_FILE, no);
  }

  /** The path leads to an inode that is not marked. */
  ghost predicate IsPlain(g: Geometry, v: Volume, path: string) {
    && Sized(g, v.s.w) && |v.t| == g.InodeCount() && Resolve(Dirs(g, v), path, DELETEFILE).Delete?
    && var no := Resolve(Dirs(g, v), path, DELETEFILE).no; IsInode(g, no) && InodeAt(g, v.s.w, no).mode == 0
  }

  /** The file is not marked: its inode has mode 0. */
  lemma TestFileIsPlain(g: Geometry, v: Volume, v': Volume, dir: int, slot: int, no: int)
    requires NewFile(g, v, v', TEST_FILE, dir, slot, no, false) && CacheSound(g, v.s)
    ensures InodeAt(g, v'.s.w, no).mode == 0 && TwoChanged(g, v.s.w, v'.s.w, dir, no)
  {
    FetchTakesFree(g, v.s);
    FreeMeansModeZero(g, v.s.w, no);
  }

  lemma PlainKeepsDirectories(g: Geometry, v: Volume, v': Volume, dir: int, no: int)
    requires TwoChanged(g, v.s.w, v'.s.w, dir, no) && InodeAt(g, v'.s.w, no).mode == 0
    ensures KeepsDirectories(g, v, v')
  {
    hide InodeAt;
  }

  lemma FiveMade(h: seq<seq<Dir>>, log: seq<Made>, dirs: seq<Dir>, r: Made)
    requires Story(h, log, PROGRAM_DIRS) && |log| == 4 && Bare(h[0])
    requires Creates(h[4], dirs, r) && Appended(h[4], r, TEST_FILE)
    ensures OnlyProgramPaths(dirs)
  {
    assert |PROGRAM_DIRS| == 4;
    hide TEST_FILE, PROGRAM_DIRS, Bare, Among, Split, Creates, Appended, SameNames;
    StoryOfMore(h, log, PROGRAM_DIRS, [TEST_FILE]);
    StoryGoesOn(h, log, PROGRAM_DIRS + [TEST_FILE], dirs, r);
    forall other: string
      ensures Resolve(dirs, other, DELETEFILE).Delete? <==> IsProgramPath(Split(other))
    {
      FoundIffMade(h + [dirs], log + [r], PROGRAM_DIRS + [TEST_FILE], 5, other);
      AmongFive(Split(other));
    }
  }

  lemma AmongFive(names: seq<string>)
    ensures Among(names, PROGRAM_DIRS + [TEST_FILE], 5) <==> IsProgramPath(names)
  {
    var paths := PROGRAM_DIRS + [TEST_FILE];
    ProgramNames();
    TestFileNames();
    assert paths[0] == "/dev" && paths[1] == "/home" && paths[2] == "/usr" && paths[3] == "/etc";
    assert |paths| == 5 && paths[4] == TEST_FILE;
    hide TEST_FILE, PROGRAM_DIRS, Split, SameNames;
    AmongNext(names, paths, 0);
    AmongNext(names, paths, 1);
    AmongNext(names, paths, 2);
    AmongNext(names, paths, 3);
    AmongNext(names, paths, 4);
  }

  /** The names of `/dev`, `/home`, `/usr`, `/etc` or `/home/test.txt`. */
  ghost predicate IsProgramPath(names: seq<string>) {
    || SameNames(names, ["dev"]) || SameNames(names, ["home"]) || SameNames(names, ["usr"]) || SameNames(names, ["etc"])
    || SameNames(names, ["home", "test.txt"])
  }

  /** A path leads to an inode exactly if it is one of those that the program creates. */
  ghost predicate OnlyProgramPaths(dirs: seq<Dir>) {
    forall other: string {:trigger Resolve(dirs, other, DELETEFILE)} ::
      Resolve(dirs, other, DELETEFILE).Delete? <==> IsProgramPath(Split(other))
  }
}

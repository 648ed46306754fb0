/** Creating files and directories. */
module Files {
  import opened Words
  import opened DiskImage
  import opened SuperBlocks
  import opened FreeList
  import opened BlockMap
  import opened BlockMapLaws
  import opened Inodes
  import opened InodeBlocks
  import opened Paths
  import opened DirViews
  import opened FileBytes
  import opened Directories
  import opened Storing

  /** The error code that all files share; nothing ever resets it. */
  class Errors {
    var errorType: int

    constructor ()
      ensures errorType == SUCCESS == 0
    {
      errorType := SUCCESS;
    }

    /** The code that a lookup leaves. */
    method Note(status: Status)
      modifies this
      ensures errorType == Code(status, old(errorType))
      ensures errorType == if status == SearchDir then 4 else if status == SameFileName then 5 else old(errorType)
    {
      if status == SearchDir {
        errorType := SEARCHDIR;
      } else if status == SameFileName {
        errorType := SAMEFILENAME;
      }
    }
  }

  class File {
    const dire: Directory
    const inodes: InodeBlock
    const disk: Disk
    const errors: Errors
    const dirInode: InodeStr
    const fileInode: InodeStr
    const fileName: array<char>
    /** A `DirFile`; the base class is a plain file and leaves the mode alone. */
    const isDirectory: bool
    var dirInodeNo: int
    var fileInodeNo: int
    var blankDirItem: int

    ghost predicate Wired() {
      && inodes == dire.inodes && disk == dire.disk && fileName.Length == NAME_LENGTH
      && dire.Apart(dirInode) && dire.Apart(fileInode) && dirInode != fileInode && dirInode.addr != fileInode.addr
    }

    constructor (dire: Directory, errors: Errors, isDirectory: bool)
      requires dire.Wired()
      ensures Wired() && this.dire == dire && this.errors == errors && this.isDirectory == isDirectory
              && fileInodeNo == 0
      ensures fileInode.Value() == EmptyInode() && dirInode.Value() == EmptyInode()
      ensures fresh(dirInode) && fresh(dirInode.addr) && fresh(fileInode) && fresh(fileInode.addr) && fresh(fileName)
    {
      this.dire, inodes, disk, this.errors, this.isDirectory := dire, dire.inodes, dire.disk, errors, isDirectory;
      dirInode := new InodeStr();
      fileInode := new InodeStr();
      fileName := new char[28](_ => 0 as char);
      dirInodeNo, fileInodeNo, blankDirItem := 0, 0, 0;
    }

    /** The block for a position of a file. */
    method Locate(n: nat, dinode: InodeStr, ghost v: Volume, ghost f: int) returns (b: Word, ghost v': Volume)
      requires Wired() && dire.Shows(v) && dire.Apart(dinode) && 0 <= f < |v.t| && v.t[f] == dinode.addr[..]
      requires n < MAX_BLOCKS && Need(v, f, n) <= |v.free|
      modifies dinode.addr, dire.blocks, dire.sup`nfree, dire.sup.free, dire.sup.padding, disk, disk.data
      ensures dire.Shows(v') && v'.t == v.t[f := dinode.addr[..]]
      ensures LookedUp(dire.sup.g, v, v', f, n) && b == Block(v', f, n) && dire.sup.g.InData(b)
    {
      assert Sound(dire.sup.g, v);
      b, v' := dire.BMap(dinode, n, v, f);
      hide Sound, Walked, BlockMap.BMap, Block, Need, LeafOf;
      WalkedBlock(dire.sup.g, v, v', f, n, b);
    }

    /** Writes bytes into a block; the books follow. */
    method PutBytes(cin: array<Byte>, count: nat, b: Word, off: nat)
      requires Wired() && dire.Wired() && dire.sup.g.InData(b) && count <= cin.Length && off + count <= BLOCK_SIZE
               && cin != disk.data
      modifies disk, disk.data
      ensures dire.Wired() && PutAt(old(disk.words), disk.words, b, off, cin[..count])
      ensures dire.State() == old(dire.State()).(w := disk.words)
    {
      hide Disk.Spelled, Overwritten;
      disk.Seek(512 * b + off);
      disk.WriteBytes(cin, count);
    }

    /** Writes bytes at a position of a file, inside one of its blocks. */
    method WriteStream(cin: array<Byte>, itemNum: int, count: nat, dinode: InodeStr, ghost v: Volume, ghost f: int)
      returns (ghost v': Volume)
      requires Wired() && dire.Shows(v) && dire.Apart(dinode) && 0 <= f < |v.t| && v.t[f] == dinode.addr[..]
      requires 0 <= itemNum < MAX_BYTES && count <= cin.Length && itemNum % 512 + count <= BLOCK_SIZE
               && cin != disk.data
      requires Need(v, f, itemNum / 512) <= |v.free|
      modifies dinode.addr, dire.blocks, dire.sup`nfree, dire.sup.free, dire.sup.padding, disk, disk.data
      ensures dire.Shows(v') && v'.t == v.t[f := dinode.addr[..]]
      ensures Streamed(dire.sup.g, v, v', f, itemNum, cin[..count])
    {
      ghost var bytes, v1 := cin[..count], v;
      var pos;
      pos, v1 := Locate(itemNum / 512, dinode, v, f);
      assert cin[..count] == bytes;
      assert dire.Wired() && v1.s == dire.State() && v1.free == dire.blocks.freeList;
      hide LookedUp, Need, Block, WroteBytes, SameTables, Overwritten, Sound, Disk.Valid;
      PutBytes(cin, count, pos, itemNum % 512);
      v' := v1.(s := v1.s.(w := disk.words));
      StreamWritten(dire.sup.g, v, v1, disk.words, f, itemNum, bytes);
      dire.SoundBooks(v');
    }

    /** Writes the new entry into the parent directory. */
    method WriteDirItem(ghost v: Volume) returns (ghost v': Volume)
      requires Wired() && dire.Shows(v) && 0 <= dirInodeNo < |v.t| && v.t[dirInodeNo] == dirInode.addr[..]
      requires IsInode(dire.sup.g, fileInodeNo) && Narrow(fileName[..]) && |v.free| >= 3
      requires 0 <= blankDirItem < MAX_BYTES && blankDirItem % ENTRY_SIZE == 0
      modifies dirInode.addr, dire.blocks, dire.sup`nfree, dire.sup.free, dire.sup.padding, disk, disk.data
      ensures dire.Shows(v') && v'.t == v.t[dirInodeNo := dirInode.addr[..]]
      ensures Streamed(dire.sup.g, v, v', dirInodeNo, blankDirItem, Record(fileInodeNo, fileName[..]))
    {
      var cin := MakeRecord();
      NeedAtMostThree(v, dirInodeNo, blankDirItem / 512);
      EntryFits(blankDirItem);
      hide Record, Need, Narrow, Streamed;
      assert cin[..32] == cin[..];
      v' := WriteStream(cin, blankDirItem, 32, dirInode, v, dirInodeNo);
    }

    /** Number and name of the new file in the form of a directory entry. */
    method MakeRecord() returns (cin: array<Byte>)
      requires IsInode(dire.sup.g, fileInodeNo) && Narrow(fileName[..]) && dire.sup.g.Valid()
      ensures fresh(cin) && cin[..] == Record(fileInodeNo, fileName[..])
    {
      ghost var record := Record(fileInodeNo, fileName[..]);
      cin := new Byte[32](_ => 0);
      for i := 0 to 4
        invariant forall k :: 0 <= k < i ==> cin[k] == record[k]
      {
        cin[i] := ByteOf(fileInodeNo, i);
      }
      for i := 0 to 28
        invariant forall k :: 0 <= k < 4 + i ==> cin[k] == record[k]
      {
        assert fileName[..][i] == fileName[i];
        cin[i + 4] := fileName[i] as int;
      }
    }

    /** What `SetCommonFileInode` of the class of this file sets. */
    method SetCommonFileInode(now: Word)
      requires Wired()
      modifies fileInode
      ensures ghost var x := old(fileInode.Value());
              fileInode.Value() == x.(ilink := 1, gid := 0, uid := 0, atime := now, mtime := now, size := 0,
                                      mode := if isDirectory then 0x8000 + 0x4000 + 0x1FF else x.mode)
    {
      fileInode.ilink, fileInode.gid, fileInode.uid := 1, 0, 0;
      fileInode.atime, fileInode.mtime, fileInode.size := now, now, 0;
      if isDirectory {
        fileInode.mode := DIRECTORY_MODE;
      }
    }

    /** The parent grows by one entry, even if a free entry was used. */
    method UpdateFatherDirInode(now: Word)
      requires Wired()
      modifies dirInode
      ensures ghost var x := old(dirInode.Value());
              dirInode.Value() == x.(size := Wrap(x.size + 32), atime := now, mtime := now)
    {
      dirInode.size := Wrap(dirInode.size + 32);
      dirInode.atime, dirInode.mtime := now, now;
    }

    /** Stores the inode of the new file and that of its parent. */
    method StoreInodes(now: Word)
      requires Wired() && dire.Wired() && IsInode(dire.sup.g, fileInodeNo) && IsInode(dire.sup.g, dirInodeNo)
      modifies fileInode, dirInode, disk, disk.data
      ensures dire.Wired() && dire.State() == old(dire.State()).(w := disk.words)
      ensures disk.words ==
              WithTwo(dire.sup.g, old(disk.words), fileInodeNo, fileInode.Value(), dirInodeNo, dirInode.Value())
      ensures fileInode.Value() == FileAfter(old(fileInode.Value()), isDirectory, now)
      ensures dirInode.Value() == ParentAfter(old(dirInode.Value()), old(dirInode.addr[..]), now)
    {
      hide Wrap, WithInode, Disk.Spelled;
      SetCommonFileInode(now);
      inodes.UpdateInodeToDisk(fileInode, fileInodeNo);
      UpdateFatherDirInode(now);
      inodes.UpdateInodeToDisk(dirInode, dirInodeNo);
    }

    /** Keeps the results of a lookup. */
    method Settle(at: int, dirNo: int, fileNo: int, status: Status)
      modifies `blankDirItem, `dirInodeNo, `fileInodeNo, errors
      ensures blankDirItem == at && dirInodeNo == dirNo && fileInodeNo == fileNo
              && errors.errorType == Code(status, old(errors.errorType))
    {
      blankDirItem, dirInodeNo, fileInodeNo := at, dirNo, fileNo;
      errors.Note(status);
    }

    /** Looks the path up; errors are left in the shared error code. */
    method SearchFatherDir(path: string, ghost v: Volume) returns (status: Status, ghost v': Volume)
      requires Wired() && dire.Shows(v) && Searchable(dire.sup.g, v, path, CREATEFILE, 3)
               && IsInode(dire.sup.g, fileInodeNo)
      modifies this, errors, dirInode, dirInode.addr, fileInode, fileInode.addr, fileName
      modifies dire.blocks, dire.sup`nfree, dire.sup.free, dire.sup`ninode, dire.sup.inode, dire.sup.padding, disk,
               disk.data
      ensures LookupEnded(v, v') && (status == Done ==> Unlisted(dire.sup.g, v, v'.s))
      ensures |v'.free| >= Spare(dire.sup.g, v, path)
      ensures Whole(dire.sup.g, v, v', path) && Dropped(dire.sup.g, v, v', path)
      ensures StoppedIn(dire.sup.g, v, v', path, dirInodeNo)
      ensures Answered(dire.sup.g, v, path, CREATEFILE, old(fileInodeNo), status, blankDirItem, dirInodeNo, fileInodeNo,
                       fileName[..], fileInode.Value())
      ensures errors.errorType == Code(status, old(errors.errorType))
    {
      assert Resolvable(dire.sup.g, v, path, CREATEFILE);
      var at, dirNo, fileNo;
      ghost var spare := Spare(dire.sup.g, v, path);
      at, dirNo, fileNo, status, v' :=
          dire.NameI(path, dirInode, fileInode, fileName, fileInodeNo, CREATEFILE, v, spare);
      hide *;
      Settle(at, dirNo, fileNo, status);
    }

    /** The lookup has ended in the parent directory, with blocks to spare. */
    ghost predicate LookupEnded(v: Volume, v1: Volume)
      reads this, dirInode, dirInode.addr, dire.blocks, disk`words, disk.data, dire.sup, dire.sup.free, dire.sup.inode,
          dire.sup.padding
      reads dire.disk`words, dire.disk.data
    {
      dire.Ended(dirInode, v, v1, dirInodeNo) && |v1.free| >= 3
    }

    lemma SearchedShows(v: Volume, v1: Volume)
      requires LookupEnded(v, v1)
      ensures dire.Shows(v1) && dire.Ended(dirInode, v, v1, dirInodeNo)
    {
    }

    lemma SearchedFacts(v: Volume, v1: Volume)
      requires Wired() && LookupEnded(v, v1)
      ensures dire.Shows(v1) && LookupDone(dire.sup.g, v, v1, dirInodeNo, dirInode.Value())
      ensures |v1.t| == |v.t| && 0 <= dirInodeNo < |v1.t| && v1.t[dirInodeNo] == dirInode.addr[..]
    {
    }

    /** The entry is written; `before` is the parent after it. */
    method WriteEntry(ghost v: Volume, ghost v1: Volume) returns (ghost before: Inode, ghost v2: Volume)
      requires Wired() && LookupEnded(v, v1) && IsInode(dire.sup.g, fileInodeNo) && Narrow(fileName[..])
               && !Cached(v1.s, fileInodeNo)
      requires 0 <= blankDirItem < MAX_BYTES && blankDirItem % ENTRY_SIZE == 0
      modifies dirInode.addr, dire.blocks, dire.sup`nfree, dire.sup.free, dire.sup.padding, disk, disk.data
      ensures dire.Wired() && v2.s == dire.State() && v2.free == dire.blocks.freeList && IsInode(dire.sup.g, dirInodeNo)
      ensures RecordDone(dire.sup.g, v, v2, dirInodeNo, blankDirItem, before, fileInodeNo, fileName[..])
      ensures AsComplete(dire.sup.g, v1, v2) && |v2.free| >= |v1.free| - 3
      ensures before == dirInode.Value() == old(dirInode.Value()).(addr := before.addr)
      ensures before.addr == dirInode.addr[..] && fileInode.Value() == old(fileInode.Value())
    {
      SearchedFacts(v, v1);
      ghost var parent := dirInode.Value();
      v2 := WriteDirItem(v1);
      RecordFollows(dire.sup.g, v, v1, v2, dirInodeNo, blankDirItem, parent, dirInode.addr[..], fileInodeNo,
          fileName[..]);
      before := parent.(addr := dirInode.addr[..]);
    }

    /** The entry, the inode of the new file and that of its parent are written. */
    method WriteAll(now: Word, ghost v: Volume, ghost v1: Volume)
      returns (ghost before: Inode, ghost v2: Volume, ghost v': Volume)
      requires Wired() && LookupEnded(v, v1) && IsInode(dire.sup.g, fileInodeNo) && Narrow(fileName[..])
               && !Cached(v1.s, fileInodeNo)
      requires 0 <= blankDirItem < MAX_BYTES && blankDirItem % ENTRY_SIZE == 0
      modifies dirInode, dirInode.addr, fileInode, dire.blocks, dire.sup`nfree, dire.sup.free, dire.sup.padding, disk,
               disk.data
      ensures dire.Wired() && v'.s == dire.State() && v'.free == dire.blocks.freeList
      ensures RecordDone(dire.sup.g, v, v2, dirInodeNo, blankDirItem, before, fileInodeNo, fileName[..])
      ensures AsComplete(dire.sup.g, v1, v2) && |v'.free| >= |v1.free| - 3
      ensures v' == Completed(dire.sup.g, v2, fileInodeNo, fileInode.Value(), dirInodeNo, dirInode.Value())
      ensures fileInode.Value() == FileAfter(old(fileInode.Value()), isDirectory, now)
      ensures dirInode.Value() == ParentAfter(old(dirInode.Value()), before.addr, now)
    {
      ghost var g, no, dir, parent, name := dire.sup.g, fileInodeNo, dirInodeNo, dirInode.Value(), fileName[..];
      hide *;
      before, v2 := WriteEntry(v, v1);
      assert RecordDone(g, v, v2, dir, blankDirItem, before, no, name) && fileName[..] == name;
      StoreInodes(now);
      AddressesAside(parent, before, now);
      v' := v2.(s := dire.State());
    }

    /** Writes the new file into the directory that the lookup found. */
    method WriteNew(path: string, now: Word, ghost v: Volume, ghost v1: Volume, ghost fallback: int)
      returns (ghost v': Volume)
      requires Wired() && Creatable(dire.sup.g, v, path) && LookupEnded(v, v1) && Unlisted(dire.sup.g, v, v1.s)
      requires Answered(dire.sup.g, v, path, CREATEFILE, fallback, Done, blankDirItem, dirInodeNo, fileInodeNo,
               fileName[..], fileInode.Value())
      modifies dirInode, dirInode.addr, fileInode, dire.blocks, dire.sup`nfree, dire.sup.free, dire.sup.padding, disk,
               disk.data
      ensures dire.Shows(v') && OutcomeOf(dire.sup.g, v, path, CREATEFILE) == Create(dirInodeNo, blankDirItem)
      ensures NewFile(dire.sup.g, v, v', path, dirInodeNo, blankDirItem, fileInodeNo, isDirectory)
      ensures AsComplete(dire.sup.g, v1, v') && |v'.free| >= |v1.free| - 3 && errors.errorType == old(errors.errorType)
      ensures Stamped(dire.sup.g, v'.s.w, fileInodeNo, now) && Stamped(dire.sup.g, v'.s.w, dirInodeNo, now)
    {
      NewFacts(path, v, v1, fallback);
      assert errors as object != dirInode && errors as object != fileInode && errors as object != dire.blocks;
      hide *;
      v' := PutNew(path, now, v, v1);
      assert errors.errorType == old(errors.errorType);
    }

    lemma NewFacts(path: string, v: Volume, v1: Volume, fallback: int)
      requires Wired() && Creatable(dire.sup.g, v, path) && LookupEnded(v, v1) && Unlisted(dire.sup.g, v, v1.s)
      requires Answered(dire.sup.g, v, path, CREATEFILE, fallback, Done, blankDirItem, dirInodeNo, fileInodeNo,
               fileName[..], fileInode.Value())
      ensures Narrow(fileName[..]) && !Cached(v1.s, fileInodeNo)
      ensures 0 <= blankDirItem < MAX_BYTES && blankDirItem % ENTRY_SIZE == 0
      ensures OutcomeOf(dire.sup.g, v, path, CREATEFILE) == Create(dirInodeNo, blankDirItem)
      ensures var last := LastName(path, SkipSlashes(path, 0)); |last| <= NAME_LENGTH && fileName[..] == Padded(last)
      ensures Sized(dire.sup.g, v.s.w) && v.s.sb.ninode <= GROUP && IsInode(dire.sup.g, fileInodeNo)
              && IsInode(dire.sup.g, dirInodeNo) && Fetch(dire.sup.g, v.s).1 == Number(fileInodeNo)
      ensures fileInode.Value() == InodeAt(dire.sup.g, v.s.w, fileInodeNo)
      ensures dirInode.Value() == InodeAt(dire.sup.g, v.s.w, dirInodeNo).(addr := dirInode.addr[..])
    {
      AnsweredCreate(dire.sup.g, v, path, fallback, blankDirItem, dirInodeNo, fileInodeNo, fileName[..],
          fileInode.Value());
      SearchedFacts(v, v1);
      hide Answered, LookupEnded, Fetch, InodeAt, OutcomeOf, LastName, Narrow;
    }

    /** The same with what the lookup answered spelled out. */
    method PutNew(path: string, now: Word, ghost v: Volume, ghost v1: Volume) returns (ghost v': Volume)
      requires Wired() && LookupEnded(v, v1) && Narrow(fileName[..]) && !Cached(v1.s, fileInodeNo)
      requires 0 <= blankDirItem < MAX_BYTES && blankDirItem % ENTRY_SIZE == 0
      requires Creatable(dire.sup.g, v, path)
               && OutcomeOf(dire.sup.g, v, path, CREATEFILE) == Create(dirInodeNo, blankDirItem)
      requires var last := LastName(path, SkipSlashes(path, 0)); |last| <= NAME_LENGTH && fileName[..] == Padded(last)
      requires v.s.sb.ninode <= GROUP && IsInode(dire.sup.g, fileInodeNo) && IsInode(dire.sup.g, dirInodeNo)
               && Fetch(dire.sup.g, v.s).1 == Number(fileInodeNo)
      requires fileInode.Value() == InodeAt(dire.sup.g, v.s.w, fileInodeNo)
      requires dirInode.Value() == InodeAt(dire.sup.g, v.s.w, dirInodeNo).(addr := dirInode.addr[..])
      modifies dirInode, dirInode.addr, fileInode, dire.blocks, dire.sup`nfree, dire.sup.free, dire.sup.padding, disk,
               disk.data
      ensures dire.Shows(v') && NewFile(dire.sup.g, v, v', path, dirInodeNo, blankDirItem, fileInodeNo, isDirectory)
      ensures AsComplete(dire.sup.g, v1, v') && |v'.free| >= |v1.free| - 3
      ensures Stamped(dire.sup.g, v'.s.w, fileInodeNo, now) && Stamped(dire.sup.g, v'.s.w, dirInodeNo, now)
    {
      ghost var g, file0, parent0, name := dire.sup.g, fileInode.Value(), dirInode.Value(), fileName[..];
      ghost var before, v2;
      hide *;
      before, v2, v' := WriteAll(now, v, v1);
      RecordIsFor(g, v, v2, path, dirInodeNo, blankDirItem, before, fileInodeNo, name);
      ghost var file, parent := fileInode.Value(), dirInode.Value();
      NewDone(g, v, v2, v', path, dirInodeNo, blankDirItem, fileInodeNo, file0, file, parent0, before, parent,
          isDirectory, now);
      dire.SoundBooks(v');
      AsCompleteTrans(g, v1, v2, v');
    }

    /** Creates the file if the lookup says that it can be created and no earlier lookup has failed. */
    method CreateFile(path: string, now: Word, ghost v: Volume) returns (created: bool, thrown: bool, ghost v': Volume)
      requires Wired() && dire.Shows(v) && Creatable(dire.sup.g, v, path) && IsInode(dire.sup.g, fileInodeNo)
      modifies this, errors, dirInode, dirInode.addr, fileInode, fileInode.addr, fileName
      modifies dire.blocks, dire.sup`nfree, dire.sup.free, dire.sup`ninode, dire.sup.inode, dire.sup.padding, disk,
               disk.data
      ensures dire.Shows(v')
      ensures created <==> OutcomeOf(dire.sup.g, v, path, CREATEFILE).Create? && old(errors.errorType) == SUCCESS
      ensures thrown <==> OutcomeOf(dire.sup.g, v, path, CREATEFILE) == TooLong
      ensures errors.errorType == CodeAfter(OutcomeOf(dire.sup.g, v, path, CREATEFILE), old(errors.errorType))
      ensures created ==> OutcomeOf(dire.sup.g, v, path, CREATEFILE) == Create(dirInodeNo, blankDirItem)
      ensures created ==> NewFile(dire.sup.g, v, v', path, dirInodeNo, blankDirItem, fileInodeNo, isDirectory)
      ensures created ==> Stamped(dire.sup.g, v'.s.w, fileInodeNo, now) && Stamped(dire.sup.g, v'.s.w, dirInodeNo, now)
      ensures !created ==> dire.Ended(dirInode, v, v', dirInodeNo) && StoppedIn(dire.sup.g, v, v', path, dirInodeNo)
                           && Dropped(dire.sup.g, v, v', path)
      ensures Whole(dire.sup.g, v, v', path) && |v'.free| >= Spare(dire.sup.g, v, path) - if created then 3 else 0
    {
      assert Searchable(dire.sup.g, v, path, CREATEFILE, 3);
      hide Answered, LookupEnded, Creatable, Searchable, Directory.Shows, Directory.Ended, Unlisted, OutcomeOf,
           NewFile, Complete, StoppedIn, Dropped, Spare, Code, CodeAfter, Stamped;
      ghost var fallback := fileInodeNo;
      var status;
      status, v' := SearchFatherDir(path, v);
      CodeTells(dire.sup.g, v, path, fallback, status, blankDirItem, dirInodeNo, fileInodeNo, fileName[..],
          fileInode.Value(), old(errors.errorType));
      if status == NameTooLong || errors.errorType != SUCCESS {
        SearchedShows(v, v');
        return false, status == NameTooLong, v';
      }
      v' := WriteNew(path, now, v, v', fallback);
      created, thrown := true, false;
    }

    /** The creation of the root directory, which has no parent: takes a number and stores an inode
        without blocks under it. Fails, as the exception does, if no inode is free. */
    method CreateRoot(now: Word, ghost v: Volume) returns (created: bool, ghost v': Volume)
      requires Wired() && dire.Shows(v) && RootReady(dire.sup.g, v) && fileInode.Value() == EmptyInode()
      modifies `fileInodeNo, fileInode, fileInode.addr, dire.sup`ninode, dire.sup.inode, dire.sup.padding, disk,
               disk.data
      ensures dire.Shows(v') && (created <==> Fetch(dire.sup.g, v.s).1.Number?)
      ensures if created then RootDone(dire.sup.g, v, v', fileInodeNo, isDirectory) else v' == v
      ensures created ==> Stamped(dire.sup.g, v'.s.w, fileInodeNo, now)
    {
      ghost var v1 := v.(s := Fetch(dire.sup.g, v.s).0);
      RootFetched(dire.sup.g, v);
      assert dire.Wired() && dire.State() == v.s && 0 <= v.s.sb.ninode <= GROUP;
      hide RootReady, FetchedFor, Fetch, Disk.Spelled, Superblock.Value, Directory.Shows, RootDone, Stamped;
      var r := inodes.FetchFreeInode();
      created := r.Number?;
      v' := v;
      if created {
        fileInodeNo := r.no;
        v' := PutRoot(now, v, v1);
      } else {
        dire.SoundBooks(v);
      }
    }

    /** Stores the root inode; the volume is `v1` after the number has been fetched. */
    method PutRoot(now: Word, ghost v: Volume, ghost v1: Volume) returns (ghost v': Volume)
      requires Wired() && dire.Wired() && dire.State() == v1.s && dire.blocks.freeList == v1.free
      requires FetchedFor(dire.sup.g, v, v1, fileInodeNo) && fileInode.Value() == EmptyInode()
      modifies fileInode, fileInode.addr, disk, disk.data
      ensures dire.Shows(v') && RootDone(dire.sup.g, v, v', fileInodeNo, isDirectory)
      ensures Stamped(dire.sup.g, v'.s.w, fileInodeNo, now)
    {
      assert IsInode(dire.sup.g, fileInodeNo) && dire.sup.g.Valid();
      assert 0 <= fileInodeNo < |v1.t|;
      hide FetchedFor, WithInode, Disk.Spelled, Superblock.Value, Directory.Shows, RootDone, RootFields;
      StoreRoot(now);
      v' := Cleared(v1.(s := v1.s.(w := disk.words)), fileInodeNo);
      RootStored(dire.sup.g, v, v1, fileInodeNo, fileInode.Value(), isDirectory);
      dire.SoundBooks(v');
    }

    /** Stores an inode without blocks under the number that was fetched. */
    method StoreRoot(now: Word)
      requires Wired() && dire.Wired() && IsInode(dire.sup.g, fileInodeNo) && fileInode.Value() == EmptyInode()
      modifies fileInode, fileInode.addr, disk, disk.data
      ensures dire.Wired() && dire.State() == old(dire.State()).(w := disk.words)
      ensures disk.words == WithInode(dire.sup.g, old(disk.words), fileInodeNo, fileInode.Value())
      ensures RootFields(fileInode.Value(), isDirectory) && fileInode.atime == now && fileInode.mtime == now
    {
      hide WithInode, Disk.Spelled;
      SetCommonFileInode(now);
      CleanInodeAddr(fileInode);
      inodes.UpdateInodeToDisk(fileInode, fileInodeNo);
    }

    method CleanInodeAddr(id: InodeStr)
      requires id.addr.Length == 10
      modifies id.addr
      ensures id.addr[..] == NO_BLOCKS
    {
      for i := 0 to 10
        invariant forall k :: 0 <= k < i ==> id.addr[k] == 0
      {
        id.addr[i] := 0;
      }
    }
  }
}

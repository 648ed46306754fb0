/** The inode manager: storing and loading inodes, handing out and releasing their numbers. */
module InodeBlocks {
  import opened Words
  import opened DiskImage
  import opened SuperBlocks
  import opened FreeList
  import opened Inodes

  class InodeStr {
    var mode: UWord
    var ilink: Word
    var uid: Half
    var gid: Half
    var size: Word
    const addr: array<Word>
    var atime: Word
    var mtime: Word

    constructor ()
      ensures addr.Length == 10 && fresh(addr) && Value() == EmptyInode()
    {
      mode, ilink, uid, gid, size, atime, mtime := 0, 0, 0, 0, 0, 0, 0;
      addr := new Word[10](_ => 0);
    }

    ghost function Value(): Inode
      requires addr.Length == 10
      reads this, addr
    {
      Inode(mode, ilink, uid, gid, size, addr[..], atime, mtime)
    }
  }

  class InodeBlock {
    const sup: Superblock
    const disk: Disk

    ghost predicate Wired()
      reads disk`words, disk.data, sup`isize
    {
      sup.disk == disk && sup.Valid() && sup.isize == sup.g.inodeBlocks
    }

    ghost function State(): Store
      requires sup.disk == disk && sup.Valid()
      reads disk`words, disk.data, sup, sup.free, sup.inode, sup.padding
    {
      Store(disk.words, sup.Value())
    }

    constructor (sup: Superblock)
      requires sup.Valid() && sup.isize == sup.g.inodeBlocks
      ensures Wired() && this.sup == sup
    {
      this.sup, disk := sup, sup.disk;
    }

    /** Marks every inode free. */
    method CreatInode()
      requires Wired()
      modifies disk, disk.data
      ensures Wired()
      ensures disk.words == ModesCleared(sup.g, old(disk.words), sup.g.InodeCount())
    {
      ghost var g, was := sup.g, disk.words;
      var start := sup.g.InodeStart();
      for i := start to start + sup.g.inodeBlocks
        invariant Wired() && disk.words == ModesCleared(g, was, 8 * (i - start))
      {
        var j := 0;
        while j < 512
          invariant 0 <= j <= 512 && j % 64 == 0
          invariant Wired() && disk.words == ModesCleared(g, was, 8 * (i - start) + j / 64)
        {
          disk.Seek(512 * i + j);
          disk.WriteInt(0, SlotStart(g, 8 * (i - start) + j / 64));
          j := j + 64;
        }
      }
    }

    /** Fills the cache with the last 99 numbers, negative ones if there are fewer, and the root's. */
    method CreatMngArray()
      requires Wired()
      modifies sup`ninode, sup.inode, disk, disk.data, sup.padding
      ensures Wired()
      ensures var sb := old(sup.Value()).(ninode := GROUP, inode := FirstNumbers(sup.g.InodeCount()));
              sup.Value() == Flushed(sb) && disk.words == Stored(sup.g, old(disk.words), sb)
    {
      var tail := sup.isize * 8 - 1;
      for i := 0 to 99
        invariant Wired() && sup.Value() == old(sup.Value()).(inode := sup.inode[..]) && disk.words == old(disk.words)
        invariant tail == sup.isize * 8 - 1 - i
        invariant forall j :: 0 <= j < i ==> sup.inode[j] == sup.isize * 8 - 1 - j
      {
        sup.inode[i] := tail;
        tail := tail - 1;
      }
      sup.inode[99] := 0;
      sup.ninode := 100;
      assert sup.inode[..] == FirstNumbers(sup.g.InodeCount());
      sup.UpdateSuperBlockToDisk();
    }

    method IsInodeFree(no: int) returns (r: int)
      requires Wired() && IsInode(sup.g, no)
      modifies disk`pos
      ensures r == if IsFree(sup.g, disk.words, no) then 1 else 0
    {
      SlotInArea(sup.g, disk.words, no);
      disk.Seek(512 * sup.g.InodeStart() + 64 * no);
      var mode := disk.ReadInt(SlotStart(sup.g, no));
      r := if mode == 0 then 1 else 0;
    }

    /** Puts one more number into the cache. */
    method Append(no: Word)
      requires Wired() && 0 <= sup.ninode < GROUP
      modifies sup`ninode, sup.inode
      ensures Wired()
      ensures var sb := old(sup.Value());
              sup.Value() == sb.(ninode := sb.ninode + 1, inode := sb.inode[sb.ninode := no])
    {
      sup.inode[sup.ninode] := no;
      sup.ninode := sup.ninode + 1;
    }

    /** Loads the scan into an empty cache. */
    method Refill()
      requires Wired() && sup.ninode == 0
      modifies sup`ninode, sup.inode, disk`pos
      ensures Wired() && disk.words == old(disk.words)
      ensures sup.Value() == Refilled(sup.g, old(State()))
    {
      ghost var w, sb, found := disk.words, sup.Value(), [];
      ScanBegins(w, sb);
      assert GROUP == 100;
      hide *;
      var i: Word := sup.isize * 8 - 1;
      while sup.ninode < 100 && i >= 0
        invariant -1 <= i && Scanned(w, sb, i, found)
      {
        found := ScanOne(i, w, sb, found);
        i := i - 1;
      }
      ScannedAll(w, sb, i, found);
    }

    /** The scan has come down to number `i`. */
    ghost predicate Scanned(w: seq<Word>, sb: Super, i: int, found: seq<int>)
      reads disk`words, disk.data, sup, sup.free, sup.inode, sup.padding
    {
      && Wired() && disk.words == w && sup.ninode == |found| && ScannedTo(sup.g, w, sb, sup.Value(), i, found)
    }

    lemma ScanBegins(w: seq<Word>, sb: Super)
      requires Wired() && disk.words == w && sup.Value() == sb && sup.ninode == 0
      ensures 0 <= sup.isize * 8 < 0x8000_0000 && Scanned(w, sb, sup.isize * 8 - 1, [])
    {
      ScanStarts(sup.g, w, sb);
    }

    lemma ScannedAll(w: seq<Word>, sb: Super, i: int, found: seq<int>)
      requires Scanned(w, sb, i, found) && sb.ninode == 0 && (sup.ninode >= GROUP || i == -1)
      ensures Wired() && disk.words == w && sup.Value() == Refilled(sup.g, Store(w, sb))
    {
      ScanDone(sup.g, Store(w, sb), sup.Value(), i, found);
    }

    /** One round of the scan. */
    method ScanOne(i: Word, ghost w: seq<Word>, ghost sb: Super, ghost found: seq<int>) returns (ghost found': seq<int>)
      requires Scanned(w, sb, i, found) && 0 <= i && sup.ninode < GROUP
      modifies sup`ninode, sup.inode, disk`pos
      ensures Scanned(w, sb, i - 1, found')
    {
      ScanStep(sup.g, w, sb, sup.Value(), i, found);
      found' := Next(sup.g, w, i, found);
      hide FoundAbove, LoadedInto, Next, IsFree, Disk.Spelled;
      Consider(i);
    }

    /** Puts a number into the cache if the disk says that it is free. */
    method Consider(i: Word)
      requires Wired() && IsInode(sup.g, i) && 0 <= sup.ninode < GROUP
      modifies sup`ninode, sup.inode, disk`pos
      ensures Wired()
      ensures var sb := old(sup.Value());
              sup.Value() == if IsFree(sup.g, disk.words, i) then
                  sb.(ninode := sb.ninode + 1, inode := sb.inode[sb.ninode := i]) else sb
    {
      var r := IsInodeFree(i);
      if r == 1 {
        Append(i);
      }
    }

    /** Hands out the number of a free inode, or reports that all are in use. */
    method FetchFreeInode() returns (r: Fetched)
      requires Wired() && 0 <= sup.ninode <= GROUP
      modifies sup`ninode, sup.inode, sup.padding, disk, disk.data
      ensures Wired() && (State(), r) == Fetch(sup.g, old(State()))
    {
      ghost var s := State();
      RefillIfEmpty();
      hide Refilled, Stored, Flushed, Disk.Spelled, Disk.Valid, Superblock.Value;
      if sup.ninode == 0 {
        return NoInode;
      }
      var no := TakeTop();
      r := Number(no);
    }

    method RefillIfEmpty()
      requires Wired() && 0 <= sup.ninode <= GROUP
      modifies sup`ninode, sup.inode, disk`pos
      ensures Wired() && disk.words == old(disk.words) && 0 <= sup.ninode <= GROUP
      ensures sup.Value() == Refilled(sup.g, old(State()))
    {
      if sup.ninode <= 0 {
        Refill();
      }
    }

    /** Takes the topmost number from the cache. */
    method TakeTop() returns (no: Word)
      requires Wired() && 0 < sup.ninode <= GROUP
      modifies sup`ninode, sup.padding, disk, disk.data
      ensures Wired() && no == old(sup.Value()).inode[old(sup.ninode) - 1]
      ensures var sb := old(sup.Value()).(ninode := old(sup.ninode) - 1);
              State() == Store(Stored(sup.g, old(disk.words), sb), Flushed(sb))
    {
      no := sup.inode[sup.ninode - 1];
      sup.ninode := sup.ninode - 1;
      hide Stored, Flushed, Disk.Spelled, Disk.Valid;
      sup.UpdateSuperBlockToDisk();
    }

    /** Loads an inode from the disk. */
    method GetInodeFromDisk(istr: InodeStr, no: int)
      requires Wired() && IsInode(sup.g, no) && istr.addr.Length == 10 && istr.addr as object != disk.data
      modifies istr, istr.addr, disk`pos
      ensures Wired() && istr.Value() == InodeAt(sup.g, disk.words, no)
    {
      SlotInArea(sup.g, disk.words, no);
      DecodedFields(sup.g, disk.words, no);
      ghost var a := SlotStart(sup.g, no);
      hide Disk.Spelled, LowHalf, HighHalf, Unsigned, InodeAt;
      disk.Seek(512 * sup.g.InodeStart() + 64 * no);
      ReadHead(istr, a);
      sup.Absorb(istr.addr, a + 4);
      istr.atime := disk.ReadInt(a + 14);
      istr.mtime := disk.ReadInt(a + 15);
    }

    /** The fields in front of the addresses. */
    method ReadHead(istr: InodeStr, ghost a: nat)
      requires Wired() && disk.pos == 4 * a && a + 4 <= |disk.words|
      modifies istr, disk`pos
      ensures disk.pos == 4 * (a + 4)
      ensures istr.mode == Unsigned(disk.words[a]) && istr.ilink == disk.words[a + 1]
      ensures istr.uid == LowHalf(disk.words[a + 2]) && istr.gid == HighHalf(disk.words[a + 2])
      ensures istr.size == disk.words[a + 3]
    {
      hide Disk.Spelled, LowHalf, HighHalf, Unsigned;
      var mode := disk.ReadInt(a);
      istr.mode := Unsigned(mode);
      istr.ilink := disk.ReadInt(a + 1);
      istr.uid := disk.ReadShort(a + 2);
      istr.gid := disk.ReadShort(a + 2);
      istr.size := disk.ReadInt(a + 3);
    }

    /** Stores an inode on the disk. */
    method UpdateInodeToDisk(istr: InodeStr, no: int)
      requires Wired() && IsInode(sup.g, no) && istr.addr.Length == 10
      modifies disk, disk.data
      ensures Wired() && disk.words == WithInode(sup.g, old(disk.words), no, old(istr.Value()))
    {
      SlotInArea(sup.g, disk.words, no);
      ghost var a, was := SlotStart(sup.g, no), disk.words;
      disk.Seek(512 * sup.g.InodeStart() + 64 * no);
      var addrs := istr.addr[..];
      EmitHead(istr, was, a);
      ghost var head := [Signed(istr.mode), istr.ilink, Pack(istr.uid, istr.gid), istr.size];
      hide Disk.Spelled, Pack, Signed;
      disk.EmitAll(addrs, was, a, head);
      disk.EmitAll([istr.atime, istr.mtime], was, a, head + addrs);
      assert head + addrs + [istr.atime, istr.mtime] == Encode(istr.Value());
    }

    /** The fields in front of the addresses. */
    method EmitHead(istr: InodeStr, ghost was: seq<Word>, ghost a: nat)
      requires disk.Valid() && disk.words == was && disk.pos == 4 * a && a + 4 < |was|
      modifies disk, disk.data
      ensures disk.Valid() && disk.pos == 4 * (a + 4)
      ensures disk.words == Splice(was, a, [Signed(istr.mode), istr.ilink, Pack(istr.uid, istr.gid), istr.size])
    {
      hide Disk.Spelled, Pack, Signed;
      disk.Emit(Signed(istr.mode), was, a, []);
      disk.Emit(istr.ilink, was, a, [Signed(istr.mode)]);
      EmitIds(istr.uid, istr.gid, was, a, [Signed(istr.mode), istr.ilink]);
      disk.Emit(istr.size, was, a, [Signed(istr.mode), istr.ilink, Pack(istr.uid, istr.gid)]);
    }

    /** The two 16-bit fields of an inode, which share a word. */
    method EmitIds(uid: Half, gid: Half, ghost was: seq<Word>, ghost a: nat, ghost done: seq<Word>)
      requires disk.Valid() && a + |done| < |was| && disk.pos == 4 * (a + |done|)
      requires disk.words == Splice(was, a, done)
      modifies disk, disk.data
      ensures disk.Valid() && disk.pos == 4 * (a + |done| + 1)
      ensures disk.words == Splice(was, a, done + [Pack(uid, gid)])
    {
      ghost var k, w := a + |done|, disk.words[a + |done|];
      disk.WriteShort(uid, k);
      HalvesRoundTrip(uid, HighHalf(w));
      disk.WriteShort(gid, k);
    }

    /** Stores an empty inode. */
    method ClearOnDisk(no: Word)
      requires Wired() && IsInode(sup.g, no)
      modifies disk, disk.data
      ensures Wired() && disk.words == WithInode(sup.g, old(disk.words), no, EmptyInode())
    {
      var istr := new InodeStr();
      UpdateInodeToDisk(istr, no);
    }

    /** Puts a number into the cache if there is room. */
    method Offer(no: Word)
      requires Wired() && 0 <= sup.ninode
      modifies sup`ninode, sup.inode
      ensures Wired() && sup.Value() == Offered(old(sup.Value()), no)
    {
      if sup.ninode < 100 {
        Append(no);
      }
    }

    /** Clears an inode on disk and puts its number into the cache if there is room. */
    method FreeInode(no: Word)
      requires Wired() && IsInode(sup.g, no) && 0 <= sup.ninode
      modifies sup`ninode, sup.inode, sup.padding, disk, disk.data
      ensures Wired() && State() == Free(sup.g, old(State()), no)
    {
      hide Disk.Spelled, WithInode, Offered, Stored, Flushed, Superblock.Value;
      ClearOnDisk(no);
      Offer(no);
      sup.UpdateSuperBlockToDisk();
    }

    /** Frees all inodes and fills the cache, which is sound if there are enough inodes for it. */
    method InitInodeManager()
      requires Wired()
      modifies sup`ninode, sup.inode, sup.padding, disk, disk.data
      ensures Wired() && |disk.words| == |old(disk.words)| && sup.ninode == GROUP && SoundIfLarge(sup.g, State())
      ensures forall no {:trigger IsFree(sup.g, disk.words, no)} :: IsInode(sup.g, no) ==> IsFree(sup.g, disk.words, no)
      ensures forall no {:trigger InodeAt(sup.g, disk.words, no)} :: IsInode(sup.g, no) ==>
                InodeAt(sup.g, disk.words, no) == InodeAt(sup.g, old(disk.words), no).(mode := 0)
      ensures Fetch(sup.g, State()).1 == Number(0)
    {
      ghost var g, w := sup.g, disk.words;
      CreatInode();
      CreatMngArray();
      InitialState(g, w, State());
    }
  }
}

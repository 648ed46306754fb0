/** Directory operations: the block map in place, and path lookup. */
module Directories {
  import opened Words
  import opened DiskImage
  import opened SuperBlocks
  import opened FreeList
  import opened DataBlocks
  import opened BlockMap
  import opened BlockMapLaws
  import opened Inodes
  import opened InodeBlocks
  import opened Paths
  import opened DirViews

  class Directory {
    const sup: Superblock
    const inodes: InodeBlock
    const blocks: DataBlock
    const disk: Disk

    ghost predicate Wired()
      reads disk`words, disk.data, sup`isize
    {
      && sup.disk == disk && blocks.sup == sup && blocks.disk == disk && inodes.sup == sup && inodes.disk == disk
      && sup.Valid() && sup.isize == sup.g.inodeBlocks
    }

    ghost predicate Valid()
      reads blocks, disk`words, disk.data, sup, sup.free, sup.inode, sup.padding
    {
      Wired() && blocks.Valid()
    }

    /** An in-core inode shares no array with the file system. */
    ghost predicate Apart(istr: InodeStr) {
      && istr.addr.Length == 10 && istr.addr as object != disk.data
      && istr.addr != sup.free && istr.addr != sup.inode && istr.addr != sup.padding
    }

    ghost function State(): Store
      requires Wired()
      reads blocks, disk`words, disk.data, sup, sup.free, sup.inode, sup.padding
    {
      Store(disk.words, sup.Value())
    }

    /** The ghost volume `v` describes the present state. */
    ghost predicate Shows(v: Volume)
      reads blocks, disk`words, disk.data, sup, sup.free, sup.inode, sup.padding
    {
      Valid() && v.s == State() && v.free == blocks.freeList && Sound(sup.g, v)
    }

    constructor (inodes: InodeBlock, blocks: DataBlock)
      requires inodes.sup == blocks.sup && inodes.disk == blocks.disk && blocks.sup.disk == blocks.disk
      requires blocks.Valid() && blocks.sup.isize == blocks.sup.g.inodeBlocks
      ensures Valid() && this.inodes == inodes && this.blocks == blocks && sup == blocks.sup && disk == blocks.disk
    {
      this.inodes, this.blocks, sup, disk := inodes, blocks, blocks.sup, blocks.disk;
    }

    /** Asks for a block; the exception is swallowed and leaves 0. */
    method Request() returns (b: Word)
      requires Valid()
      modifies blocks, sup`nfree, sup.free, sup.padding, disk, disk.data
      ensures Valid() && State() == Alloc(sup.g, old(State())).0 && b == Taken(Alloc(sup.g, old(State())).1)
      ensures blocks.freeList == if old(blocks.freeList) == [] then [] else old(blocks.freeList)[1..]
    {
      var r := blocks.GetFreeBlock();
      b := 0;
      if r.Granted? {
        b := r.block;
      }
    }

    /** The books match the state, so the volume describes it. */
    lemma SoundBooks(v: Volume)
      requires Wired() && Sound(sup.g, v) && v.s == State() && v.free == blocks.freeList
      ensures Shows(v)
    {
      hide FreeState, Forest;
    }

    /** The block in address `i`, allocated first if there is none. */
    method TopBlock(istr: InodeStr, i: nat, ghost v: Volume, ghost f: int) returns (b: Word, ghost v': Volume)
      requires Shows(v) && Apart(istr) && Top(f, i).In(|v.t|) && v.t[f] == istr.addr[..]
      modifies istr.addr, blocks, sup`nfree, sup.free, sup.padding, disk, disk.data
      ensures Shows(v') && v'.t == v.t[f := istr.addr[..]] && Walked(sup.g, v, v', Top(f, i), b)
      ensures (State(), istr.addr[..], b) == EnsureTop(sup.g, v.s, v.t[f], i) && b == istr.addr[i]
    {
      v' := PlanTop(sup.g, v, f, i);
      hide *;
      if istr.addr[i] == 0 {
        b := Request();
        istr.addr[i] := b;
        assert istr.addr[..] == v.t[f][i := b];
      } else {
        b := istr.addr[i];
      }
      SoundBooks(v');
    }

    /** Asks for a block and writes its number into slot `k` of block `a`. */
    method RequestInto(a: Word, k: nat) returns (b: Word)
      requires Valid() && WordIndex(a, k) < |disk.words|
      modifies blocks, sup`nfree, sup.free, sup.padding, disk, disk.data
      ensures var (s', r) := Alloc(sup.g, old(State()));
              Wired() && b == Taken(r) && State() == s'.(w := Put(s'.w, WordIndex(a, k), Taken(r)))
      ensures blocks.freeList == if old(blocks.freeList) == [] then [] else old(blocks.freeList)[1..]
    {
      WordPosition(a, k);
      hide WordIndex, Wrap, Alloc, FreeState, Disk.Spelled, Superblock.Value;
      b := Request();
      disk.SeekTo(Wrap(512 * (a as int) + 4 * k));
      disk.WriteInt(b, WordIndex(a, k));
    }

    /** The block in slot `k` of block `a`, allocated first if there is none. */
    method EnsureInPlace(a: Word, k: nat, buffer: Word) returns (b: Word)
      requires Valid() && (WordIndex(a, k) < |disk.words| || buffer != 0)
      modifies blocks, sup`nfree, sup.free, sup.padding, disk, disk.data
      ensures Wired() && (State(), b) == EnsureSlot(sup.g, old(State()), a, k, buffer)
      ensures blocks.freeList == if ReadSlot(old(disk.words), a, k, buffer) != 0 || old(blocks.freeList) == []
                                 then old(blocks.freeList) else old(blocks.freeList)[1..]
    {
      WordPosition(a, k);
      hide WordIndex, Wrap, Alloc, Disk.Spelled;
      disk.SeekTo(Wrap(512 * (a as int) + 4 * k));
      b := disk.ReadOver(buffer, WordIndex(a, k));
      if b == 0 {
        b := RequestInto(a, k);
      }
    }

    /** The same along a path: the volume was `v0` when the walk began. */
    method SlotBlock(a: Word, k: nat, buffer: Word, ghost v0: Volume, ghost v: Volume, ghost nd: Node)
      returns (b: Word, ghost v': Volume)
      requires Sound(sup.g, v0) && Shows(v) && nd.In(|v0.t|) && nd.In(|v.t|) && !nd.Top? && k == nd.Slot()
      requires Walked(sup.g, v0, v, nd.Parent(), a)
      requires Ptr(v.s.w, v.t, nd.Parent()) == 0 ==> a == 0 || buffer != 0
      modifies blocks, sup`nfree, sup.free, sup.padding, disk, disk.data
      ensures Shows(v') && v'.t == v.t && Walked(sup.g, v0, v', nd, b)
      ensures (State(), b) == EnsureSlot(sup.g, v.s, a, k, buffer)
    {
      v' := PlanSlot(sup.g, v0, v, nd, a, buffer);
      hide Walked, Reached, Sound, EnsureSlot, Ptr, ReadSlot, WordIndex, FreeState;
      b := EnsureInPlace(a, k, buffer);
      SoundBooks(v');
    }

    /** The part of `BMap` below the direct addresses, with the indices already computed. */
    method Indirect(istr: InodeStr, firstIndex: nat, secondIndex: nat, directIndex: nat, ghost v: Volume, ghost f: int)
      returns (b: Word, ghost v': Volume)
      requires Shows(v) && Apart(istr) && 0 <= f < |v.t| && v.t[f] == istr.addr[..]
      requires (if firstIndex < 8 then Mid(f, firstIndex, directIndex)
               else Low(f, firstIndex, secondIndex, directIndex)).In(|v.t|)
      modifies istr.addr, blocks, sup`nfree, sup.free, sup.padding, disk, disk.data
      ensures Shows(v') && v'.t == v.t[f := istr.addr[..]]
      ensures var (s1, ad, a) := EnsureTop(sup.g, v.s, v.t[f], firstIndex);
              istr.addr[..] == ad &&
              if firstIndex < 8 then
                (State(), b) == EnsureSlot(sup.g, s1, a, directIndex, 0)
                && Walked(sup.g, v, v', Mid(f, firstIndex, directIndex), b)
              else
                var (s2, m) := EnsureSlot(sup.g, s1, a, secondIndex, 0);
                (State(), b) == EnsureSlot(sup.g, s2, m, directIndex, m)
                && Walked(sup.g, v, v', Low(f, firstIndex, secondIndex, directIndex), b)
    {
      hide Walked, Sound, EnsureTop, EnsureSlot;
      var blockNum;
      blockNum, v' := TopBlock(istr, firstIndex, v, f);
      if firstIndex >= 8 {
        blockNum, v' := SlotBlock(blockNum, secondIndex, 0, v, v', Mid(f, firstIndex, secondIndex));
        b, v' := SlotBlock(blockNum, directIndex, blockNum, v, v', Low(f, firstIndex, secondIndex, directIndex));
      } else {
        b, v' := SlotBlock(blockNum, directIndex, 0, v, v', Mid(f, firstIndex, directIndex));
      }
    }

    /** The physical block of logical block `itemNum`. Missing index and data blocks are allocated
        on the way. */
    method BMap(istr: InodeStr, itemNum: int, ghost v: Volume, ghost f: int) returns (b: Word, ghost v': Volume)
      requires Shows(v) && Apart(istr) && 0 <= f < |v.t| && v.t[f] == istr.addr[..] && 0 <= itemNum < MAX_BLOCKS
      modifies istr.addr, blocks, sup`nfree, sup.free, sup.padding, disk, disk.data
      ensures Shows(v') && v'.t == v.t[f := istr.addr[..]]
      ensures (State(), istr.addr[..], b) == BlockMap.BMap(sup.g, v.s, v.t[f], itemNum)
      ensures Walked(sup.g, v, v', LeafOf(f, itemNum), b)
    {
      LeafBijection(f, itemNum, LeafOf(f, itemNum), |v.t|);
      hide Walked, Sound, EnsureTop, EnsureSlot, Directory.Valid;
      if itemNum < 6 {
        b, v' := TopBlock(istr, itemNum, v, f);
      } else if itemNum - 262 < 0 {
        b, v' := Indirect(istr, (itemNum - 6) / 128 + 6, 0, (itemNum - 6) % 128, v, f);
      } else {
        b, v' := Indirect(istr, (itemNum - 262) / (128 * 128) + 8, (itemNum - 262) / 128 % 128, (itemNum - 262) % 128,
            v, f);
      }
    }

    /** In the middle of a lookup that began in `v0`: the in-core inode is inode `no` with the
        addresses that have been added to it since. */
    ghost predicate Scanning(istr: InodeStr, v0: Volume, v: Volume, no: int)
      reads istr.addr, blocks, disk`words, disk.data, sup, sup.free, sup.inode, sup.padding
    {
      && Shows(v) && Apart(istr) && Sized(sup.g, v0.s.w) && Later(sup.g, v0, v)
      && |v0.t| == sup.g.InodeCount() && IsInode(sup.g, no) && v.t == v0.t[no := istr.addr[..]]
    }

    method ReadBlock(b: Word, buffer: array<Byte>)
      requires Wired() && sup.g.InData(b) && buffer.Length == BLOCK_SIZE && buffer != disk.data
      modifies disk`pos, buffer
      ensures forall i {:trigger buffer[..][i]} :: 0 <= i < BLOCK_SIZE ==>
              buffer[..][i] == ByteAt(disk.words, 512 * (b as int) + i)
    {
      disk.Seek(512 * (b as int));
      disk.ReadBytes(buffer, 512);
    }

    /** Finds the block that holds logical block `k` of a directory. */
    method MapBlock(istr: InodeStr, k: nat, ghost v0: Volume, ghost v: Volume, ghost no: int)
      returns (b: Word, ghost v': Volume)
      requires Scanning(istr, v0, v, no) && k < MAX_BLOCKS
      requires |v.free| >= if Block(v0, no, k) == 0 then 3 else 0
      modifies istr.addr, blocks, sup`nfree, sup.free, sup.padding, disk, disk.data
      ensures Scanning(istr, v0, v', no)
      ensures |v'.free| >= |v.free| - if Block(v0, no, k) == 0 then 3 else 0
      ensures b == Block(v', no, k) && sup.g.InData(b)
      ensures AsComplete(sup.g, v, v') && Onto(v, v', no, k)
    {
      ScanningFacts(istr, v0, v, no);
      hide *;
      b, v' := BMap(istr, k, v, no);
      ScansOn(istr, v0, v, v', no, k, b);
    }

    lemma ScanningFacts(istr: InodeStr, v0: Volume, v: Volume, no: int)
      requires Scanning(istr, v0, v, no)
      ensures Shows(v) && Apart(istr) && Sound(sup.g, v) && Sized(sup.g, v.s.w) && 0 <= no < |v.t| == |v0.t|
      ensures v.t[no] == istr.addr[..] && v.t == v0.t[no := v.t[no]] && IsInode(sup.g, no)
      ensures Sized(sup.g, v0.s.w) && |v0.t| == sup.g.InodeCount() && Later(sup.g, v0, v)
    {
    }

    /** One block more has been looked up; `v` is the volume before. */
    lemma ScansOn(istr: InodeStr, v0: Volume, v: Volume, v': Volume, no: int, k: nat, b: Word)
      requires Sound(sup.g, v) && 0 <= no < |v.t| == |v0.t| == sup.g.InodeCount() && v.t == v0.t[no := v.t[no]]
      requires Sized(sup.g, v0.s.w) && Later(sup.g, v0, v) && k < MAX_BLOCKS
      requires |v.free| >= if Block(v0, no, k) == 0 then 3 else 0
      requires Shows(v') && Apart(istr) && v'.t == v.t[no := istr.addr[..]] && Walked(sup.g, v, v', LeafOf(no, k), b)
      ensures Scanning(istr, v0, v', no)
      ensures |v'.free| >= |v.free| - if Block(v0, no, k) == 0 then 3 else 0
      ensures b == Block(v', no, k) && sup.g.InData(b) && AsComplete(sup.g, v, v') && Onto(v, v', no, k)
    {
      assert v'.t == v0.t[no := istr.addr[..]];
      hide Walked, Sound, BlockMap.BMap, Shows, Valid, LeafOf, Wired, RootOf, Complete;
      LookupLater(sup.g, v0, v, v', no, k, b);
    }

    /** Reads logical block `k` of a directory into the buffer. */
    method LoadBlock(istr: InodeStr, k: nat, buffer: array<Byte>, ghost v0: Volume, ghost v: Volume, ghost no: int)
      returns (ghost v': Volume)
      requires Scanning(istr, v0, v, no) && k < MAX_BLOCKS && buffer.Length == BLOCK_SIZE && buffer != disk.data
      requires |v.free| >= if Block(v0, no, k) == 0 then 3 else 0
      modifies istr.addr, buffer, blocks, sup`nfree, sup.free, sup.padding, disk, disk.data
      ensures Scanning(istr, v0, v', no)
      ensures |v'.free| >= |v.free| - if Block(v0, no, k) == 0 then 3 else 0
      ensures Holds(buffer[..], v0, no, k)
      ensures AsComplete(sup.g, v, v') && Onto(v, v', no, k)
    {
      var b;
      b, v' := MapBlock(istr, k, v0, v, no);
      assert Sized(sup.g, v'.s.w) && disk.words == v'.s.w && Wired();
      hide Later, Sound, Scanning, Shows, Wired;
      ReadBlock(b, buffer);
      BlockInBuffer(sup.g, v0, v', no, k, buffer[..], b);
    }

    /** Does the entry at position `at` of the buffer carry the name? */
    method Matches(buffer: array<Byte>, at: nat, fileName: array<char>) returns (same: bool)
      requires buffer.Length == BLOCK_SIZE && at + ENTRY_SIZE <= BLOCK_SIZE && fileName.Length == NAME_LENGTH
      ensures same <==> fileName[..] == NameIn(buffer[..], at)
    {
      for j := 0 to 28
        invariant forall i :: 0 <= i < j ==> fileName[i] == NameIn(buffer[..], at)[i]
      {
        if fileName[j] as int != buffer[at + j + 4] {
          assert fileName[..][j] != NameIn(buffer[..], at)[j];
          return false;
        }
      }
      return true;
    }

    /** In the middle of the scan of a directory, before entry `e`. */
    ghost predicate Probing(istr: InodeStr, buffer: array<Byte>, v0: Volume, v: Volume, no: int, e: nat, rest: nat)
      reads istr.addr, blocks, disk`words, disk.data, sup, sup.free, sup.inode, sup.padding, buffer
    {
      && Scanning(istr, v0, v, no) && Sane(DirOf(sup.g, v0, no)) && e <= |DirOf(sup.g, v0, no).entries|
      && buffer.Length == BLOCK_SIZE && buffer != disk.data
      && Enough(v0, v, no, e, |DirOf(sup.g, v0, no).entries|, rest) && Buffered(buffer[..], v0, no, e)
      && RootsSeen(v0, v, no, BlockCount(e))
    }

    /** Makes sure that the buffer holds the block of entry `e`. */
    method Fill(istr: InodeStr, offset: nat, buffer: array<Byte>, ghost v0: Volume, ghost v: Volume, ghost no: int,
                ghost e: nat, ghost rest: nat)
      returns (ghost v': Volume)
      requires Probing(istr, buffer, v0, v, no, e, rest) && e < |DirOf(sup.g, v0, no).entries|
               && offset == ENTRY_SIZE * e
      modifies istr.addr, buffer, blocks, sup`nfree, sup.free, sup.padding, disk, disk.data
      ensures Probing(istr, buffer, v0, v', no, e + 1, rest) && Holds(buffer[..], v0, no, e / 16)
      ensures AsComplete(sup.g, v, v')
    {
      OffsetInBlock(e);
      ProbingNeeds(istr, buffer, v0, v, no, e, rest);
      if e % 16 != 0 {
        StaysInBlock(istr, buffer, v0, v, no, e, rest);
      }
      hide *;
      v' := v;
      if offset % 512 == 0 {
        v' := LoadBlock(istr, offset / 512, buffer, v0, v', no);
        EntersBlock(istr, buffer, v0, v, v', no, e, rest);
      }
    }

    lemma ProbingNeeds(istr: InodeStr, buffer: array<Byte>, v0: Volume, v: Volume, no: int, e: nat, rest: nat)
      requires Probing(istr, buffer, v0, v, no, e, rest) && e < |DirOf(sup.g, v0, no).entries|
      ensures Scanning(istr, v0, v, no) && e / 16 < MAX_BLOCKS && buffer.Length == BLOCK_SIZE && buffer != disk.data
      ensures e % 16 == 0 ==> |v.free| >= if Block(v0, no, e / 16) == 0 then 3 else 0
    {
      EnoughHere(v0, v, no, e, |DirOf(sup.g, v0, no).entries|, rest);
    }

    lemma StaysInBlock(istr: InodeStr, buffer: array<Byte>, v0: Volume, v: Volume, no: int, e: nat, rest: nat)
      requires Probing(istr, buffer, v0, v, no, e, rest) && e < |DirOf(sup.g, v0, no).entries| && e % 16 != 0
      ensures Probing(istr, buffer, v0, v, no, e + 1, rest) && Holds(buffer[..], v0, no, e / 16)
    {
      EnoughHere(v0, v, no, e, |DirOf(sup.g, v0, no).entries|, rest);
      SameBlockNext(e);
      BlockCountStep(e);
      hide Scanning, Shows, Later, DirOf, Sane, Sized, Holds, Enough, BlockCount, RootsSeen;
    }

    /** The block of entry `e` has been loaded; `v` is the volume before. */
    lemma EntersBlock(istr: InodeStr, buffer: array<Byte>, v0: Volume, v: Volume, v': Volume, no: int, e: nat,
                      rest: nat)
      requires Scanning(istr, v0, v', no) && Sane(DirOf(sup.g, v0, no)) && e < |DirOf(sup.g, v0, no).entries|
      requires buffer.Length == BLOCK_SIZE && buffer != disk.data && e % 16 == 0 && e / 16 < MAX_BLOCKS
      requires Enough(v0, v, no, e, |DirOf(sup.g, v0, no).entries|, rest) && RootsSeen(v0, v, no, BlockCount(e))
      requires |v'.free| >= |v.free| - if Block(v0, no, e / 16) == 0 then 3 else 0
      requires Holds(buffer[..], v0, no, e / 16) && Onto(v, v', no, e / 16)
      ensures Probing(istr, buffer, v0, v', no, e + 1, rest)
    {
      EnoughHere(v0, v, no, e, |DirOf(sup.g, v0, no).entries|, rest);
      SameBlockNext(e);
      BlockCountStep(e);
      SeenStep(v0, v, v', no, e / 16);
      hide Scanning, Shows, Later, DirOf, Sane, Sized, Holds, Enough, BlockCount, RootsSeen, Onto;
    }

    /** One probe of the scan: compares entry `e` with the name. */
    method Probe(istr: InodeStr, offset: nat, buffer: array<Byte>, fileName: array<char>, ghost v0: Volume,
                 ghost v: Volume, ghost no: int, ghost e: nat, ghost rest: nat)
      returns (same: bool, ino: Word, unused: bool, ghost v': Volume)
      requires Probing(istr, buffer, v0, v, no, e, rest) && e < |DirOf(sup.g, v0, no).entries|
               && offset == ENTRY_SIZE * e
      requires fileName.Length == NAME_LENGTH
      modifies istr.addr, buffer, blocks, sup`nfree, sup.free, sup.padding, disk, disk.data
      ensures Probing(istr, buffer, v0, v', no, e + 1, rest) && AsComplete(sup.g, v, v')
      ensures var x := DirOf(sup.g, v0, no).entries[e];
              ino == x.ino && (same <==> x.name == fileName[..]) && (unused <==> x.Unused())
    {
      v' := Fill(istr, offset, buffer, v0, v, no, e, rest);
      OffsetInBlock(e);
      var at := offset % 512;
      EntryFacts(sup.g, v0, no, e, buffer[..], at);
      hide Scanning, Shows, Later, DirOf, Sane, Sized, Enough, Buffered, FromBytes, Entry.Unused, RootsSeen, Complete,
           BlockCount;
      same := Matches(buffer, at, fileName);
      ino := FromBytes(buffer[at], buffer[at + 1], buffer[at + 2], buffer[at + 3]);
      unused := buffer[at + 4] == 0;
    }

    lemma ProbingScans(istr: InodeStr, buffer: array<Byte>, v0: Volume, v: Volume, no: int, e: nat, rest: nat)
      requires Probing(istr, buffer, v0, v, no, e, rest)
      ensures Scanning(istr, v0, v, no) && |v.free| >= rest && RootsSeen(v0, v, no, BlockCount(e))
    {
    }

    /** The loop over the entries of a directory. It stops at the first that carries the name, and
        remembers an unused one. */
    method ScanEntries(istr: InodeStr, fileName: array<char>, buffer: array<Byte>, count: nat, ghost v0: Volume,
                       ghost v: Volume, ghost no: int, ghost rest: nat)
      returns (found: bool, offset: nat, ino: Word, firstFreeOffset: int, freeFlag: int, ghost v': Volume)
      requires Probing(istr, buffer, v0, v, no, 0, rest) && count == |DirOf(sup.g, v0, no).entries|
               && fileName.Length == NAME_LENGTH
      modifies istr.addr, buffer, blocks, sup`nfree, sup.free, sup.padding, disk, disk.data
      ensures Scanning(istr, v0, v', no) && |v'.free| >= rest && fileName[..] == old(fileName[..])
      ensures AsComplete(sup.g, v, v') && RootsSeen(v0, v', no, BlocksRead(DirOf(sup.g, v0, no), fileName[..]))
      ensures var d := DirOf(sup.g, v0, no); var e := Match(d.entries, fileName[..], 0);
              if found then e < |d.entries| && offset == ENTRY_SIZE * e && ino == d.entries[e].ino
              else Searched(d, fileName[..], |d.entries|, firstFreeOffset, freeFlag)
    {
      ghost var d, e, name := DirOf(sup.g, v0, no), 0, fileName[..];
      offset, ino, v' := 0, 0, v;
      firstFreeOffset, freeFlag := 0, 0;
      var dirSize := count;
      assert Searched(d, name, 0, 0, 0) && ENTRY_SIZE == 32;
      hide *;
      while dirSize != 0
        invariant e <= count && dirSize == count - e && offset == ENTRY_SIZE * e
        invariant Probing(istr, buffer, v0, v', no, e, rest)
        invariant fileName[..] == name && Searched(d, name, e, firstFreeOffset, freeFlag)
        invariant AsComplete(sup.g, v, v')
        decreases dirSize
      {
        var same, unused;
        same, ino, unused, v' := Probe(istr, offset, buffer, fileName, v0, v', no, e, rest);
        SearchedStep(d, name, e, firstFreeOffset, freeFlag);
        if same {
          ReadUpTo(d, name, e);
          ProbingScans(istr, buffer, v0, v', no, e + 1, rest);
          return true, offset, ino, firstFreeOffset, freeFlag, v';
        }
        dirSize := dirSize - 1;
        if unused && firstFreeOffset == 0 {
          firstFreeOffset := offset;
          freeFlag := 1;
        }
        offset := offset + 32;
        e := e + 1;
      }
      ReadAll(d, name, firstFreeOffset, freeFlag);
      ProbingScans(istr, buffer, v0, v', no, e, rest);
      found := false;
    }

    /** Searches one directory for a name: finds the lowest entry that carries it, or else where a
        new entry would go. */
    method Scan(istr: InodeStr, fileName: array<char>, buffer: array<Byte>, ghost v0: Volume, ghost v: Volume,
                ghost no: int, ghost rest: nat)
      returns (found: bool, offset: int, ino: Word, slot: int, ghost v': Volume)
      requires Scanning(istr, v0, v, no) && v.t == v0.t
      requires istr.size == DirOf(sup.g, v0, no).size && Sane(DirOf(sup.g, v0, no)) && fileName.Length == NAME_LENGTH
      requires |v.free| >= 3 * DirOf(sup.g, v0, no).holes + rest && buffer.Length == BLOCK_SIZE && buffer != disk.data
      modifies istr.addr, buffer, blocks, sup`nfree, sup.free, sup.padding, disk, disk.data
      ensures Scanning(istr, v0, v', no) && |v'.free| >= rest
      ensures AsComplete(sup.g, v, v') && RootsSeen(v0, v', no, BlocksRead(DirOf(sup.g, v0, no), fileName[..]))
      ensures var d := DirOf(sup.g, v0, no); var e := Match(d.entries, fileName[..], 0);
              && (found <==> e < |d.entries|)
              && (if found then offset == ENTRY_SIZE * e && ino == d.entries[e].ino else slot == SlotFor(d))
    {
      var firstFreeOffset, freeFlag;
      var dirSize := EntryCount(istr.size);
      assert Probing(istr, buffer, v0, v, no, 0, rest) && dirSize == |DirOf(sup.g, v0, no).entries|;
      hide Scanning, Shows, Later, Sized, IsInode, DirOf, Probing, Searched, Match, SlotFor, RootsSeen, Complete,
           BlocksRead;
      found, offset, ino, firstFreeOffset, freeFlag, v' :=
          ScanEntries(istr, fileName, buffer, dirSize, v0, v, no, rest);
      if !found {
        SearchedAll(DirOf(sup.g, v0, no), fileName[..], firstFreeOffset, freeFlag);
      }
      slot := if freeFlag == 0 then istr.size else firstFreeOffset;
    }

    /** Skips slashes. */
    method Skip(path: string, start: nat) returns (curPos: nat)
      requires start <= |path|
      ensures curPos == SkipSlashes(path, start)
    {
      curPos := start;
      while curPos < |path| && path[curPos] == '/'
        invariant start <= curPos <= |path| && SkipSlashes(path, curPos) == SkipSlashes(path, start)
      {
        curPos := curPos + 1;
      }
    }

    /** Copies the next path component into the array and skips the slashes behind it; fails, as an
        index outside the array would, if the component is too long. */
    method TakeName(path: string, start: nat, fileName: array<char>) returns (ok: bool, curPos: nat)
      requires start <= |path| && fileName.Length == NAME_LENGTH
      modifies fileName
      ensures ok <==> |NameAt(path, start)| <= NAME_LENGTH
      ensures ok ==> fileName[..] == Padded(NameAt(path, start)) && curPos == NextName(path, start)
      ensures !ok ==> fileName[..] == old(fileName[..])
    {
      var tmp := new char[28](_ => 0 as char);
      var i := 0;
      curPos := start;
      while curPos < |path| && path[curPos] != '/'
        invariant start <= curPos == start + i <= NameEnd(path, start) && i <= NAME_LENGTH
        invariant forall k :: 0 <= k < NAME_LENGTH ==> tmp[k] == if k < i then path[start + k] else 0 as char
        invariant fileName[..] == old(fileName[..])
        decreases |path| - curPos
      {
        if i >= 28 {
          return false, curPos;
        }
        tmp[i] := path[curPos];
        curPos, i := curPos + 1, i + 1;
      }
      assert tmp[..] == Padded(NameAt(path, start));
      for k := 0 to 28
        invariant tmp[..] == Padded(NameAt(path, start)) && fileName[..k] == tmp[..k]
      {
        fileName[k] := tmp[k];
      }
      curPos := Skip(path, curPos);
      ok := true;
    }

    /** The lookup that began in `v0` stands in directory `no`: the in-core inode is what the disk
        held then, apart from addresses added since, and no inode number has been taken. */
    ghost predicate Standing(istr: InodeStr, v0: Volume, v: Volume, no: int)
      reads istr, istr.addr, blocks, disk`words, disk.data, sup, sup.free, sup.inode, sup.padding
    {
      InDirectory(istr, v0, v, no) && sup.ninode == v0.s.sb.ninode && sup.inode[..] == v0.s.sb.inode
    }

    ghost predicate InDirectory(istr: InodeStr, v0: Volume, v: Volume, no: int)
      reads istr, istr.addr, blocks, disk`words, disk.data, sup, sup.free, sup.inode, sup.padding
    {
      Scanning(istr, v0, v, no) && istr.Value() == InodeAt(sup.g, v0.s.w, no).(addr := istr.addr[..])
    }

    /** The lookup has ended in directory `no`. */
    ghost predicate Ended(istr: InodeStr, v0: Volume, v: Volume, no: int)
      reads istr, istr.addr, blocks, disk`words, disk.data, sup, sup.free, sup.inode, sup.padding
    {
      InDirectory(istr, v0, v, no) && CacheSound(sup.g, v.s)
    }

    lemma StandingEnds(istr: InodeStr, v0: Volume, v: Volume, no: int)
      requires Standing(istr, v0, v, no) && Settled(sup.g, v0)
      ensures Ended(istr, v0, v, no)
    {
      CacheFrame(sup.g, v0.s, v.s);
    }

    /** Loads the inode of the directory to be searched next. */
    method Enter(istr: InodeStr, no: int, ghost v0: Volume, ghost v: Volume) returns (ghost v': Volume)
      requires Shows(v) && Apart(istr) && Sound(sup.g, v0) && Later(sup.g, v0, v)
      requires v0.t == DiskTable(sup.g, v0.s.w) && IsInode(sup.g, no)
      requires sup.ninode == v0.s.sb.ninode && sup.inode[..] == v0.s.sb.inode
      modifies istr, istr.addr, disk`pos
      ensures Standing(istr, v0, v', no) && v' == v.(t := v0.t)
    {
      v' := v.(t := v0.t);
      Reload(sup.g, v0, v);
      SameInodes(sup.g, v0.s.w, v.s.w, no);
      hide Sound, Later;
      inodes.GetInodeFromDisk(istr, no);
      SoundBooks(v');
      assert v0.t[no] == istr.addr[..] && v0.t[no := istr.addr[..]] == v0.t;
    }

    /** Goes from directory `no` to the one with number `next`. */
    method Descend(istr: InodeStr, next: int, ghost v0: Volume, ghost v: Volume, ghost no: int, ghost m: nat)
      returns (ghost v': Volume)
      requires Standing(istr, v0, v, no) && Settled(sup.g, v0) && IsInode(sup.g, next) && RootsSeen(v0, v, no, m)
      modifies istr, istr.addr, disk`pos
      ensures Standing(istr, v0, v', next) && v'.t == v0.t && v'.free == v.free && Left(sup.g, v0, v, v', no, m)
    {
      assert Scanning(istr, v0, v, no);
      assert Shows(v) && Later(sup.g, v0, v) && Apart(istr) && Sound(sup.g, v) && v.t == v0.t[no := v.t[no]];
      hide Sound, Later, Shows, Scanning, Complete, RootsSeen, RootsMapped;
      ReloadComplete(sup.g, v0, v, no, m);
      v' := Enter(istr, next, v0, v);
    }

    /** Searches the directory in which the lookup stands. */
    method SearchHere(istr: InodeStr, fileName: array<char>, ghost v0: Volume, ghost v: Volume, ghost no: int,
                      ghost rest: nat)
      returns (found: bool, offset: int, ino: Word, slot: int, ghost v': Volume)
      requires Standing(istr, v0, v, no) && v.t == v0.t && Sane(DirOf(sup.g, v0, no)) && fileName.Length == NAME_LENGTH
      requires |v.free| >= 3 * DirOf(sup.g, v0, no).holes + rest
      modifies istr.addr, blocks, sup`nfree, sup.free, sup.padding, disk, disk.data
      ensures Standing(istr, v0, v', no) && |v'.free| >= rest
      ensures AsComplete(sup.g, v, v') && RootsSeen(v0, v', no, BlocksRead(DirOf(sup.g, v0, no), fileName[..]))
      ensures var d := DirOf(sup.g, v0, no); var e := Match(d.entries, fileName[..], 0);
              && (found <==> e < |d.entries|)
              && (if found then offset == ENTRY_SIZE * e && ino == d.entries[e].ino else slot == SlotFor(d))
    {
      var buffer := new Byte[512];
      assert Scanning(istr, v0, v, no);
      hide Scanning, Sane, Shows, DirOf, SlotFor, Match, BlocksRead, RootsSeen, Complete;
      found, offset, ino, slot, v' := Scan(istr, fileName, buffer, v0, v, no, rest);
    }

    /** Takes a number for a file to be created and loads the inode. An exception is swallowed and
        leaves the number that the caller passed in. */
    method AssignInode(fileInode: InodeStr, fileInodeNo0: int) returns (fileInodeNo: int)
      requires Wired() && Apart(fileInode) && sup.ninode <= GROUP && 0 <= sup.ninode
      requires IsInode(sup.g, Assigned(sup.g, State(), fileInodeNo0))
      modifies fileInode, fileInode.addr, sup`ninode, sup.inode, sup.padding, disk, disk.data
      ensures Wired() && State() == Fetch(sup.g, old(State())).0
      ensures fileInodeNo == Assigned(sup.g, old(State()), fileInodeNo0)
      ensures fileInode.Value() == InodeAt(sup.g, disk.words, fileInodeNo)
    {
      hide Fetch, InodeAt, Disk.Spelled;
      fileInodeNo := fileInodeNo0;
      var r := inodes.FetchFreeInode();
      if r.Number? {
        fileInodeNo := r.no;
      }
      inodes.GetInodeFromDisk(fileInode, fileInodeNo);
    }

    /** The same at the end of a lookup. */
    method AssignHere(dirInode: InodeStr, fileInode: InodeStr, fileInodeNo0: int, ghost v0: Volume, ghost v: Volume,
                      ghost no: int)
      returns (fileInodeNo: int, ghost v': Volume)
      requires Standing(dirInode, v0, v, no) && Apart(fileInode) && dirInode != fileInode
               && dirInode.addr != fileInode.addr
      requires Settled(sup.g, v0) && IsInode(sup.g, fileInodeNo0)
      modifies fileInode, fileInode.addr, sup`ninode, sup.inode, sup.padding, disk, disk.data
      ensures Ended(dirInode, v0, v', no) && Unlisted(sup.g, v0, v'.s) && v' == v.(s := v'.s)
              && AsComplete(sup.g, v, v')
      ensures fileInodeNo == Assigned(sup.g, v0.s, fileInodeNo0) && IsInode(sup.g, fileInodeNo)
      ensures fileInode.Value() == InodeAt(sup.g, v0.s.w, fileInodeNo)
    {
      FetchLater(sup.g, v0, v);
      v' := v.(s := Fetch(sup.g, v.s).0);
      assert Wired() && Sized(sup.g, v'.s.w) && v.s == State();
      hide Sound, Fetch, Later, InodeAt;
      fileInodeNo := AssignInode(fileInode, fileInodeNo0);
      SoundBooks(v');
      SameInodes(sup.g, v0.s.w, v'.s.w, fileInodeNo);
    }

    /** The lookup stands before the name at position `i` of the path, with enough blocks for the rest
        of the way and `spare` more. */
    ghost predicate AtName(istr: InodeStr, v0: Volume, v: Volume, path: string, flag: int, no: int, i: nat, spare: nat)
      reads istr, istr.addr, blocks, disk`words, disk.data, sup, sup.free, sup.inode, sup.padding
    {
      && Standing(istr, v0, v, no) && v.t == v0.t && OnTheWay(sup.g, v0, path, flag, no, i)
      && |v.free| >= CostFrom(sup.g, v0, path, flag, no, i) + spare
    }

    /** The name was found and is not the last one, so the lookup can go on from inode `ino`. */
    ghost predicate Onward(istr: InodeStr, v0: Volume, v: Volume, path: string, flag: int, no: int, start: nat,
                           ino: Word, spare: nat)
      reads istr, istr.addr, blocks, disk`words, disk.data, sup, sup.free, sup.inode, sup.padding
    {
      && Standing(istr, v0, v, no) && OnTheWay(sup.g, v0, path, flag, no, start) && |NameAt(path, start)| <= NAME_LENGTH
      && NextName(path, start) < |path| && Sane(DirOf(sup.g, v0, no))
      && Hit(sup.g, v0, path, no, start) < |DirOf(sup.g, v0, no).entries|
      && ino == DirOf(sup.g, v0, no).entries[Hit(sup.g, v0, path, no, start)].ino && IsInode(sup.g, ino)
      && RootsSeen(v0, v, no, BlocksRead(DirOf(sup.g, v0, no), Padded(NameAt(path, start))))
      && OnTheWay(sup.g, v0, path, flag, ino, NextName(path, start))
      && |v.free| >= CostFrom(sup.g, v0, path, flag, ino, NextName(path, start)) + spare
    }

    /** The directory in which the lookup stands has been searched. */
    ghost predicate HasLooked(path: string, start: nat, istr: InodeStr, fileName: string, flag: int, ok: bool,
                              found: bool, offset: int, ino: Word, slot: int, curPos: nat, v0: Volume, v: Volume,
                              no: int)
      reads istr, istr.addr, blocks, disk`words, disk.data, sup, sup.free, sup.inode, sup.padding
    {
      && Standing(istr, v0, v, no) && OnTheWay(sup.g, v0, path, flag, no, start)
      && Tells(path, start, DirOf(sup.g, v0, no), EntryFor(sup.g, v0, path, no, start), fileName,
               ok, found, offset, ino, slot, curPos)
    }

    /** Takes the next name and searches the directory in which the lookup stands for it. */
    method FindName(path: string, start: nat, istr: InodeStr, fileName: array<char>, flag: int, ghost v0: Volume,
                    ghost v: Volume, ghost no: int, ghost spare: nat)
      returns (ok: bool, found: bool, offset: int, ino: Word, slot: int, curPos: nat, ghost v': Volume)
      requires AtName(istr, v0, v, path, flag, no, start, spare) && fileName.Length == NAME_LENGTH
      modifies fileName, istr.addr, blocks, sup`nfree, sup.free, sup.padding, disk, disk.data
      ensures |v'.free| >= spare && AsComplete(sup.g, v, v') && SeenAt(sup.g, v0, v', path, no, start)
      ensures HasLooked(path, start, istr, fileName[..], flag, ok, found, offset, ino, slot, curPos, v0, v', no)
      ensures ok && found && curPos < |path| ==>
                start < curPos == NextName(path, start) && Onward(istr, v0, v', path, flag, no, start, ino, spare)
    {
      assert start <= |path| && IsInode(sup.g, no);
      hide Standing, OnTheWay, CostFrom, DirOf, NameAt, NextName, SlotFor, Match, Padded, Sane, BlocksRead, RootsSeen,
           Complete, SeenAt;
      found, offset, ino, slot, v' := false, -1, 0, -1, v;
      ok, curPos := TakeName(path, start, fileName);
      if ok {
        RoundGoesOn(sup.g, v0, path, flag, no, start);
        ghost var rest := CostFrom(sup.g, v0, path, flag, no, start) - 3 * DirOf(sup.g, v0, no).holes + spare;
        found, offset, ino, slot, v' := SearchHere(istr, fileName, v0, v', no, rest);
        SeenAtRead(sup.g, v0, v', path, no, start, fileName[..]);
      } else {
        SeenAtNone(sup.g, v0, v, path, no, start);
      }
    }

    /** The name is not in the directory: a creation gets its inode, everything else fails. */
    method NotHere(dirInode: InodeStr, fileInode: InodeStr, fileInodeNo0: int, create: bool, slot: int,
                   ghost v0: Volume, ghost v: Volume, ghost no: int)
      returns (offset: int, fileInodeNo: int, status: Status, ghost v': Volume)
      requires Standing(dirInode, v0, v, no) && Apart(fileInode) && dirInode != fileInode
               && dirInode.addr != fileInode.addr
      requires Settled(sup.g, v0) && IsInode(sup.g, fileInodeNo0)
      modifies fileInode, fileInode.addr, sup`ninode, sup.inode, sup.padding, disk, disk.data
      ensures Ended(dirInode, v0, v', no) && (create ==> Unlisted(sup.g, v0, v'.s))
      ensures v'.free == v.free && v'.t == v.t && AsComplete(sup.g, v, v')
      ensures if create then
                && status == Done && offset == slot && fileInodeNo == Assigned(sup.g, v0.s, fileInodeNo0)
                && IsInode(sup.g, fileInodeNo) && fileInode.Value() == InodeAt(sup.g, v0.s.w, fileInodeNo)
              else status == SearchDir && offset == -1
    {
      if create {
        fileInodeNo, v' := AssignHere(dirInode, fileInode, fileInodeNo0, v0, v, no);
        return slot, fileInodeNo, Done, v';
      }
      StandingEnds(dirInode, v0, v, no);
      return -1, fileInodeNo0, SearchDir, v;
    }

    /** The name was found and is not the last one: the lookup goes on in the directory it leads to. */
    method GoOn(path: string, start: nat, curPos: nat, istr: InodeStr, ino: Word, flag: int, ghost v0: Volume,
                ghost v: Volume, ghost no: int, ghost spare: nat)
      returns (ghost v': Volume)
      requires Settled(sup.g, v0) && Onward(istr, v0, v, path, flag, no, start, ino, spare)
      requires curPos == NextName(path, start)
      modifies istr, istr.addr, disk`pos
      ensures AtName(istr, v0, v', path, flag, ino, curPos, spare)
      ensures WholeFrom(sup.g, v0, v, no, start, v', ino, curPos, path)
    {
      StepIsRooted(sup.g, v0, path, flag, no, start);
      hide Standing, Settled, OnTheWay, DirOf, NameAt, NextName, Hit, Complete, Sane, RootsSeen, RootsMapped,
           BlocksRead, RootedFrom, CostFrom;
      v' := Descend(istr, ino, v0, v, no, BlocksRead(DirOf(sup.g, v0, no), Padded(NameAt(path, start))));
    }

    /** What the search of a directory told; `d` is that directory. */
    ghost predicate Tells(path: string, start: nat, d: Dir, e: nat, fileName: string, ok: bool, found: bool,
                          offset: int, ino: Word, slot: int, curPos: nat)
    {
      && start <= |path| && (ok <==> |NameAt(path, start)| <= NAME_LENGTH)
      && (ok ==>
            && fileName == Padded(NameAt(path, start)) && curPos == NextName(path, start)
            && (found <==> e < |d.entries|)
            && if found then e < |d.entries| && offset == ENTRY_SIZE * e && ino == d.entries[e].ino
               else e == |d.entries| && slot == SlotFor(d))
    }

    /** The lookup ends in the directory that was searched. */
    method Stop(path: string, start: nat, dirInode: InodeStr, fileInode: InodeStr, fileName: array<char>,
                fileInodeNo0: int, flag: int, ok: bool, found: bool, offset0: int, ino: Word, slot: int, curPos: nat,
                ghost v0: Volume, ghost v: Volume, ghost no: int)
      returns (offset: int, fileInodeNo: int, status: Status, ghost v': Volume)
      requires Settled(sup.g, v0) && IsInode(sup.g, fileInodeNo0)
      requires HasLooked(path, start, dirInode, fileName[..], flag, ok, found, offset0, ino, slot, curPos, v0, v, no)
      requires ok && found ==> curPos == |path|
      requires Apart(fileInode) && dirInode != fileInode && dirInode.addr != fileInode.addr
      modifies fileInode, fileInode.addr, sup`ninode, sup.inode, sup.padding, disk, disk.data
      ensures Ended(dirInode, v0, v', no) && v'.free == v.free && AsComplete(sup.g, v, v')
              && v'.t == v.t
      ensures status == Done && flag == CREATEFILE ==> Unlisted(sup.g, v0, v'.s)
      ensures RoundEnds(sup.g, v0, path, flag, fileInodeNo0, status, offset, no, fileInodeNo, fileName[..],
              fileInode.Value(), start)
      ensures RootedFrom(sup.g, v0, path, no, start)
    {
      assert Sized(sup.g, v0.s.w) && |v0.t| == sup.g.InodeCount() && IsInode(sup.g, no);
      EndIsRooted(sup.g, v0, path, flag, no, start);
      hide Standing, Settled, OnTheWay, DirOf, NameAt, NextName, SlotFor, Assigned, InodeAt, Hit, Complete, RootedFrom,
           Unlisted, Padded, Match;
      offset, fileInodeNo, v' := -1, fileInodeNo0, v;
      if ok && !found {
        offset, fileInodeNo, status, v' :=
          NotHere(dirInode, fileInode, fileInodeNo, flag == CREATEFILE && curPos == |path|, slot, v0, v', no);
        return;
      }
      StandingEnds(dirInode, v0, v', no);
      status := NameTooLong;
      if ok && flag == DELETEFILE {
        offset, fileInodeNo, status := offset0, ino, Done;
      } else if ok {
        status := SameFileName;
      }
    }

    /** One round of the lookup: takes a name, searches the directory, and either ends or goes on
        with the directory that was found. */
    method Round(path: string, start: nat, dirInode: InodeStr, fileInode: InodeStr, fileName: array<char>,
                 dirInodeNo0: int, fileInodeNo0: int, flag: int, ghost v0: Volume, ghost v: Volume, ghost spare: nat)
      returns (done: bool, offset: int, dirInodeNo: int, fileInodeNo: int, status: Status, curPos: nat,
               ghost v': Volume)
      requires Settled(sup.g, v0) && IsInode(sup.g, fileInodeNo0)
      requires AtName(dirInode, v0, v, path, flag, dirInodeNo0, start, spare)
      requires Apart(fileInode) && dirInode != fileInode && dirInode.addr != fileInode.addr
               && fileName.Length == NAME_LENGTH
      modifies dirInode, dirInode.addr, fileInode, fileInode.addr, fileName
      modifies blocks, sup`nfree, sup.free, sup`ninode, sup.inode, sup.padding, disk, disk.data
      ensures done ==> Ended(dirInode, v0, v', dirInodeNo) && dirInodeNo == dirInodeNo0 && |v'.free| >= spare
                       && (status == Done && flag == CREATEFILE ==> Unlisted(sup.g, v0, v'.s))
                       && RoundEnds(sup.g, v0, path, flag, fileInodeNo0, status, offset, dirInodeNo, fileInodeNo,
                                    fileName[..], fileInode.Value(), start)
      ensures done ==> AsComplete(sup.g, v, v') && SeenAt(sup.g, v0, v', path, dirInodeNo, start)
                       && RootedFrom(sup.g, v0, path, dirInodeNo, start)
      ensures !done ==> AtName(dirInode, v0, v', path, flag, dirInodeNo, curPos, spare) && start < curPos
                        && fileInodeNo == fileInodeNo0
                        && WholeFrom(sup.g, v0, v, dirInodeNo0, start, v', dirInodeNo, curPos, path)
    {
      assert OnTheWay(sup.g, v0, path, flag, dirInodeNo0, start) && start <= |path|;
      hide Standing, Settled, OnTheWay, AtName, HasLooked, Tells, Onward, Ended, SeenAt, RootedFrom, RoundEnds,
           Unlisted, Complete, NextName;
      offset, dirInodeNo, fileInodeNo, status := -1, dirInodeNo0, fileInodeNo0, Done;
      var ok, found, ino, slot;
      ok, found, offset, ino, slot, curPos, v' :=
          FindName(path, start, dirInode, fileName, flag, v0, v, dirInodeNo, spare);
      ghost var v1 := v';
      done := !(ok && found && curPos != |path|);
      if done {
        offset, fileInodeNo, status, v' :=
          Stop(path, start, dirInode, fileInode, fileName, fileInodeNo, flag, ok, found, offset, ino, slot, curPos, v0,
              v1, dirInodeNo);
        SeenAtFrame(sup.g, v0, v1, v', path, dirInodeNo, start);
      } else {
        v' := GoOn(path, start, curPos, dirInode, ino, flag, v0, v', dirInodeNo, spare);
        AsCompleteFrom(sup.g, v0, v, v1, v', dirInodeNo, start, ino, curPos, path);
        dirInodeNo := ino;
      }
    }

    /** What the end of a lookup tells about lost blocks. */
    lemma EndedDropped(istr: InodeStr, v0: Volume, v: Volume, path: string, no: int, i: nat)
      requires Ended(istr, v0, v, no) && SeenAt(sup.g, v0, v, path, no, i) && Whole(sup.g, v0, v, path)
      requires StopOf(sup.g, v0, path) == (no, ReadAt(sup.g, v0, path, no, i))
      ensures Dropped(sup.g, v0, v, path) && StoppedIn(sup.g, v0, v, path, no)
    {
      assert Sized(sup.g, v0.s.w) && |v0.t| == sup.g.InodeCount() && Sound(sup.g, v) && Later(sup.g, v0, v);
      assert v.t == v0.t[no := v.t[no]];
      hide Sound, Later, Whole, StopOf, ReadAt, RootsSeen, Scanning;
      DroppedIff(sup.g, v0, v, path, no);
    }

    /** Looks up a path from the root directory on. */
    method NameI(path: string, dirInode: InodeStr, fileInode: InodeStr, fileName: array<char>, fileInodeNo0: int,
                 flag: int, ghost v: Volume, ghost spare: nat)
      returns (offset: int, dirInodeNo: int, fileInodeNo: int, status: Status, ghost v': Volume)
      requires Shows(v) && Searchable(sup.g, v, path, flag, spare) && IsInode(sup.g, fileInodeNo0)
      requires Apart(dirInode) && Apart(fileInode) && dirInode != fileInode && dirInode.addr != fileInode.addr
      requires fileName.Length == NAME_LENGTH
      modifies dirInode, dirInode.addr, fileInode, fileInode.addr, fileName
      modifies blocks, sup`nfree, sup.free, sup`ninode, sup.inode, sup.padding, disk, disk.data
      ensures Ended(dirInode, v, v', dirInodeNo) && |v'.free| >= spare
      ensures Whole(sup.g, v, v', path) && Dropped(sup.g, v, v', path) && StoppedIn(sup.g, v, v', path, dirInodeNo)
      ensures status == Done && flag == CREATEFILE ==> Unlisted(sup.g, v, v'.s)
      ensures Answered(sup.g, v, path, flag, fileInodeNo0, status, offset, dirInodeNo, fileInodeNo, fileName[..],
              fileInode.Value())
    {
      ghost var start := SkipSlashes(path, 0);
      dirInodeNo, fileInodeNo := 0, fileInodeNo0;
      LaterAtStart(sup.g, v);
      v' := Enter(dirInode, dirInodeNo, v, v);
      OnTheWayAtStart(sup.g, v, path, flag, spare);
      assert Settled(sup.g, v) && AtName(dirInode, v, v', path, flag, 0, start, spare);
      hide *;
      var curPos := Skip(path, 0);
      while true
        invariant AtName(dirInode, v, v', path, flag, dirInodeNo, curPos, spare) && fileInodeNo == fileInodeNo0
        invariant WholeFrom(sup.g, v, v, 0, SkipSlashes(path, 0), v', dirInodeNo, curPos, path)
        decreases |path| - curPos
      {
        var done, next;
        done, offset, dirInodeNo, fileInodeNo, status, next, v' :=
          Round(path, curPos, dirInode, fileInode, fileName, dirInodeNo, fileInodeNo, flag, v, v', spare);
        if done {
          RoundAnswers(sup.g, v, path, flag, fileInodeNo0, status, offset, dirInodeNo, fileInodeNo, fileName[..],
              fileInode.Value(), curPos);
          EndedDropped(dirInode, v, v', path, dirInodeNo, curPos);
          return;
        }
        curPos := next;
      }
    }
  }
}

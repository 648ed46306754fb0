/** The data-block manager: builds the chain, hands out blocks, counts what is left. */
module DataBlocks {
  import opened Words
  import opened DiskImage
  import opened SuperBlocks
  import opened FreeList

  class DataBlock {
    const sup: Superblock
    const disk: Disk
    /** The blocks that can still be handed out, in that order. */
    ghost var freeList: seq<int>

    ghost predicate Wired()
      reads disk`words, disk.data
    {
      sup.disk == disk && sup.Valid()
    }

    ghost function State(): Store
      requires Wired()
      reads disk`words, disk.data, sup, sup.free, sup.inode, sup.padding
    {
      Store(disk.words, sup.Value())
    }

    ghost predicate Valid()
      reads this, disk`words, disk.data, sup, sup.free, sup.inode, sup.padding
    {
      Wired() && FreeState(sup.g, State(), freeList)
    }

    constructor (sup: Superblock)
      requires sup.Valid()
      ensures Wired() && this.sup == sup
    {
      this.sup, disk := sup, sup.disk;
      freeList := [];
    }

    method InitDataBlock()
      requires Wired()
      modifies this, sup`nfree, disk, disk.data, sup.free, sup.padding
      ensures Valid()
      ensures freeList == Interval(sup.g.DataStart(), sup.g.DataEnd())
      ensures sup.nfree >= 1
      ensures var n, hi := sup.g.dataBlocks, sup.g.DataEnd();
              && sup.nfree == n % 100 + 1 && sup.free[0] == (if n < 100 then 0 else hi - 100 * (n / 100))
              && (forall j :: 1 <= j < sup.nfree ==> sup.free[j] == hi - 100 * (n / 100) - j)
              && LaidOnDisk(disk.words, hi, n)
      ensures sup.Value() == Flushed(old(sup.Value()).(nfree := sup.nfree, free := sup.free[..]))
      ensures SameWords(old(disk.words), disk.words, 0, 128 * sup.g.boot)
      ensures SameWords(old(disk.words), disk.words, 128 * sup.g.InodeStart(), 128 * sup.g.DataStart())
    {
      sup.nfree := 0;
      sup.free[sup.nfree] := 0;
      sup.nfree := sup.nfree + 1;
      BuildChain();
      ghost var s := State();
      hide Denotes, LaidOnDisk;
      sup.UpdateSuperBlockToDisk();
      FreeFrame(sup.g, s, State(), freeList);
      RecordsKept(s.w, disk.words, sup.g.DataStart(), sup.g.DataEnd());
    }

    /** Puts the data blocks into the list, the last one first. */
    method BuildChain()
      requires Wired() && sup.nfree == 1 && sup.free[0] == 0
      modifies this, sup`nfree, disk, disk.data, sup.free
      ensures Valid() && sup.nfree >= 1
      ensures freeList == Interval(sup.g.DataStart(), sup.g.DataEnd())
      ensures sup.Value() == old(sup.Value()).(nfree := sup.nfree, free := sup.free[..])
      ensures SameWords(old(disk.words), disk.words, 0, 128 * sup.g.DataStart())
      ensures LaidInCore(sup.nfree, sup.free[..], sup.g.DataEnd(), sup.g.dataBlocks)
      ensures LaidOnDisk(disk.words, sup.g.DataEnd(), sup.g.dataBlocks)
    {
      var n: int, start := sup.g.dataBlocks, sup.g.DataStart();
      ghost var was, sb := disk.words, sup.Value();
      freeList := [];
      EmptyDenotes(sup.g, State());
      assert Chained(was, sb, n - 1);
      hide Chained, Denotes;
      var i: int := n - 1;
      while i >= 0
        invariant -1 <= i < n && Chained(was, sb, i)
      {
        PushNext(i, start, was, sb);
        i := i - 1;
      }
      ChainEnds(was, sb);
    }

    /** All data blocks above number `i` are in the list. */
    ghost predicate Chained(was: seq<Word>, sb: Super, i: int)
      reads this, disk`words, disk.data, sup, sup.free, sup.inode, sup.padding
    {
      && Valid() && |disk.words| == |was| && sup.nfree >= 1 && -1 <= i < sup.g.dataBlocks
      && freeList == Interval(sup.g.DataStart() + i + 1, sup.g.DataEnd())
      && sup.Value() == sb.(nfree := sup.nfree, free := sup.free[..])
      && SameWords(was, disk.words, 0, 128 * sup.g.DataStart())
      && LaidInCore(sup.nfree, sup.free[..], sup.g.DataEnd(), sup.g.dataBlocks - 1 - i)
      && LaidOnDisk(disk.words, sup.g.DataEnd(), sup.g.dataBlocks - 1 - i)
    }

    lemma ChainEnds(was: seq<Word>, sb: Super)
      requires Chained(was, sb, -1)
      ensures Valid() && |disk.words| == |was| && sup.nfree >= 1
      ensures freeList == Interval(sup.g.DataStart(), sup.g.DataEnd())
      ensures sup.Value() == sb.(nfree := sup.nfree, free := sup.free[..])
      ensures SameWords(was, disk.words, 0, 128 * sup.g.DataStart())
      ensures LaidInCore(sup.nfree, sup.free[..], sup.g.DataEnd(), sup.g.dataBlocks)
      ensures LaidOnDisk(disk.words, sup.g.DataEnd(), sup.g.dataBlocks)
    {
    }

    /** One round of the loop of `InitDataBlock`. */
    method PushNext(i: int, start: int, ghost was: seq<Word>, ghost sb: Super)
      requires Chained(was, sb, i) && i >= 0 && start == sup.g.DataStart()
      modifies this, sup`nfree, disk, disk.data, sup.free
      ensures Chained(was, sb, i - 1)
    {
      IntervalStep(start + i, sup.g.DataEnd());
      LaidStep(disk.words, sup.nfree, sup.free[..], sup.g.DataEnd(), sup.g.dataBlocks - 1 - i, start + i);
      hide LaidInCore, LaidOnDisk, Denotes, Pushed, Disk.Spelled, Disk.Valid, FreeState, Pool, Remaining, Interval;
      Push(i + start);
    }

    /** Records the in-core group in block `b`. */
    method SaveGroup(b: Word)
      requires Wired() && 0 <= sup.nfree <= GROUP && sup.g.InData(b)
      modifies disk, disk.data
      ensures Wired() && disk.words == Splice(old(disk.words), 128 * (b as int), [sup.nfree] + sup.free[..sup.nfree])
    {
      ghost var was, base := disk.words, 128 * (b as int);
      var group := sup.free[..sup.nfree];
      disk.Seek(512 * (b as int));
      disk.Emit(sup.nfree, was, base, []);
      disk.EmitAll(group, was, base, [sup.nfree]);
    }

    /** The body of the loop of `InitDataBlock`. */
    method Push(b: Word)
      requires Valid() && sup.nfree >= 1 && sup.g.InData(b) && b !in freeList
      modifies this, sup`nfree, disk, disk.data, sup.free
      ensures Valid() && sup.nfree >= 1 && freeList == [b] + old(freeList)
      ensures SameWords(old(disk.words), disk.words, 0, 128 * (b as int))
      ensures old(sup.nfree) <= GROUP
              && (disk.words, sup.nfree, sup.free[..]) == Pushed(old(disk.words), old(sup.nfree), old(sup.free[..]), b)
    {
      ghost var s, entries := State(), sup.free[..];
      PushedState(sup.g, s, freeList, b);
      hide FreeState, Disk.Spelled;
      if sup.nfree >= 100 {
        SaveGroup(b);
        sup.nfree := 0;
      }
      sup.free[sup.nfree] := b;
      assert sup.free[..] == entries[sup.nfree := b];
      sup.nfree := sup.nfree + 1;
      freeList := [b] + freeList;
    }

    method CleanBlock(b: Word)
      requires disk.Valid() && |disk.words| == 128 * sup.g.diskBlocks && 0 <= b < sup.g.diskBlocks
      modifies disk, disk.data
      ensures disk.Valid() && disk.words == ZeroBlock(old(disk.words), b)
    {
      ghost var was, base := disk.words, 128 * (b as int);
      disk.Seek(512 * (b as int));
      for i := 0 to 128
        invariant disk.Valid() && disk.pos == 4 * (base + i) && |disk.words| == |was|
        invariant forall k :: 0 <= k < |was| ==> disk.words[k] == if base <= k < base + i then 0 else was[k]
      {
        disk.WriteInt(0, base + i);
      }
    }

    /** Brings the group recorded in block `v` into core. */
    method LoadGroup(v: Word)
      requires Wired() && sup.g.InData(v)
      modifies sup`nfree, disk`pos, sup.free
      ensures sup.nfree == disk.words[128 * (v as int)] && sup.free[..] == Group(disk.words, v)
      ensures sup.free[..] == disk.words[128 * (v as int) + 1..128 * (v as int) + 101]
    {
      ghost var base := 128 * (v as int);
      disk.Seek(512 * (v as int));
      sup.nfree := disk.ReadInt(base);
      sup.Absorb(sup.free, base + 1);
    }

    /** Takes the top entry; the last one of a group brings in the next group. */
    method TakeEntry() returns (r: Grant)
      requires Valid()
      modifies sup`nfree, disk`pos, sup.free
      ensures Wired()
      ensures r.Exhausted? <==> old(freeList) == []
      ensures r.Exhausted? ==> sup.Value() == old(sup.Value()).(nfree := old(sup.nfree) - 1)
      ensures r.Granted? ==> 1 <= old(sup.nfree) <= GROUP && sup.Value() == Popped(old(State()))
      ensures r.Granted? ==> r.block == freeList[0] == old(sup.free[..])[old(sup.nfree) - 1]
    {
      ghost var s := State();
      TopEntry(sup.g, s, freeList);
      hide Remaining, Pool, Disk.Spelled;
      sup.nfree := sup.nfree - 1;
      if sup.nfree < 0 || sup.nfree >= 100 {
        return Exhausted;
      }
      var v := sup.free[sup.nfree];
      if sup.nfree <= 0 && v == 0 {
        return Exhausted;
      }
      if sup.nfree <= 0 {
        LoadGroup(v);
      }
      return Granted(v);
    }

    /** Hands out the head of the free list, or reports that none is left. */
    method GetFreeBlock() returns (r: Grant)
      requires Valid()
      modifies this, sup`nfree, disk, disk.data, sup.free, sup.padding
      ensures Valid()
      ensures (State(), r) == Alloc(sup.g, old(State()))
      ensures freeList == if old(freeList) == [] then [] else old(freeList)[1..]
    {
      AllocTakesHead(sup.g, State(), freeList);
      r := TakeEntry();
      hide Remaining, Pool, Stored, Popped, Disk.Spelled, Superblock.Value;
      if r.Granted? {
        freeList := freeList[1..];
        CleanBlock(r.block);
        sup.UpdateSuperBlockToDisk();
      }
    }

    /** Counts the blocks of the list by following the records. The count is right exactly as long
        as no request has failed; afterwards it is negative. */
    method ReturnFreeSize() returns (size: int)
      requires Valid()
      modifies disk`pos
      ensures Valid() && disk.words == old(disk.words)
      ensures size == |freeList| <==> sup.nfree >= 1
      ensures sup.nfree < 1 ==> size == sup.nfree - 1
    {
      ghost var g, rest := sup.g, if 0 <= sup.nfree <= |freeList| then freeList[sup.nfree..] else [];
      CountedStart(g, State(), freeList);
      assert Wired();
      hide *;
      size := sup.nfree - 1;
      var first := sup.free[0];
      if first == 0 {
        return;
      }
      while true
        invariant Recorded(g, disk.words, first, rest) && size + 1 + |rest| == |freeList|
        decreases |rest|
      {
        RecordCount(g, disk.words, first, rest);
        ghost var base := 128 * (first as int);
        disk.Seek(512 * (first as int));
        var count := disk.ReadInt(base);
        first := disk.ReadInt(base + 1);
        size := size + count;
        if first == 0 {
          return;
        }
        rest := rest[count..];
      }
    }
  }
}

/** Inodes: their 64-byte form on disk, and the in-core cache of free inode numbers. */
module Inodes {
  import opened Words
  import opened DiskImage
  import opened SuperBlocks
  import opened FreeList
  import opened BlockMap

  const INODE_WORDS := 16

  /** The fields of an `InodeStr`. */
  datatype Inode = Inode(mode: UWord, ilink: Word, uid: Half, gid: Half, size: Word, addr: Addrs, atime: Word,
      mtime: Word)

  /** A freshly constructed `InodeStr`. */
  ghost function EmptyInode(): Inode {
    Inode(0, 0, 0, 0, 0, NO_BLOCKS, 0, 0)
  }

  ghost function Encode(v: Inode): (r: seq<Word>)
    ensures |r| == INODE_WORDS
  {
    [Signed(v.mode), v.ilink, Pack(v.uid, v.gid), v.size] + v.addr + [v.atime, v.mtime]
  }

  ghost function Decode(r: seq<Word>): Inode
    requires |r| == INODE_WORDS
  {
    Inode(Unsigned(r[0]), r[1], LowHalf(r[2]), HighHalf(r[2]), r[3], r[4..14], r[14], r[15])
  }

  /** The codec loses nothing in either direction. */
  lemma CodecRoundTrip(v: Inode, r: seq<Word>)
    requires |r| == INODE_WORDS
    ensures Decode(Encode(v)) == v && Encode(Decode(r)) == r
  {
    HalvesRoundTrip(v.uid, v.gid);
    PackRoundTrip(r[2]);
    hide Pack, LowHalf, HighHalf;
    assert Encode(v)[4..14] == v.addr;
    assert r == [r[0], r[1], r[2], r[3]] + r[4..14] + [r[14], r[15]];
  }

  /** First word of inode `no`. */
  function SlotStart(g: Geometry, no: int): int {
    128 * g.InodeStart() + INODE_WORDS * no
  }

  predicate IsInode(g: Geometry, no: int) {
    0 <= no < g.InodeCount()
  }

  lemma SlotInArea(g: Geometry, w: seq<Word>, no: int)
    requires Sized(g, w) && IsInode(g, no)
    ensures 128 * g.InodeStart() <= SlotStart(g, no) && SlotStart(g, no) + INODE_WORDS <= 128 * g.DataStart() <= |w|
  {
  }

  /** The inode that the image holds under a number. */
  ghost function InodeAt(g: Geometry, w: seq<Word>, no: int): Inode
    requires Sized(g, w) && IsInode(g, no)
  {
    SlotInArea(g, w, no);
    Decode(w[SlotStart(g, no)..SlotStart(g, no) + INODE_WORDS])
  }

  lemma DecodedFields(g: Geometry, w: seq<Word>, no: int)
    requires Sized(g, w) && IsInode(g, no)
    ensures SlotStart(g, no) + INODE_WORDS <= |w| && 0 <= SlotStart(g, no) == 128 * (g.boot + 2) + 16 * no
    ensures var a := SlotStart(g, no);
            InodeAt(g, w, no) == Inode(Unsigned(w[a]), w[a + 1], LowHalf(w[a + 2]), HighHalf(w[a + 2]), w[a + 3],
                                       w[a + 4..a + 14], w[a + 14], w[a + 15])
  {
    SlotInArea(g, w, no);
    var a := SlotStart(g, no);
    assert w[a..a + INODE_WORDS][4..14] == w[a + 4..a + 14];
  }

  ghost function WithInode(g: Geometry, w: seq<Word>, no: int, v: Inode): (r: seq<Word>)
    requires Sized(g, w) && IsInode(g, no)
    ensures |r| == |w|
  {
    SlotInArea(g, w, no);
    Splice(w, SlotStart(g, no), Encode(v))
  }

  /** Reading back what was written, and no other slot, nor any word outside the inode area,
      is touched. */
  lemma InodeRoundTrip(g: Geometry, w: seq<Word>, no: int, v: Inode)
    requires Sized(g, w) && IsInode(g, no)
    ensures var w' := WithInode(g, w, no, v);
            && InodeAt(g, w', no) == v
            && (forall k {:trigger InodeAt(g, w', k)} :: IsInode(g, k) && k != no ==>
                 InodeAt(g, w', k) == InodeAt(g, w, k))
            && SameWords(w, w', 0, 128 * g.InodeStart()) && SameWords(w, w', 128 * g.DataStart(), |w|)
  {
    SlotInArea(g, w, no);
    var w' := WithInode(g, w, no, v);
    CodecRoundTrip(v, Encode(v));
    assert w'[SlotStart(g, no)..SlotStart(g, no) + INODE_WORDS] == Encode(v);
    forall k | IsInode(g, k) && k != no
      ensures InodeAt(g, w', k) == InodeAt(g, w, k)
    {
      SlotInArea(g, w, k);
      assert w'[SlotStart(g, k)..SlotStart(g, k) + INODE_WORDS] == w[SlotStart(g, k)..SlotStart(g, k) + INODE_WORDS];
    }
  }

  // ---------------------------------------------------------------- free inodes

  /** `i_mode` is 0 on disk. */
  ghost predicate IsFree(g: Geometry, w: seq<Word>, no: int)
    requires Sized(g, w)
  {
    IsInode(g, no) && Get(w, SlotStart(g, no)) == 0
  }

  lemma FreeMeansModeZero(g: Geometry, w: seq<Word>, no: int)
    requires Sized(g, w) && IsInode(g, no)
    ensures IsFree(g, w, no) <==> InodeAt(g, w, no).mode == 0
  {
    SlotInArea(g, w, no);
  }

  /** The free inodes below `hi`, highest number first: the order of the scan. */
  ghost function FreeBelow(g: Geometry, w: seq<Word>, hi: nat): (r: seq<int>)
    requires Sized(g, w)
    ensures forall i :: 0 <= i < |r| ==> r[i] < hi && IsFree(g, w, r[i])
    ensures forall i, j :: 0 <= i < j < |r| ==> r[i] > r[j]
  {
    if hi == 0 then []
    else (if IsFree(g, w, hi - 1) then [hi - 1] else []) + FreeBelow(g, w, hi - 1)
  }

  lemma {:induction false} FreeBelowHasAll(g: Geometry, w: seq<Word>, hi: nat, no: int)
    requires Sized(g, w) && IsFree(g, w, no) && no < hi
    ensures no in FreeBelow(g, w, hi)
  {
    if no < hi - 1 {
      FreeBelowHasAll(g, w, hi - 1, no);
    }
  }

  /** The cached numbers are different, in range, and free on disk. */
  ghost predicate CacheSound(g: Geometry, s: Store)
    requires Sized(g, s.w)
  {
    && 0 <= s.sb.ninode <= GROUP
    && (forall i :: 0 <= i < s.sb.ninode ==> IsFree(g, s.w, s.sb.inode[i]))
    && (forall i, j :: 0 <= i < j < s.sb.ninode ==> s.sb.inode[i] != s.sb.inode[j])
  }

  ghost predicate Cached(s: Store, no: int) {
    exists i :: 0 <= i < s.sb.ninode && i < GROUP && s.sb.inode[i] == no
  }

  datatype Fetched = Number(no: Word) | NoInode

  /** The in-core fields once an empty cache has been refilled by the scan. */
  ghost function Refilled(g: Geometry, s: Store): Super
    requires Sized(g, s.w)
  {
    if s.sb.ninode > 0 then s.sb
    else
      var found := FreeBelow(g, s.w, g.InodeCount());
      var n := if |found| <= GROUP then |found| else GROUP;
      s.sb.(ninode := n, inode := Overlaid(s.sb.inode, found[..n]))
  }

  /** The array `was` with its front overwritten by `front`. */
  ghost function Overlaid(was: seq<Word>, front: seq<int>): (r: seq<Word>)
    requires |front| <= |was|
    ensures |r| == |was|
    ensures forall i {:trigger r[i]} :: 0 <= i < |was| ==> r[i] == if i < |front| then Wrap(front[i]) else was[i]
  {
    seq(|was|, i requires 0 <= i < |was| => if i < |front| then Wrap(front[i]) else was[i])
  }

  /** The scan has looked at all numbers above `i` and found the free ones among them. */
  ghost predicate ScannedTo(g: Geometry, w: seq<Word>, was: Super, now: Super, i: int, found: seq<int>) {
    && Sized(g, w) && -1 <= i < g.InodeCount() && |found| <= GROUP
    && FoundAbove(g, w, i, found) && LoadedInto(was, now, found)
  }

  ghost predicate FoundAbove(g: Geometry, w: seq<Word>, i: int, found: seq<int>)
    requires Sized(g, w) && -1 <= i
  {
    FreeBelow(g, w, g.InodeCount()) == found + FreeBelow(g, w, i + 1)
  }

  ghost predicate LoadedInto(was: Super, now: Super, found: seq<int>)
    requires |found| <= GROUP
  {
    now == was.(ninode := |found|, inode := Overlaid(was.inode, found))
  }

  lemma ScanStarts(g: Geometry, w: seq<Word>, sb: Super)
    requires Sized(g, w) && sb.ninode == 0
    ensures ScannedTo(g, w, sb, sb, g.InodeCount() - 1, [])
  {
    assert Overlaid(sb.inode, []) == sb.inode;
  }

  /** The numbers found after one step of the scan. */
  ghost function Next(g: Geometry, w: seq<Word>, i: int, found: seq<int>): seq<int>
    requires Sized(g, w)
  {
    if IsFree(g, w, i) then found + [i] else found
  }

  lemma FoundNext(g: Geometry, w: seq<Word>, i: int, found: seq<int>)
    requires Sized(g, w) && 0 <= i && FoundAbove(g, w, i, found)
    ensures FoundAbove(g, w, i - 1, Next(g, w, i, found))
  {
    var below, rest := FreeBelow(g, w, i + 1), FreeBelow(g, w, i);
    assert below == (if IsFree(g, w, i) then [i] else []) + rest;
    hide FreeBelow, IsFree;
    assert Next(g, w, i, found) + rest == found + below;
  }

  lemma LoadedNext(was: Super, now: Super, i: Word, found: seq<int>)
    requires |found| < GROUP && LoadedInto(was, now, found)
    ensures now.ninode == |found|
            && LoadedInto(was, now.(ninode := |found| + 1, inode := now.inode[|found| := i]), found + [i as int])
  {
    assert Overlaid(was.inode, found + [i as int]) == Overlaid(was.inode, found)[|found| := i];
  }

  lemma ScanStep(g: Geometry, w: seq<Word>, was: Super, now: Super, i: Word, found: seq<int>)
    requires ScannedTo(g, w, was, now, i, found) && 0 <= i && |found| < GROUP
    ensures now.ninode == |found|
    ensures ScannedTo(g, w, was, if IsFree(g, w, i) then
            now.(ninode := |found| + 1, inode := now.inode[|found| := i]) else now,
                      i - 1, Next(g, w, i, found))
  {
    FoundNext(g, w, i, found);
    LoadedNext(was, now, i, found);
    hide FoundAbove, LoadedInto, IsFree;
  }

  lemma ScanDone(g: Geometry, s: Store, now: Super, i: int, found: seq<int>)
    requires s.sb.ninode == 0 && ScannedTo(g, s.w, s.sb, now, i, found) && (|found| == GROUP || i == -1)
    ensures now == Refilled(g, s)
  {
    assert FreeBelow(g, s.w, g.InodeCount())[..|found|] == found;
  }

  /** The effect of `FetchFreeInode`. */
  ghost function Fetch(g: Geometry, s: Store): (r: (Store, Fetched))
    requires Sized(g, s.w) && s.sb.ninode <= GROUP
    ensures Sized(g, r.0.w)
  {
    var sb := Refilled(g, s);
    if sb.ninode == 0 then (s.(sb := sb), NoInode)
    else
      var sb' := sb.(ninode := sb.ninode - 1);
      (Store(Stored(g, s.w, sb'), Flushed(sb')), Number(sb.inode[sb.ninode - 1]))
  }

  /** The effect of `FreeInode`. */
  ghost function Free(g: Geometry, s: Store, no: Word): (r: Store)
    requires Sized(g, s.w) && IsInode(g, no) && 0 <= s.sb.ninode
    ensures Sized(g, r.w)
  {
    var w := WithInode(g, s.w, no, EmptyInode());
    var sb := Offered(s.sb, no);
    Store(Stored(g, w, sb), Flushed(sb))
  }

  /** The in-core fields once a released number has been put into the cache, if there is room. */
  ghost function Offered(sb: Super, no: Word): Super
    requires 0 <= sb.ninode
  {
    if sb.ninode < GROUP then sb.(ninode := sb.ninode + 1, inode := sb.inode[sb.ninode := no]) else sb
  }

  /** Two images that agree on the inode area hold the same inodes. */
  lemma SameInodes(g: Geometry, w: seq<Word>, w': seq<Word>, no: int)
    requires Sized(g, w) && |w'| == |w| && SameWords(w, w', 128 * g.InodeStart(), 128 * g.DataStart()) && IsInode(g, no)
    ensures InodeAt(g, w', no) == InodeAt(g, w, no) && (IsFree(g, w', no) <==> IsFree(g, w, no))
  {
    SlotInArea(g, w, no);
    assert w'[SlotStart(g, no)..SlotStart(g, no) + INODE_WORDS] == w[SlotStart(g, no)..SlotStart(g, no) + INODE_WORDS];
  }

  /** A refill loads exactly the highest-numbered free inodes, at most 100, and leaves the cache
      empty only if no inode is free at all. */
  lemma RefillLoadsScan(g: Geometry, s: Store)
    requires Sized(g, s.w) && CacheSound(g, s)
    ensures var r, found := Store(s.w, Refilled(g, s)), FreeBelow(g, s.w, g.InodeCount());
            && CacheSound(g, r)
            && (r.sb.ninode == 0 <==> forall no :: IsInode(g, no) ==> !IsFree(g, s.w, no))
            && (r.sb.ninode == 0 ==> r.sb == s.sb)
            && (s.sb.ninode == 0 ==>
                  && r.sb.ninode == (if |found| <= GROUP then |found| else GROUP)
                  && (forall i :: 0 <= i < r.sb.ninode ==> r.sb.inode[i] == found[i]))
  {
    var found := FreeBelow(g, s.w, g.InodeCount());
    if s.sb.ninode == 0 {
      RefillSound(g, s);
      forall no | IsFree(g, s.w, no)
        ensures found != []
      {
        FreeBelowHasAll(g, s.w, g.InodeCount(), no);
      }
      if found == [] {
        assert Refilled(g, s).inode == s.sb.inode;
      } else {
        assert IsFree(g, s.w, found[0]);
      }
    } else {
      assert IsFree(g, s.w, s.sb.inode[0]);
    }
  }

  lemma RefillSound(g: Geometry, s: Store)
    requires Sized(g, s.w) && s.sb.ninode == 0
    ensures var r, found := Refilled(g, s), FreeBelow(g, s.w, g.InodeCount());
            && CacheSound(g, Store(s.w, r))
            && r.ninode == (if |found| <= GROUP then |found| else GROUP)
            && (forall i :: 0 <= i < r.ninode ==> r.inode[i] == found[i])
  {
    var r, found := Refilled(g, s), FreeBelow(g, s.w, g.InodeCount());
    forall i | 0 <= i < r.ninode
      ensures r.inode[i] == found[i]
    {
      assert IsFree(g, s.w, found[i]);
      assert 8 * g.inodeBlocks < 512 * g.diskBlocks;
    }
  }

  /** `FetchFreeInode` fails exactly when every inode on disk is in use. Otherwise it returns a
      number that is free on disk and removes it from the cache; no inode changes. */
  lemma FetchTakesFree(g: Geometry, s: Store)
    requires Sized(g, s.w) && CacheSound(g, s)
    ensures var (s', r) := Fetch(g, s);
            && CacheSound(g, s')
            && (r == NoInode <==> forall no :: IsInode(g, no) ==> !IsFree(g, s.w, no))
            && (r == NoInode ==> s' == s)
            && (r.Number? ==> IsFree(g, s.w, r.no) && !Cached(s', r.no))
            && (r.Number? && s.sb.ninode > 0 ==> r.no == s.sb.inode[s.sb.ninode - 1])
            && SameWords(s.w, s'.w, 0, 128 * g.boot) && SameWords(s.w, s'.w, 128 * g.InodeStart(), |s.w|)
  {
    RefillLoadsScan(g, s);
    var (s', r) := Fetch(g, s);
    var sb := Refilled(g, s);
    if sb.ninode > 0 {
      forall i | 0 <= i < sb.ninode
        ensures IsFree(g, s'.w, sb.inode[i])
      {
        assert IsFree(g, s.w, sb.inode[i]);
        SameInodes(g, s.w, s'.w, sb.inode[i]);
      }
    }
  }

  /** Which numbers are cached after a fetch: those before it, or those of the scan if there were none,
      without the last one, which is returned. */
  lemma FetchListing(g: Geometry, s: Store)
    requires Sized(g, s.w) && CacheSound(g, s)
    ensures var (s', r), found: seq<int> := Fetch(g, s), FreeBelow(g, s.w, g.InodeCount());
            var L: seq<int> :=
              if s.sb.ninode > 0 then s.sb.inode[..s.sb.ninode] else if |found| <= 100 then found else found[..100];
            if L == [] then r == NoInode && s' == s
            else
              && r == Number(L[|L| - 1]) && s'.sb.ninode == |L| - 1
              && s'.sb.inode[..|L| - 1] == L[..|L| - 1] && s'.sb.nfree == s.sb.nfree && s'.sb.free == s.sb.free
  {
    FetchTakesFree(g, s);
    RefillLoadsScan(g, s);
  }

  /** Which numbers are cached after a release: the same, and the released one last if there is room. */
  lemma FreeListing(g: Geometry, s: Store, no: Word)
    requires Sized(g, s.w) && IsInode(g, no) && 0 <= s.sb.ninode <= 100
    ensures var s', L := Free(g, s, no), s.sb.inode[..s.sb.ninode] + if s.sb.ninode < 100 then [no] else [];
            s'.sb.ninode == |L| && s'.sb.inode[..|L|] == L && s'.sb.nfree == s.sb.nfree && s'.sb.free == s.sb.free
  {
  }

  lemma {:induction false} SameScan(g: Geometry, w: seq<Word>, w': seq<Word>, hi: nat)
    requires Sized(g, w) && |w'| == |w| && SameWords(w, w', 128 * g.InodeStart(), 128 * g.DataStart())
    requires hi <= g.InodeCount()
    ensures FreeBelow(g, w', hi) == FreeBelow(g, w, hi)
  {
    if hi > 0 {
      SameInodes(g, w, w', hi - 1);
      SameScan(g, w, w', hi - 1);
    }
  }

  /** Which number a fetch returns depends on the inode area and the cache only. */
  lemma FetchFrame(g: Geometry, s: Store, s': Store)
    requires Sized(g, s.w) && |s'.w| == |s.w| && SameWords(s.w, s'.w, 128 * g.InodeStart(), 128 * g.DataStart())
    requires s'.sb.ninode == s.sb.ninode <= GROUP && s'.sb.inode == s.sb.inode
    ensures Fetch(g, s').1 == Fetch(g, s).1
  {
    SameScan(g, s.w, s'.w, g.InodeCount());
    hide FreeBelow;
    assert Refilled(g, s').inode == Refilled(g, s).inode && Refilled(g, s').ninode == Refilled(g, s).ninode;
    hide Refilled, Stored, Flushed;
  }

  /** What the superblock shows after a fetch. */
  lemma FetchMirrored(g: Geometry, s: Store)
    requires Sized(g, s.w) && CacheSound(g, s) && Fetch(g, s).1.Number?
    requires -0x8000_0000 <= s.sb.nfree < 0x8000_0000
    ensures Mirrored(g, Fetch(g, s).0.w, Fetch(g, s).0.sb)
  {
    RefillLoadsScan(g, s);
    StoredIsMirrored(g, s.w, Refilled(g, s).(ninode := Refilled(g, s).ninode - 1));
  }

  /** What the superblock shows after a release. */
  lemma FreeMirrored(g: Geometry, s: Store, no: Word)
    requires Sized(g, s.w) && IsInode(g, no) && 0 <= s.sb.ninode < 0x8000_0000
             && -0x8000_0000 <= s.sb.nfree < 0x8000_0000
    ensures Mirrored(g, Free(g, s, no).w, Free(g, s, no).sb)
  {
    StoredIsMirrored(g, WithInode(g, s.w, no, EmptyInode()), Offered(s.sb, no));
  }

  /** Writing an inode that no cache entry names keeps the cache sound. */
  lemma StoreKeepsCache(g: Geometry, s: Store, no: int, v: Inode)
    requires Sized(g, s.w) && CacheSound(g, s) && IsInode(g, no) && (v.mode == 0 || !Cached(s, no))
    ensures CacheSound(g, s.(w := WithInode(g, s.w, no, v)))
    ensures IsFree(g, WithInode(g, s.w, no, v), no) <==> v.mode == 0
    ensures forall k {:trigger IsFree(g, WithInode(g, s.w, no, v), k)} :: k != no ==>
              (IsFree(g, WithInode(g, s.w, no, v), k) <==> IsFree(g, s.w, k))
  {
    var w' := WithInode(g, s.w, no, v);
    InodeRoundTrip(g, s.w, no, v);
    FreeMeansModeZero(g, w', no);
    forall k | k != no
      ensures IsFree(g, w', k) <==> IsFree(g, s.w, k)
    {
      if IsInode(g, k) {
        FreeMeansModeZero(g, s.w, k);
        FreeMeansModeZero(g, w', k);
      }
    }
    forall i | 0 <= i < s.sb.ninode
      ensures IsFree(g, w', s.sb.inode[i])
    {
      assert IsFree(g, s.w, s.sb.inode[i]);
    }
  }

  /** Cache soundness depends on the inode area and the cached numbers only. */
  lemma CacheFrame(g: Geometry, s: Store, s': Store)
    requires Sized(g, s.w) && |s'.w| == |s.w| && SameWords(s.w, s'.w, 128 * g.InodeStart(), 128 * g.DataStart())
    requires s'.sb.ninode == s.sb.ninode && s'.sb.inode == s.sb.inode
    ensures CacheSound(g, s') <==> CacheSound(g, s)
  {
    forall no | IsInode(g, no)
      ensures IsFree(g, s'.w, no) <==> IsFree(g, s.w, no)
    {
      SameInodes(g, s.w, s'.w, no);
    }
  }

  lemma CachePush(g: Geometry, s: Store, no: Word)
    requires Sized(g, s.w) && CacheSound(g, s) && IsFree(g, s.w, no) && s.sb.ninode < GROUP
    ensures var n := s.sb.ninode;
            CacheSound(g, s.(sb := s.sb.(ninode := n + 1, inode := s.sb.inode[n := no]))) <==> !Cached(s, no)
  {
    var n := s.sb.ninode;
    var inode := s.sb.inode[n := no];
    if Cached(s, no) {
      var i :| 0 <= i < n && s.sb.inode[i] == no;
      assert inode[i] == inode[n];
    }
  }

  /** Releasing inode `no` makes exactly that inode free on disk, in the cache or not. */
  lemma FreeReleases(g: Geometry, s: Store, no: Word)
    requires Sized(g, s.w) && IsInode(g, no) && 0 <= s.sb.ninode
    ensures var s' := Free(g, s, no);
            && InodeAt(g, s'.w, no) == EmptyInode()
            && (forall k {:trigger IsFree(g, s'.w, k)} :: IsFree(g, s'.w, k) <==> k == no || IsFree(g, s.w, k))
            && (forall k {:trigger InodeAt(g, s'.w, k)} :: IsInode(g, k) && k != no ==>
                 InodeAt(g, s'.w, k) == InodeAt(g, s.w, k))
            && SameWords(s.w, s'.w, 0, 128 * g.boot) && SameWords(s.w, s'.w, 128 * g.DataStart(), |s.w|)
  {
    var w := WithInode(g, s.w, no, EmptyInode());
    InodeRoundTrip(g, s.w, no, EmptyInode());
    var s' := Free(g, s, no);
    forall k | IsInode(g, k)
      ensures InodeAt(g, s'.w, k) == InodeAt(g, w, k) && (IsFree(g, s'.w, k) <==> k == no || IsFree(g, s.w, k))
    {
      SameInodes(g, w, s'.w, k);
      FreeMeansModeZero(g, s.w, k);
      FreeMeansModeZero(g, w, k);
    }
  }

  /** After a release the cache is free of duplicates exactly if it did not already list the
      number, or is full and drops it. */
  lemma FreeKeepsCache(g: Geometry, s: Store, no: Word)
    requires Sized(g, s.w) && CacheSound(g, s) && IsInode(g, no)
    ensures CacheSound(g, Free(g, s, no)) <==> !Cached(s, no) || s.sb.ninode == GROUP
  {
    var s1 := s.(w := WithInode(g, s.w, no, EmptyInode()));
    StoreKeepsCache(g, s, no, EmptyInode());
    var n := s.sb.ninode;
    if n < GROUP {
      CachePush(g, s1, no);
      CacheFrame(g, s1.(sb := s.sb.(ninode := n + 1, inode := s.sb.inode[n := no])), Free(g, s, no));
    } else {
      CacheFrame(g, s1, Free(g, s, no));
    }
  }

  /** It does happen: releasing the only cached number hands it out twice in a row. */
  lemma ReleasedTwice(sb: Super)
    requires sb.ninode == 1 && sb.inode[0] == 5
    ensures var g, s := Geometry(1, 1, 3, 7), Store(seq(896, _ => 0), sb);
            && Sized(g, s.w) && CacheSound(g, s) && !CacheSound(g, Free(g, s, 5))
            && var (s1, r1) := Fetch(g, Free(g, s, 5)); r1 == Number(5) && Fetch(g, s1).1 == Number(5)
  {
    var g, s := Geometry(1, 1, 3, 7), Store(seq(896, _ => 0), sb);
    assert s.w[SlotStart(g, 5)] == 0 && IsFree(g, s.w, sb.inode[0]) && Cached(s, 5);
    FreeKeepsCache(g, s, 5);
    FreeListing(g, s, 5);
    var s0 := Free(g, s, 5);
    assert s0.sb.inode[..2] == sb.inode[..1] + [5] && s0.sb.inode[..2][0] == 5 && s0.sb.inode[..2][1] == 5;
    hide Free, Fetch, CacheSound, IsFree;
    FetchTop(g, s0);
    FetchTop(g, Fetch(g, s0).0);
  }

  /** A fetch from a cache that lists something, sound or not. */
  lemma FetchTop(g: Geometry, s: Store)
    requires Sized(g, s.w) && 0 < s.sb.ninode <= 100
    ensures var (s', r) := Fetch(g, s);
            && r == Number(s.sb.inode[s.sb.ninode - 1])
            && s'.sb.ninode == s.sb.ninode - 1 && s'.sb.inode == s.sb.inode
  {
  }

  /** After a client stored inode `no`, a scan lists the number exactly if `i_mode` was left 0. */
  lemma ListedIffUnmarked(g: Geometry, w: seq<Word>, no: int, v: Inode)
    requires Sized(g, w) && IsInode(g, no)
    ensures no in FreeBelow(g, WithInode(g, w, no, v), g.InodeCount()) <==> v.mode == 0
  {
    var w' := WithInode(g, w, no, v);
    InodeRoundTrip(g, w, no, v);
    FreeMeansModeZero(g, w', no);
    if IsFree(g, w', no) {
      FreeBelowHasAll(g, w', g.InodeCount(), no);
    }
  }

  // ---------------------------------------------------------------- initialisation

  /** The image with the mode words of the first `n` inodes cleared. */
  ghost function ModesCleared(g: Geometry, w: seq<Word>, n: nat): (r: seq<Word>)
    requires Sized(g, w) && n <= g.InodeCount()
    ensures Sized(g, r)
  {
    if n == 0 then w else ModesCleared(g, w, n - 1)[SlotStart(g, n - 1) := 0]
  }

  /** Clearing the modes frees every inode and changes no other field and no other area. */
  lemma {:induction false} ClearedFreesAll(g: Geometry, w: seq<Word>, n: nat)
    requires Sized(g, w) && n <= g.InodeCount()
    ensures var w' := ModesCleared(g, w, n);
            && (forall k {:trigger InodeAt(g, w', k)} :: 0 <= k < n ==>
                 InodeAt(g, w', k) == InodeAt(g, w, k).(mode := 0))
            && (forall k {:trigger InodeAt(g, w', k)} :: n <= k && IsInode(g, k) ==>
                 InodeAt(g, w', k) == InodeAt(g, w, k))
            && SameWords(w, w', 0, 128 * g.InodeStart()) && SameWords(w, w', 128 * g.DataStart(), |w|)
  {
    if n > 0 {
      ClearedFreesAll(g, w, n - 1);
      var w1, w' := ModesCleared(g, w, n - 1), ModesCleared(g, w, n);
      forall k | IsInode(g, k)
        ensures InodeAt(g, w', k) == if k == n - 1 then InodeAt(g, w1, k).(mode := 0) else InodeAt(g, w1, k)
      {
        SlotInArea(g, w, k);
        var a := SlotStart(g, k);
        if k == n - 1 {
          assert w'[a..a + INODE_WORDS][4..14] == w1[a..a + INODE_WORDS][4..14];
        } else {
          assert w'[a..a + INODE_WORDS] == w1[a..a + INODE_WORDS];
        }
      }
    }
  }

  /** The numbers that `CreatMngArray` puts into the cache: the 99 last inodes, and 0 on top. */
  ghost function FirstNumbers(count: int): (r: seq<Word>)
    requires 0 <= count < 0x8000_0000
    ensures |r| == GROUP
    ensures forall i {:trigger r[i]} :: 0 <= i < GROUP ==> r[i] == if i < GROUP - 1 then count - 1 - i else 0
  {
    seq(GROUP, i requires 0 <= i < GROUP => if i < GROUP - 1 then count - 1 - i else 0)
  }

  /** The cache is sound if the table is large enough for it, and only then. */
  ghost predicate SoundIfLarge(g: Geometry, s: Store)
    requires Sized(g, s.w)
  {
    CacheSound(g, s) <==> g.InodeCount() >= GROUP
  }

  /** The initial cache is sound exactly if there are at least 100 inodes; the first fetch then
      returns inode 0, the root directory. */
  lemma InitialCache(g: Geometry, s: Store)
    requires Sized(g, s.w) && s.sb.ninode == GROUP && s.sb.inode == FirstNumbers(g.InodeCount())
    requires forall no :: IsInode(g, no) ==> IsFree(g, s.w, no)
    ensures SoundIfLarge(g, s) && Fetch(g, s).1 == Number(0)
  {
    var n := g.InodeCount();
    assert s.sb.inode[GROUP - 1] == 0;
    if n < GROUP {
      assert s.sb.inode[GROUP - 2] == n - 99;
      if n == 99 {
        assert s.sb.inode[98] == 0;
      }
    }
  }

  /** It does happen that it is not: with one block of inodes the second number handed out is -91. */
  lemma SmallTable(sb: Super)
    ensures var g, w := Geometry(1, 1, 3, 7), seq(896, _ => 0);
            var s := Store(w, sb.(ninode := GROUP, inode := FirstNumbers(g.InodeCount())));
            && Sized(g, w) && (forall no :: IsInode(g, no) ==> IsFree(g, w, no)) && !CacheSound(g, s)
            && Fetch(g, s).1 == Number(0) && Fetch(g, Fetch(g, s).0).1 == Number(-91)
  {
    var g, w := Geometry(1, 1, 3, 7), seq(896, _ => 0);
    var s := Store(w, sb.(ninode := GROUP, inode := FirstNumbers(g.InodeCount())));
    forall no | IsInode(g, no)
      ensures IsFree(g, w, no)
    {
      assert 0 <= SlotStart(g, no) < |w|;
    }
    InitialCache(g, s);
    assert s.sb.inode[98] == -91;
  }

  /** The state that `initInodeManager` leaves. */
  lemma InitialState(g: Geometry, w: seq<Word>, s: Store)
    requires Sized(g, w) && |s.w| == |w| && s.sb.ninode == GROUP && s.sb.inode == FirstNumbers(g.InodeCount())
    requires SameWords(ModesCleared(g, w, g.InodeCount()), s.w, 128 * g.InodeStart(), 128 * g.DataStart())
    ensures Fetch(g, s).1 == Number(0) && SoundIfLarge(g, s)
    ensures forall no {:trigger IsFree(g, s.w, no)} :: IsInode(g, no) ==> IsFree(g, s.w, no)
    ensures forall no {:trigger InodeAt(g, s.w, no)} :: IsInode(g, no) ==>
            InodeAt(g, s.w, no) == InodeAt(g, w, no).(mode := 0)
  {
    InitialInodes(g, w, s.w);
    hide ModesCleared, Fetch, IsFree, CacheSound, InodeAt, FirstNumbers, SameWords;
    InitialCache(g, s);
  }

  lemma InitialInodes(g: Geometry, w: seq<Word>, w': seq<Word>)
    requires Sized(g, w) && |w'| == |w|
    requires SameWords(ModesCleared(g, w, g.InodeCount()), w', 128 * g.InodeStart(), 128 * g.DataStart())
    ensures forall no {:trigger IsFree(g, w', no)} :: IsInode(g, no) ==> IsFree(g, w', no)
    ensures forall no {:trigger InodeAt(g, w', no)} :: IsInode(g, no) ==>
            InodeAt(g, w', no) == InodeAt(g, w, no).(mode := 0)
  {
    hide ModesCleared, IsFree, InodeAt, SameWords;
    forall no | IsInode(g, no)
      ensures IsFree(g, w', no) && InodeAt(g, w', no) == InodeAt(g, w, no).(mode := 0)
    {
      InitialInode(g, w, w', no);
    }
  }

  lemma InitialInode(g: Geometry, w: seq<Word>, w': seq<Word>, no: int)
    requires Sized(g, w) && |w'| == |w| && IsInode(g, no)
    requires SameWords(ModesCleared(g, w, g.InodeCount()), w', 128 * g.InodeStart(), 128 * g.DataStart())
    ensures IsFree(g, w', no) && InodeAt(g, w', no) == InodeAt(g, w, no).(mode := 0)
  {
    hide ModesCleared, IsFree, InodeAt;
    ClearedIsFree(g, w, no);
    SameInodes(g, ModesCleared(g, w, g.InodeCount()), w', no);
  }

  lemma ClearedIsFree(g: Geometry, w: seq<Word>, no: int)
    requires Sized(g, w) && IsInode(g, no)
    ensures var w' := ModesCleared(g, w, g.InodeCount());
            IsFree(g, w', no) && InodeAt(g, w', no) == InodeAt(g, w, no).(mode := 0)
  {
    ClearedFreesAll(g, w, g.InodeCount());
    FreeMeansModeZero(g, ModesCleared(g, w, g.InodeCount()), no);
  }

  // ---------------------------------------------------------------- whole runs

  /** `Claim` fetches a number and stores an inode under it, `Remove` releases a number. */
  datatype InodeOp = Claim(v: Inode) | Remove(no: Word)

  /** Clients mark what they fetch and release only what is in use. */
  ghost predicate Disciplined(op: InodeOp) {
    op.Claim? ==> op.v.mode != 0
  }

  ghost function ApplyInode(g: Geometry, s: Store, op: InodeOp): (r: Store)
    requires Sized(g, s.w) && s.sb.ninode <= GROUP
    ensures Sized(g, r.w)
  {
    match op
    case Claim(v) =>
      var (s', r) := Fetch(g, s);
      if r.Number? && IsInode(g, r.no) then s'.(w := WithInode(g, s'.w, r.no, v)) else s'
    case Remove(no) =>
      if IsInode(g, no) && !IsFree(g, s.w, no) && 0 <= s.sb.ninode then Free(g, s, no) else s
  }

  /** A step keeps the cache sound. A creation takes a number that was free, a removal frees its
      number, and no other number changes sides. */
  lemma InodeStep(g: Geometry, s: Store, op: InodeOp)
    requires Sized(g, s.w) && CacheSound(g, s) && Disciplined(op)
    ensures var s' := ApplyInode(g, s, op);
            && CacheSound(g, s')
            && forall k {:trigger IsFree(g, s'.w, k)} :: IsFree(g, s'.w, k) <==>
                 if op.Claim? then IsFree(g, s.w, k) && Fetch(g, s).1 != Number(k)
                 else (k == op.no && IsInode(g, k)) || IsFree(g, s.w, k)
  {
    match op
    case Claim(v) =>
      FetchTakesFree(g, s);
      var (s1, r) := Fetch(g, s);
      forall k
        ensures IsFree(g, s1.w, k) <==> IsFree(g, s.w, k)
      {
        if IsInode(g, k) {
          SameInodes(g, s.w, s1.w, k);
        }
      }
      if r.Number? {
        StoreKeepsCache(g, s1, r.no, v);
      }
    case Remove(no) =>
      if IsInode(g, no) && !IsFree(g, s.w, no) {
        FreeReleases(g, s, no);
        FreeKeepsCache(g, s, no);
      }
  }

  ghost function RunInodes(g: Geometry, s: Store, ops: seq<InodeOp>): (r: Store)
    requires Sized(g, s.w) && CacheSound(g, s) && forall i :: 0 <= i < |ops| ==> Disciplined(ops[i])
    ensures Sized(g, r.w) && CacheSound(g, r)
    decreases |ops|
  {
    if ops == [] then s
    else
      var s1 := RunInodes(g, s, ops[..|ops| - 1]);
      InodeStep(g, s1, ops[|ops| - 1]);
      ApplyInode(g, s1, ops[|ops| - 1])
  }

  /** A number in use stays in use until it is removed. */
  lemma {:induction false} StaysInUse(g: Geometry, s: Store, ops: seq<InodeOp>, no: Word)
    requires Sized(g, s.w) && CacheSound(g, s) && forall i :: 0 <= i < |ops| ==> Disciplined(ops[i])
    requires IsInode(g, no) && !IsFree(g, s.w, no) && Remove(no) !in ops
    ensures !IsFree(g, RunInodes(g, s, ops).w, no)
    decreases |ops|
  {
    hide ApplyInode, CacheSound, IsFree;
    if ops != [] {
      StaysInUse(g, s, ops[..|ops| - 1], no);
      var s1, op := RunInodes(g, s, ops[..|ops| - 1]), ops[|ops| - 1];
      assert op in ops && op != Remove(no);
      StepKeepsUse(g, s1, op, no);
    }
  }

  lemma StepKeepsUse(g: Geometry, s: Store, op: InodeOp, no: Word)
    requires Sized(g, s.w) && CacheSound(g, s) && Disciplined(op) && !IsFree(g, s.w, no) && op != Remove(no)
    ensures !IsFree(g, ApplyInode(g, s, op).w, no)
  {
    InodeStep(g, s, op);
  }

  /** No number is handed out twice: once a creation has returned it, no later fetch returns it
      in any run in which it is not removed. */
  lemma NeverReissued(g: Geometry, s: Store, v: Inode, ops: seq<InodeOp>)
    requires Sized(g, s.w) && CacheSound(g, s) && v.mode != 0 && forall i :: 0 <= i < |ops| ==> Disciplined(ops[i])
    requires Fetch(g, s).1.Number? && Remove(Fetch(g, s).1.no) !in ops
    ensures CacheSound(g, ApplyInode(g, s, Claim(v)))
    ensures Fetch(g, RunInodes(g, ApplyInode(g, s, Claim(v)), ops)).1 != Fetch(g, s).1
  {
    var no := Fetch(g, s).1.no;
    FetchTakesFree(g, s);
    InodeStep(g, s, Claim(v));
    var s1 := ApplyInode(g, s, Claim(v));
    StaysInUse(g, s1, ops, no);
    FetchTakesFree(g, RunInodes(g, s1, ops));
  }

  // ---------------------------------------------------------------- the order of fetches

  /** Without one of its numbers the scan finds the others. */
  lemma {:induction false} ScanWithout(g: Geometry, w: seq<Word>, w': seq<Word>, hi: nat, A: seq<int>, no: int,
                                       B: seq<int>)
    requires Sized(g, w) && Sized(g, w') && FreeBelow(g, w, hi) == A + [no] + B
    requires forall k {:trigger IsFree(g, w', k)} :: IsFree(g, w', k) <==> IsFree(g, w, k) && k != no
    ensures FreeBelow(g, w', hi) == A + B
    decreases hi
  {
    hide IsFree, FreeBelow;
    assert |A + [no] + B| > 0;
    ScanNotEmpty(g, w, hi);
    var x, rest := hi - 1, FreeBelow(g, w, hi - 1);
    ScanUnfolds(g, w, hi);
    ScanUnfolds(g, w', hi);
    if !IsFree(g, w, x) {
      ScanWithout(g, w, w', x, A, no, B);
    } else if A == [] {
      HeadGoes(x, rest, no, B);
      ScanAgrees(g, w, w', x, no);
    } else {
      HeadStays(x, rest, A, no, B);
      NotTwice(g, w, x, rest, A, no, B);
      ScanWithout(g, w, w', x, A[1..], no, B);
    }
  }

  lemma ScanNotEmpty(g: Geometry, w: seq<Word>, hi: nat)
    requires Sized(g, w) && |FreeBelow(g, w, hi)| > 0
    ensures hi > 0
  {
  }

  lemma NotTwice(g: Geometry, w: seq<Word>, x: nat, rest: seq<int>, A: seq<int>, no: int, B: seq<int>)
    requires Sized(g, w) && rest == FreeBelow(g, w, x) && A != [] && rest == A[1..] + [no] + B
    ensures no < x
  {
    assert rest[|A| - 1] == no;
  }

  lemma ScanUnfolds(g: Geometry, w: seq<Word>, hi: nat)
    requires Sized(g, w) && hi > 0
    ensures FreeBelow(g, w, hi) == if IsFree(g, w, hi - 1) then [hi - 1] + FreeBelow(g, w, hi - 1)
                                   else FreeBelow(g, w, hi - 1)
  {
  }

  lemma HeadGoes(x: int, rest: seq<int>, no: int, B: seq<int>)
    requires [x] + rest == [] + [no] + B
    ensures x == no && rest == B && [] + B == B
  {
    var L := [x] + rest;
    assert L[0] == x && L[1..] == rest;
    assert L == [no] + B && L[1..] == B;
  }

  lemma HeadStays(x: int, rest: seq<int>, A: seq<int>, no: int, B: seq<int>)
    requires A != [] && [x] + rest == A + [no] + B
    ensures A[0] == x && rest == A[1..] + [no] + B && A + B == [x] + (A[1..] + B)
  {
    var L := [x] + rest;
    assert L[0] == x && L[1..] == rest;
    assert (A + [no] + B)[1..] == A[1..] + [no] + B;
  }

  lemma {:induction false} ScanAgrees(g: Geometry, w: seq<Word>, w': seq<Word>, hi: nat, no: int)
    requires Sized(g, w) && Sized(g, w') && no >= hi
    requires forall k {:trigger IsFree(g, w', k)} :: IsFree(g, w', k) <==> IsFree(g, w, k) && k != no
    ensures FreeBelow(g, w', hi) == FreeBelow(g, w, hi)
  {
    hide IsFree;
    if hi > 0 {
      ScanAgrees(g, w, w', hi - 1, no);
    }
  }

  /** The end of hundred number `q` of `n` numbers. */
  function Top(n: nat, q: nat): nat {
    if 100 * q + 100 <= n then 100 * q + 100 else n
  }

  /** After `100 * q + r` creations from an empty cache, when the scan found `F`: the first `q` hundreds
      are used up, and the last `r` numbers of the next one. */
  ghost predicate InRun(g: Geometry, s: Store, F: seq<int>, q: nat, r: nat) {
    && Sized(g, s.w) && CacheSound(g, s) && r < 100 && 100 * q + r <= |F|
    && FreeBelow(g, s.w, g.InodeCount()) == Hundred(F, q, r) + F[Top(|F|, q)..]
    && s.sb.inode[..s.sb.ninode] == if r == 0 then [] else Hundred(F, q, r)
  }

  /** What is left of hundred number `q` after `r` of its numbers are gone. */
  ghost function Hundred(F: seq<int>, q: nat, r: nat): (h: seq<int>)
    requires r < 100 && 100 * q + r <= |F|
    ensures |h| == Top(|F|, q) - r - 100 * q <= 100 && (h == [] <==> 100 * q + r == |F|)
    ensures h != [] ==> h[|h| - 1] == F[if 100 * q + 100 <= |F| then 100 * q + 99 - r else |F| - 1 - r]
  {
    F[100 * q..Top(|F|, q) - r]
  }

  /** The numbers that the next fetches return, the last one first. */
  ghost function Waiting(g: Geometry, s: Store): seq<int>
    requires Sized(g, s.w) && 0 <= s.sb.ninode <= GROUP
  {
    var found := FreeBelow(g, s.w, g.InodeCount());
    if s.sb.ninode > 0 then s.sb.inode[..s.sb.ninode] else if |found| <= 100 then found else found[..100]
  }

  lemma FetchWaiting(g: Geometry, s: Store)
    requires Sized(g, s.w) && CacheSound(g, s)
    ensures var L, (s', r) := Waiting(g, s), Fetch(g, s);
            if L == [] then r == NoInode && s' == s
            else r == Number(L[|L| - 1]) && s'.sb.ninode == |L| - 1 && s'.sb.inode[..|L| - 1] == L[..|L| - 1]
  {
    FetchListing(g, s);
  }

  lemma WaitingInRun(g: Geometry, s: Store, F: seq<int>, q: nat, r: nat)
    requires InRun(g, s, F, q, r)
    ensures Waiting(g, s) == Hundred(F, q, r)
  {
    var t := Top(|F|, q);
    hide FreeBelow, CacheSound;
    if r == 0 {
      assert Hundred(F, q, 0) + F[t..] == F[100 * q..];
      assert t < |F| ==> F[100 * q..][..100] == F[100 * q..t];
    } else if Hundred(F, q, r) == [] {
      assert FreeBelow(g, s.w, g.InodeCount()) == [];
    }
  }

  /** The next fetch takes the last number that is left of the hundred, and fails if there is none. */
  lemma NextInRun(g: Geometry, s: Store, F: seq<int>, q: nat, r: nat)
    requires InRun(g, s, F, q, r)
    ensures var h, (s', x) := Hundred(F, q, r), Fetch(g, s);
            if h == [] then s' == s && x == NoInode
            else x == Number(h[|h| - 1]) && s'.sb.ninode == |h| - 1 && s'.sb.inode[..|h| - 1] == h[..|h| - 1]
  {
    FetchWaiting(g, s);
    WaitingInRun(g, s, F, q, r);
    hide Waiting, Fetch, Hundred, CacheSound, InRun;
  }

  lemma ClaimInRun(g: Geometry, s: Store, F: seq<int>, q: nat, r: nat, v: Inode)
    requires InRun(g, s, F, q, r) && 100 * q + r < |F| && v.mode != 0
    ensures var s' := ApplyInode(g, s, Claim(v));
            if r < 99 then InRun(g, s', F, q, r + 1) else InRun(g, s', F, q + 1, 0)
  {
    var h, s' := Hundred(F, q, r), ApplyInode(g, s, Claim(v));
    NextInRun(g, s, F, q, r);
    InodeStep(g, s, Claim(v));
    FetchTakesFree(g, s);
    Shorter(F, q, r);
    hide Fetch, CacheSound, IsFree, FreeBelow, Top, Hundred;
    ScanWithout(g, s.w, s'.w, g.InodeCount(), h[..|h| - 1], h[|h| - 1], F[Top(|F|, q)..]);
  }

  /** Cutting the last number off a hundred. */
  lemma Shorter(F: seq<int>, q: nat, r: nat)
    requires r < 100 && 100 * q + r < |F|
    ensures var h, t := Hundred(F, q, r), Top(|F|, q);
            && h != [] && h + F[t..] == h[..|h| - 1] + [h[|h| - 1]] + F[t..]
            && if r < 99 then h[..|h| - 1] == Hundred(F, q, r + 1)
               else h[..|h| - 1] == [] && [] + F[t..] == Hundred(F, q + 1, 0) + F[Top(|F|, q + 1)..]
  {
    var h, t := Hundred(F, q, r), Top(|F|, q);
    assert h == h[..|h| - 1] + [h[|h| - 1]];
    if r == 99 {
      assert t == 100 * (q + 1);
      assert F[t..] == F[t..Top(|F|, q + 1)] + F[Top(|F|, q + 1)..];
    }
  }

  /** The state after clients have created and marked the given inodes. */
  ghost function AfterClaims(g: Geometry, s: Store, vs: seq<Inode>): (r: Store)
    requires Sized(g, s.w) && CacheSound(g, s) && forall i :: 0 <= i < |vs| ==> vs[i].mode != 0
    ensures Sized(g, r.w) && CacheSound(g, r)
    ensures r == RunInodes(g, s, seq(|vs|, i requires 0 <= i < |vs| => Claim(vs[i])))
  {
    RunInodes(g, s, seq(|vs|, i requires 0 <= i < |vs| => Claim(vs[i])))
  }

  lemma LastClaim(g: Geometry, s: Store, vs: seq<Inode>)
    requires Sized(g, s.w) && CacheSound(g, s) && vs != [] && forall i :: 0 <= i < |vs| ==> vs[i].mode != 0
    ensures AfterClaims(g, s, vs) == ApplyInode(g, AfterClaims(g, s, vs[..|vs| - 1]), Claim(vs[|vs| - 1]))
  {
    var n := |vs| - 1;
    var before := vs[..n];
    var ops := seq(|vs|, i requires 0 <= i < |vs| => Claim(vs[i]));
    assert ops[..n] == seq(n, i requires 0 <= i < n => Claim(before[i]));
  }

  lemma {:induction false} RunOfClaims(g: Geometry, s: Store, F: seq<int>, vs: seq<Inode>, q: nat, r: nat)
    requires Sized(g, s.w) && CacheSound(g, s) && s.sb.ninode == 0 && F == FreeBelow(g, s.w, g.InodeCount())
    requires forall i :: 0 <= i < |vs| ==> vs[i].mode != 0
    requires |vs| == 100 * q + r && r < 100 && |vs| <= |F|
    ensures InRun(g, AfterClaims(g, s, vs), F, q, r)
    decreases |vs|
  {
    hide RunInodes, ApplyInode, Fetch, FreeBelow, Hundred, InRun, CacheSound, AfterClaims;
    if vs == [] {
      NoClaims(g, s, F);
    } else {
      var q', r' := if r > 0 then q else q - 1, if r > 0 then r - 1 else 99;
      LastClaim(g, s, vs);
      RunOfClaims(g, s, F, vs[..|vs| - 1], q', r');
      ClaimInRun(g, AfterClaims(g, s, vs[..|vs| - 1]), F, q', r', vs[|vs| - 1]);
    }
  }

  lemma EmptyRun(g: Geometry, s: Store)
    requires Sized(g, s.w) && CacheSound(g, s)
    ensures AfterClaims(g, s, []) == s
  {
  }

  lemma NoClaims(g: Geometry, s: Store, F: seq<int>)
    requires Sized(g, s.w) && CacheSound(g, s) && s.sb.ninode == 0 && F == FreeBelow(g, s.w, g.InodeCount())
    ensures AfterClaims(g, s, []) == s && InRun(g, s, F, 0, 0)
  {
    EmptyRun(g, s);
    assert F[0..Top(|F|, 0)] + F[Top(|F|, 0)..] == F;
  }

  /** Once all numbers are taken nothing changes any more. */
  lemma {:induction false} RunDry(g: Geometry, s: Store, F: seq<int>, vs: seq<Inode>)
    requires Sized(g, s.w) && CacheSound(g, s) && s.sb.ninode == 0 && F == FreeBelow(g, s.w, g.InodeCount())
    requires |vs| >= |F| && forall i :: 0 <= i < |vs| ==> vs[i].mode != 0
    ensures InRun(g, AfterClaims(g, s, vs), F, |F| / 100, |F| % 100)
    decreases |vs|
  {
    if |vs| == |F| {
      RunOfClaims(g, s, F, vs, |F| / 100, |F| % 100);
    } else {
      var before := AfterClaims(g, s, vs[..|vs| - 1]);
      LastClaim(g, s, vs);
      RunDry(g, s, F, vs[..|vs| - 1]);
      NextInRun(g, before, F, |F| / 100, |F| % 100);
      hide InRun, CacheSound, AfterClaims, RunInodes, FreeBelow;
    }
  }

  /** Closed form of whole runs: clients that mark what they fetch get the free numbers, which a scan
      finds in descending order, a hundred at a time from the highest ones down, and each hundred in
      ascending order; after the last free number every fetch fails. */
  lemma FetchRun(g: Geometry, s: Store, F: seq<int>, vs: seq<Inode>, q: nat, r: nat)
    requires Sized(g, s.w) && CacheSound(g, s) && s.sb.ninode == 0 && F == FreeBelow(g, s.w, g.InodeCount())
    requires |vs| == 100 * q + r && r < 100 && forall i :: 0 <= i < |vs| ==> vs[i].mode != 0
    ensures Fetch(g, AfterClaims(g, s, vs)).1 ==
            if |vs| >= |F| then NoInode
            else if 100 * q + 100 <= |F| then Number(F[100 * q + 99 - r]) else Number(F[|F| - 1 - r])
  {
    hide InRun, Hundred, CacheSound, FreeBelow, Fetch, AfterClaims;
    if |vs| < |F| {
      RunOfClaims(g, s, F, vs, q, r);
      NextInRun(g, AfterClaims(g, s, vs), F, q, r);
    } else {
      RunDry(g, s, F, vs);
      NextInRun(g, AfterClaims(g, s, vs), F, |F| / 100, |F| % 100);
    }
  }

  /** The cache lists just these numbers. */
  ghost predicate Lists(s: Store, L: seq<int>) {
    s.sb.ninode == |L| <= 100 && s.sb.inode[..|L|] == L
  }

  lemma {:induction false} CachedListing(g: Geometry, s: Store, vs: seq<Inode>, L: seq<int>, M: seq<int>)
    requires Sized(g, s.w) && CacheSound(g, s) && Lists(s, L + M) && |vs| == |M|
    requires forall i :: 0 <= i < |vs| ==> vs[i].mode != 0
    ensures Lists(AfterClaims(g, s, vs), L)
    decreases |vs|
  {
    hide Fetch, AfterClaims, CacheSound, ApplyInode, Lists;
    if vs == [] {
      EmptyRun(g, s);
      assert L + M == L;
    } else {
      assert L + M == L + [M[0]] + M[1..];
      LastClaim(g, s, vs);
      CachedListing(g, s, vs[..|vs| - 1], L + [M[0]], M[1..]);
      CachedStep(g, AfterClaims(g, s, vs[..|vs| - 1]), vs[|vs| - 1], L, M[0]);
    }
  }

  lemma CachedStep(g: Geometry, s: Store, v: Inode, L: seq<int>, x: int)
    requires Sized(g, s.w) && CacheSound(g, s) && Lists(s, L + [x])
    ensures Lists(ApplyInode(g, s, Claim(v)), L)
  {
    FetchListing(g, s);
    assert (L + [x])[..|L|] == L;
  }

  lemma CachedNext(g: Geometry, s: Store, L: seq<int>)
    requires Sized(g, s.w) && CacheSound(g, s) && Lists(s, L) && L != []
    ensures Fetch(g, s).1.Number? && Fetch(g, s).1.no == L[|L| - 1]
  {
    FetchListing(g, s);
  }

  /** As long as there are cached numbers, they are handed out from the last one to the first. */
  lemma CachedRun(g: Geometry, s: Store, vs: seq<Inode>)
    requires Sized(g, s.w) && CacheSound(g, s) && |vs| <= s.sb.ninode && forall i :: 0 <= i < |vs| ==> vs[i].mode != 0
    ensures var s', n := AfterClaims(g, s, vs), s.sb.ninode - |vs|;
            && s'.sb.ninode == n && s'.sb.inode[..n] == s.sb.inode[..n]
            && (n > 0 ==> Fetch(g, s').1 == Number(s.sb.inode[n - 1]))
  {
    var n := s.sb.ninode - |vs|;
    var L, M := s.sb.inode[..n], s.sb.inode[n..s.sb.ninode];
    assert L + M == s.sb.inode[..s.sb.ninode];
    hide Fetch, AfterClaims, CacheSound;
    CachedListing(g, s, vs, L, M);
    if n > 0 {
      CachedNext(g, AfterClaims(g, s, vs), L);
    }
  }
}

/** The grouped free-block list: what the in-core array and the chain of group records inside
    the free blocks denote, and allocation as removal of the head of that list. */
module FreeList {
  import opened Words
  import opened DiskImage
  import opened SuperBlocks

  /** The disk image together with the in-core superblock. */
  datatype Store = Store(w: seq<Word>, sb: Super)

  /** What `GetFreeBlock` returns; `Exhausted` stands for its exceptions. */
  datatype Grant = Granted(block: Word) | Exhausted

  ghost predicate Sized(g: Geometry, w: seq<Word>) {
    g.Valid() && |w| == 128 * g.diskBlocks
  }

  /** The two images hold the same words in block `b`. */
  ghost predicate SameBlock(w: seq<Word>, w': seq<Word>, b: int)
    requires |w| == |w'|
  {
    forall i {:trigger w'[i]} :: 128 * b <= i < 128 * b + 128 && 0 <= i < |w| ==> w'[i] == w[i]
  }

  /** The two images hold the same words from `lo` up to `hi`. */
  ghost predicate SameWords(w: seq<Word>, w': seq<Word>, lo: int, hi: int)
    requires |w| == |w'| && 0 <= lo && hi <= |w|
  {
    forall i {:trigger w'[i]} :: lo <= i < hi ==> w'[i] == w[i]
  }

  ghost predicate ZeroedBlock(w: seq<Word>, b: int) {
    forall i :: 128 * b <= i < 128 * b + 128 && 0 <= i < |w| ==> w[i] == 0
  }

  /** The block numbers of the group record stored in block `b`. */
  ghost function Group(w: seq<Word>, b: int): (r: seq<Word>)
    ensures |r| == GROUP
  {
    if 0 <= 128 * b && 128 * b + 128 <= |w| then w[128 * b + 1..128 * b + 101] else seq(GROUP, _ => 0)
  }

  /** The first `nfree` entries of `free`, and the records they lead to, list exactly the blocks
      `L` in the order in which they will be handed out. */
  ghost predicate Denotes(g: Geometry, w: seq<Word>, nfree: int, free: seq<Word>, L: seq<int>)
    requires Sized(g, w)
    decreases |L|
  {
    && |free| == GROUP && 1 <= nfree <= GROUP && nfree - 1 <= |L|
    && (forall j :: 1 <= j < nfree ==> free[j] == L[nfree - 1 - j])
    && if free[0] == 0 then |L| == nfree - 1
       else
         && nfree <= |L| && free[0] == L[nfree - 1] && g.InData(free[0])
         && Denotes(g, w, w[128 * free[0]], Group(w, free[0]), L[nfree..])
  }

  /** The record in block `b` leads to the blocks `L`. */
  ghost predicate Recorded(g: Geometry, w: seq<Word>, b: int, L: seq<int>)
    requires Sized(g, w)
  {
    g.InData(b) && Denotes(g, w, w[128 * b], Group(w, b), L)
  }

  /** The count and the first entry of a record tell how the list goes on. */
  lemma RecordCount(g: Geometry, w: seq<Word>, b: int, L: seq<int>)
    requires Sized(g, w) && Recorded(g, w, b, L)
    ensures 0 <= 128 * b && 128 * b + 1 < |w|
    ensures var count: int, next: int := w[128 * b], w[128 * b + 1];
            if next == 0 then |L| == count - 1 else 1 <= count <= |L| && Recorded(g, w, next, L[count..])
  {
  }

  /** A list of different blocks of the data area. */
  ghost predicate Pool(g: Geometry, L: seq<int>) {
    && (forall i :: 0 <= i < |L| ==> g.InData(L[i]))
    && (forall i, j :: 0 <= i < j < |L| ==> L[i] != L[j])
  }

  /** The allocator still has the blocks `L`. Once a request has failed the count stays below 1. */
  ghost predicate FreeState(g: Geometry, s: Store, L: seq<int>) {
    Sized(g, s.w) && Pool(g, L) && Remaining(g, s, L)
  }

  ghost predicate Remaining(g: Geometry, s: Store, L: seq<int>)
    requires Sized(g, s.w)
  {
    if s.sb.nfree >= 1 then Denotes(g, s.w, s.sb.nfree, s.sb.free, L) else L == [] && s.sb.free[0] == 0
  }

  /** The in-core fields once the top entry is taken; the last entry of a group brings in the next. */
  ghost function Popped(s: Store): Super
    requires 1 <= s.sb.nfree <= GROUP
  {
    var v: int := s.sb.free[s.sb.nfree - 1];
    if s.sb.nfree == 1 then s.sb.(nfree := Get(s.w, 128 * v), free := Group(s.w, v))
    else s.sb.(nfree := s.sb.nfree - 1)
  }

  /** The effect of `GetFreeBlock`. An index outside the array throws like exhaustion does. */
  ghost function Alloc(g: Geometry, s: Store): (r: (Store, Grant))
    requires Sized(g, s.w)
    ensures Sized(g, r.0.w)
  {
    if !(1 <= s.sb.nfree <= GROUP) || (s.sb.nfree == 1 && s.sb.free[0] == 0) then
      (s.(sb := s.sb.(nfree := s.sb.nfree - 1)), Exhausted)
    else
      var v, sb := s.sb.free[s.sb.nfree - 1], Popped(s);
      (Store(Stored(g, ZeroBlock(s.w, v), sb), Flushed(sb)), Granted(v))
  }

  /** The list is read off the blocks it lists and off nothing else. */
  lemma {:induction false} DenotesFrame(g: Geometry, w: seq<Word>, w': seq<Word>, nfree: int, free: seq<Word>,
                                        L: seq<int>)
    requires Sized(g, w) && |w'| == |w| && Denotes(g, w, nfree, free, L)
    requires forall b :: b in L ==> SameBlock(w, w', b)
    ensures Denotes(g, w', nfree, free, L)
    decreases |L|
  {
    if free[0] != 0 {
      var b: int := free[0];
      assert b in L && SameBlock(w, w', b);
      assert Group(w', b) == Group(w, b);
      DenotesFrame(g, w, w', w[128 * b], Group(w, b), L[nfree..]);
    }
  }

  /** The array and the chain denote at most one list. */
  lemma {:induction false} DenotesUnique(g: Geometry, w: seq<Word>, nfree: int, free: seq<Word>, L: seq<int>,
                                         M: seq<int>)
    requires Sized(g, w) && Denotes(g, w, nfree, free, L) && Denotes(g, w, nfree, free, M)
    ensures L == M
    decreases |L|
  {
    assert L[..nfree - 1] == M[..nfree - 1] by {
      forall i | 0 <= i < nfree - 1
        ensures L[i] == M[i]
      {
        assert free[nfree - 1 - i] == L[i] && free[nfree - 1 - i] == M[i];
      }
    }
    if free[0] != 0 {
      DenotesUnique(g, w, w[128 * free[0]], Group(w, free[0]), L[nfree..], M[nfree..]);
      assert L == L[..nfree - 1] + [free[0]] + L[nfree..];
      assert M == M[..nfree - 1] + [free[0]] + M[nfree..];
    }
  }

  /** Words outside the superblock and the granted block survive an allocation. */
  lemma AllocFrame(g: Geometry, s: Store)
    requires Sized(g, s.w)
    ensures var (s', r) := Alloc(g, s);
            && (r.Exhausted? ==> s'.w == s.w)
            && (r.Granted? ==> forall b :: g.InodeStart() <= b && b != r.block ==> SameBlock(s.w, s'.w, b))
            && (r.Granted? ==> forall b :: 0 <= b < g.boot && b != r.block ==> SameBlock(s.w, s'.w, b))
            && (r.Granted? && g.InData(r.block) ==> ZeroedBlock(s'.w, r.block))
  {
  }

  /** The in-core fields after a granted request: one entry less, or the record of the granted block. */
  lemma AllocFields(g: Geometry, s: Store)
    requires Sized(g, s.w) && Alloc(g, s).1.Granted?
    ensures var (s', r) := Alloc(g, s);
            && r.block == s.sb.free[s.sb.nfree - 1]
            && (s.sb.nfree > 1 ==> s'.sb.nfree == s.sb.nfree - 1 && s'.sb.free == s.sb.free)
            && (s.sb.nfree == 1 && 0 <= r.block < g.diskBlocks ==>
                  && s'.sb.nfree == s.w[128 * r.block]
                  && forall j {:trigger s'.sb.free[j]} :: 0 <= j < 100 ==> s'.sb.free[j] == s.w[128 * r.block + 1 + j])
            && s'.sb.ninode == s.sb.ninode && s'.sb.inode == s.sb.inode && s'.sb.time == s.sb.time
  {
  }

  /** The test of `GetFreeBlock` recognises the empty list, and the top entry is the head. */
  lemma TopEntry(g: Geometry, s: Store, L: seq<int>)
    requires FreeState(g, s, L)
    ensures L == [] <==> s.sb.nfree <= 0 || (s.sb.nfree == 1 && s.sb.free[0] == 0)
    ensures L != [] ==> s.sb.nfree <= GROUP && s.sb.free[s.sb.nfree - 1] == L[0] && g.InData(L[0])
    ensures s.sb.nfree <= GROUP
  {
  }

  /** Taking the top entry, and following the record of the last one, leaves the tail of the list. */
  lemma PoppedDenotes(g: Geometry, s: Store, L: seq<int>)
    requires FreeState(g, s, L) && L != []
    ensures s.sb.free[s.sb.nfree - 1] == L[0]
    ensures Denotes(g, s.w, Popped(s).nfree, Popped(s).free, L[1..])
  {
    var n := s.sb.nfree;
    if n > 1 && s.sb.free[0] != 0 {
      assert L[1..][n - 1..] == L[n..];
    }
  }

  /** `GetFreeBlock` is removal of the head of the list: it fails exactly on the empty list, and
      taking the last entry of a group loads that block's record before the block is cleared. */
  lemma AllocTakesHead(g: Geometry, s: Store, L: seq<int>)
    requires FreeState(g, s, L)
    ensures var (s', r) := Alloc(g, s);
            if L == [] then
              && r == Exhausted && s'.w == s.w && s'.sb == s.sb.(nfree := s.sb.nfree - 1) && FreeState(g, s', [])
            else r == Granted(L[0]) && s'.sb.nfree >= 1 && FreeState(g, s', L[1..])
  {
    if L != [] {
      var (s', r) := Alloc(g, s);
      var sb := Popped(s);
      PoppedDenotes(g, s, L);
      AllocFrame(g, s);
      forall b | b in L[1..]
        ensures SameBlock(s.w, s'.w, b)
      {
        var i :| 0 <= i < |L[1..]| && L[1..][i] == b;
        assert b == L[i + 1] && g.InData(L[i + 1]);
      }
      DenotesFrame(g, s.w, s'.w, sb.nfree, sb.free, L[1..]);
    }
  }

  /** A state change that leaves the free blocks and the in-core array alone keeps the list. */
  lemma FreeFrame(g: Geometry, s: Store, s': Store, L: seq<int>)
    requires FreeState(g, s, L) && |s'.w| == |s.w|
    requires s'.sb.nfree == s.sb.nfree && s'.sb.free == s.sb.free
    requires forall b :: b in L ==> SameBlock(s.w, s'.w, b)
    ensures FreeState(g, s', L)
  {
    if s.sb.nfree >= 1 {
      DenotesFrame(g, s.w, s'.w, s.sb.nfree, s.sb.free, L);
    }
  }

  /** After a granted request the superblock on disk is the one in core. */
  lemma AllocMirrored(g: Geometry, s: Store, L: seq<int>)
    requires FreeState(g, s, L) && L != []
    requires -0x8000_0000 <= s.sb.ninode < 0x8000_0000
    ensures var (s', r) := Alloc(g, s); Mirrored(g, s'.w, s'.sb)
  {
    PoppedDenotes(g, s, L);
    StoredIsMirrored(g, ZeroBlock(s.w, L[0]), Popped(s));
  }

  ghost function Interval(lo: int, hi: int): (r: seq<int>)
    requires lo <= hi
    ensures |r| == hi - lo
    ensures forall i :: 0 <= i < |r| ==> r[i] == lo + i
  {
    seq(hi - lo, i requires 0 <= i < hi - lo => lo + i)
  }

  lemma IntervalStep(lo: int, hi: int)
    requires lo < hi
    ensures Interval(lo, hi) == [lo] + Interval(lo + 1, hi) && lo !in Interval(lo + 1, hi)
  {
  }

  /** The step of `InitDataBlock`: put `b` in front of the list. A full array first goes into
      `b` itself, as the record of the group that `b` leads to. */
  ghost function Pushed(w: seq<Word>, nfree: int, free: seq<Word>, b: Word): (seq<Word>, int, seq<Word>)
    requires |free| == GROUP && 0 <= nfree <= GROUP && 0 <= 128 * (b as int) && 128 * (b as int) + 128 <= |w|
  {
    if nfree >= GROUP then (Splice(w, 128 * (b as int), [nfree] + free[..nfree]), 1, free[0 := b])
    else (w, nfree + 1, free[nfree := b])
  }

  lemma PushedDenotes(g: Geometry, w: seq<Word>, nfree: int, free: seq<Word>, L: seq<int>, b: Word)
    requires Sized(g, w) && Denotes(g, w, nfree, free, L) && g.InData(b) && b !in L
    requires forall i :: 0 <= i < |L| ==> g.InData(L[i])
    ensures var (w', n', f') := Pushed(w, nfree, free, b); Denotes(g, w', n', f', [b] + L)
  {
    var (w', n', f') := Pushed(w, nfree, free, b);
    if nfree >= GROUP {
      forall c | c in L
        ensures SameBlock(w, w', c)
      {
        assert c != b;
      }
      DenotesFrame(g, w, w', nfree, free, L);
      assert Group(w', b) == free;
      assert ([b] + L)[1..] == L;
    } else if free[0] != 0 {
      assert ([b] + L)[nfree + 1..] == L[nfree..];
    }
  }

  /** The in-core array after the `n` blocks below `hi` have been put in, the highest first. */
  ghost predicate LaidInCore(nfree: int, free: seq<Word>, hi: int, n: nat)
    requires |free| == GROUP
  {
    && nfree == n % 100 + 1 && free[0] == (if n < 100 then 0 else hi - 100 * (n / 100))
    && forall j :: 1 <= j < nfree ==> free[j] == hi - 100 * (n / 100) - j
  }

  /** Every hundredth block holds a record of the hundred entries that were there before it. */
  ghost predicate LaidOnDisk(w: seq<Word>, hi: int, n: nat) {
    forall m {:trigger RecordAt(w, hi, m)} :: 1 <= m <= n / 100 ==> RecordAt(w, hi, m)
  }

  /** Word `i` of block `b`. */
  ghost function WordIn(w: seq<Word>, b: int, i: int): Word {
    Get(w, 128 * b + i)
  }

  ghost predicate RecordAt(w: seq<Word>, hi: int, m: int) {
    var b := hi - 100 * m;
    && WordIn(w, b, 0) == 100 && WordIn(w, b, 1) == (if m == 1 then 0 else hi - 100 * (m - 1))
    && forall i {:trigger WordIn(w, b, i)} :: 2 <= i <= 100 ==> WordIn(w, b, i) == b + 101 - i
  }

  lemma LaidStep(w: seq<Word>, nfree: int, free: seq<Word>, hi: int, n: nat, b: Word)
    requires |free| == GROUP && LaidInCore(nfree, free, hi, n) && LaidOnDisk(w, hi, n)
    requires b == hi - (n + 1) && 0 <= 128 * (b as int) && 128 * hi <= |w|
    ensures var (w', n', f') := Pushed(w, nfree, free, b); LaidInCore(n', f', hi, n + 1) && LaidOnDisk(w', hi, n + 1)
  {
    var (w', n', f') := Pushed(w, nfree, free, b);
    if nfree >= GROUP {
      assert (n + 1) / 100 == n / 100 + 1 && n + 1 == 100 * (n / 100 + 1);
      NewRecord(w, free, hi, n, b);
      forall m | 1 <= m <= n / 100
        ensures RecordAt(w', hi, m)
      {
        assert RecordAt(w, hi, m);
        OldRecord(w, w', hi, m);
      }
    } else {
      assert (n + 1) / 100 == n / 100 && (n + 1) % 100 == n % 100 + 1;
    }
  }

  lemma NewRecord(w: seq<Word>, free: seq<Word>, hi: int, n: nat, b: Word)
    requires |free| == GROUP && LaidInCore(100, free, hi, n) && b == hi - (n + 1)
    requires 0 <= 128 * (b as int) && 128 * hi <= |w|
    ensures RecordAt(Splice(w, 128 * (b as int), [100] + free[..100]), hi, n / 100 + 1)
  {
    var vals := [100] + free[..100];
    var r := Splice(w, 128 * (b as int), vals);
    forall i | 0 <= i <= 100
      ensures WordIn(r, b, i) == vals[i]
    {
      assert r[128 * (b as int) + i] == vals[i];
    }
    forall i | 2 <= i <= 100
      ensures WordIn(r, b, i) == b + 101 - i
    {
      assert vals[i] == free[i - 1] && free[i - 1] == hi - 100 * (n / 100) - (i - 1);
    }
  }

  /** A record stays as long as its block does. */
  lemma OldRecord(w: seq<Word>, w': seq<Word>, hi: int, m: int)
    requires |w'| == |w| && RecordAt(w, hi, m) && SameBlock(w, w', hi - 100 * m)
    ensures RecordAt(w', hi, m)
  {
    var b := hi - 100 * m;
    forall i | 0 <= i <= 100
      ensures WordIn(w', b, i) == WordIn(w, b, i)
    {
    }
  }

  /** The record number `m` in words of the disk: a count, then the numbers of the blocks behind it, the
      highest first but for the first one, which leads to the next record. */
  lemma RecordWords(w: seq<Word>, hi: int, n: nat, m: int, group: seq<Word>)
    requires LaidOnDisk(w, hi, n) && 1 <= m <= n / 100 && 0 <= 128 * (hi - 100 * m) && 128 * hi <= |w|
    requires group == w[128 * (hi - 100 * m) + 1..128 * (hi - 100 * m) + 101]
    ensures w[128 * (hi - 100 * m)] == 100 && group[0] == if m == 1 then 0 else hi - 100 * (m - 1)
    ensures forall i :: 1 <= i < 100 ==> group[i] == hi - 100 * (m - 1) - i
  {
    var b := hi - 100 * m;
    assert RecordAt(w, hi, m);
    forall i | 1 <= i < 100
      ensures group[i] == hi - 100 * (m - 1) - i
    {
      assert WordIn(w, b, i + 1) == group[i];
    }
    assert WordIn(w, b, 0) == w[128 * b] && WordIn(w, b, 1) == group[0];
  }

  lemma RecordsKept(w: seq<Word>, w': seq<Word>, lo: int, hi: int)
    requires |w'| == |w| && 0 <= lo <= hi && LaidOnDisk(w, hi, hi - lo)
    requires forall i {:trigger w'[i]} :: 128 * lo <= i < |w| ==> w'[i] == w[i]
    ensures LaidOnDisk(w', hi, hi - lo)
  {
    forall m | 1 <= m <= (hi - lo) / 100
      ensures RecordAt(w', hi, m)
    {
      assert RecordAt(w, hi, m);
      OldRecord(w, w', hi, m);
    }
  }

  lemma PushedState(g: Geometry, s: Store, L: seq<int>, b: Word)
    requires FreeState(g, s, L) && s.sb.nfree >= 1 && g.InData(b) && b !in L
    ensures s.sb.nfree <= GROUP
    ensures var (w', n', f') := Pushed(s.w, s.sb.nfree, s.sb.free, b);
            n' >= 1 && FreeState(g, Store(w', s.sb.(nfree := n', free := f')), [b] + L)
            && SameWords(s.w, w', 0, 128 * (b as int))
  {
    PushedDenotes(g, s.w, s.sb.nfree, s.sb.free, L, b);
  }

  /** An array that holds only the end marker denotes the empty list. */
  lemma EmptyDenotes(g: Geometry, s: Store)
    requires Sized(g, s.w) && s.sb.nfree == 1 && s.sb.free[0] == 0
    ensures FreeState(g, s, [])
  {
  }

  /** The state after `k` requests. */
  ghost function AllocTimes(g: Geometry, s: Store, k: nat): (r: Store)
    requires Sized(g, s.w)
    ensures Sized(g, r.w)
  {
    if k == 0 then s else Alloc(g, AllocTimes(g, s, k - 1)).0
  }

  /** What is left of the interval after `k` requests. */
  ghost function Rest(lo: int, hi: int, k: nat): seq<int>
    requires lo <= hi
  {
    Interval(if lo + k <= hi then lo + k else hi, hi)
  }

  lemma AllocStep(g: Geometry, t: Store, lo: int, hi: int, k: nat)
    requires lo <= hi && FreeState(g, t, Rest(lo, hi, k))
    ensures FreeState(g, Alloc(g, t).0, Rest(lo, hi, k + 1))
    ensures Alloc(g, t).1 == if lo + k < hi then Granted(lo + k) else Exhausted
  {
    AllocTakesHead(g, t, Rest(lo, hi, k));
    hide Alloc, FreeState;
    assert Rest(lo, hi, k) != [] ==> Rest(lo, hi, k)[1..] == Rest(lo, hi, k + 1);
  }

  lemma NextRequest(g: Geometry, s: Store, k: nat)
    requires Sized(g, s.w) && k > 0
    ensures AllocTimes(g, s, k) == Alloc(g, AllocTimes(g, s, k - 1)).0
  {
  }

  /** After `k` requests the list is what is left of the interval. */
  lemma {:induction false} RunState(g: Geometry, s: Store, lo: int, hi: int, k: nat)
    requires Sized(g, s.w) && lo <= hi && FreeState(g, s, Rest(lo, hi, 0))
    ensures FreeState(g, AllocTimes(g, s, k), Rest(lo, hi, k))
  {
    if k > 0 {
      hide *;
      RunState(g, s, lo, hi, k - 1);
      AllocStep(g, AllocTimes(g, s, k - 1), lo, hi, k - 1);
      NextRequest(g, s, k);
    }
  }

  /** Closed form of whole runs: from a list that is an interval, request `k` gets block
      `lo + k`, until the interval is used up; from then on every request fails. */
  lemma AllocRun(g: Geometry, s: Store, lo: int, hi: int, k: nat)
    requires lo <= hi && FreeState(g, s, Interval(lo, hi))
    ensures FreeState(g, AllocTimes(g, s, k), Rest(lo, hi, k))
    ensures Alloc(g, AllocTimes(g, s, k)).1 == if lo + k < hi then Granted(lo + k) else Exhausted
  {
    assert Sized(g, s.w) && Rest(lo, hi, 0) == Interval(lo, hi);
    hide *;
    RunState(g, s, lo, hi, k);
    AllocStep(g, AllocTimes(g, s, k), lo, hi, k);
  }

  /** The array alone holds the whole list, or its first entry leads to the rest. */
  lemma CountedStart(g: Geometry, s: Store, L: seq<int>)
    requires FreeState(g, s, L)
    ensures s.sb.nfree < 1 ==> L == [] && s.sb.free[0] == 0
    ensures s.sb.nfree >= 1 ==>
              if s.sb.free[0] == 0 then |L| == s.sb.nfree - 1
              else s.sb.nfree <= |L| && Recorded(g, s.w, s.sb.free[0], L[s.sb.nfree..])
  {
  }

  /** What a request does to the count. */
  lemma CountStep(g: Geometry, t: Store, L: seq<int>)
    requires FreeState(g, t, L)
    ensures if L == [] then Alloc(g, t).0.sb.nfree == t.sb.nfree - 1 else Alloc(g, t).0.sb.nfree >= 1
    ensures L == [] && t.sb.nfree >= 1 ==> t.sb.nfree == 1
  {
    AllocTakesHead(g, t, L);
  }

  lemma RestEnds(lo: int, hi: int, k: nat)
    requires lo <= hi
    ensures Rest(lo, hi, k) == [] <==> k >= hi - lo
  {
  }

  /** When the list has just become empty the count is 1. */
  lemma LastCount(g: Geometry, s: Store, lo: int, hi: int)
    requires lo <= hi && FreeState(g, s, Interval(lo, hi)) && s.sb.nfree >= 1
    ensures AllocTimes(g, s, hi - lo).sb.nfree == 1
  {
    var n := hi - lo;
    RestEnds(lo, hi, n);
    hide FreeState, Pool, Remaining, Alloc, Rest, Interval;
    AllocRun(g, s, lo, hi, n);
    CountStep(g, AllocTimes(g, s, n), Rest(lo, hi, n));
    if n > 0 {
      RestEnds(lo, hi, n - 1);
      AllocRun(g, s, lo, hi, n - 1);
      CountStep(g, AllocTimes(g, s, n - 1), Rest(lo, hi, n - 1));
    }
  }

  /** Every request beyond the last block takes one more from `_s_nfree`. */
  lemma {:induction false} FailedRequests(g: Geometry, s: Store, lo: int, hi: int, k: nat)
    requires lo <= hi <= lo + k && FreeState(g, s, Interval(lo, hi)) && s.sb.nfree >= 1
    ensures AllocTimes(g, s, k).sb.nfree == 1 - (k - (hi - lo))
    decreases k
  {
    if k == hi - lo {
      LastCount(g, s, lo, hi);
    } else {
      assert Sized(g, s.w);
      hide *;
      FailedRequests(g, s, lo, hi, k - 1);
      RestEnds(lo, hi, k - 1);
      AllocRun(g, s, lo, hi, k - 1);
      NextRequest(g, s, k);
      CountStep(g, AllocTimes(g, s, k - 1), Rest(lo, hi, k - 1));
    }
  }
}

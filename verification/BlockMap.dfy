/** The block map: ten addresses per inode, the last four of them roots of index trees that grow
    on demand. The trees of all inodes share one disk with the free list. */
module BlockMap {
  import opened Words
  import opened DiskImage
  import opened FreeList

  const DIRECT := 6
  const FANOUT := 128
  const SINGLE_END := 262
  const MAX_BLOCKS := 33030

  /** `_i_addr`. */
  type Addrs = a: seq<Word> | |a| == 10 witness [0, 0, 0, 0, 0, 0, 0, 0, 0, 0]

  const NO_BLOCKS: Addrs := [0, 0, 0, 0, 0, 0, 0, 0, 0, 0]

  /** The address arrays of all inodes in play. */
  type Table = seq<Addrs>

  /** A place in the forest: an address, a word of a first-level index block, or a word of a
      second-level index block. */
  datatype Node = Top(f: int, i: int) | Mid(f: int, i: int, k: int) | Low(f: int, i: int, k: int, j: int) {

    predicate In(files: int) {
      match this
      case Top(f, i) => 0 <= f < files && 0 <= i < 10
      case Mid(f, i, k) => 0 <= f < files && DIRECT <= i < 10 && 0 <= k < FANOUT
      case Low(f, i, k, j) => 0 <= f < files && 8 <= i < 10 && 0 <= k < FANOUT && 0 <= j < FANOUT
    }

    /** The block named there holds data, not pointers. */
    predicate Leaf() {
      match this
      case Top(_, i) => i < DIRECT
      case Mid(_, i, _) => i < 8
      case Low(_, _, _, _) => true
    }

    function Parent(): Node
      requires !Top?
    {
      match this
      case Mid(f, i, _) => Top(f, i)
      case Low(f, i, k, _) => Mid(f, i, k)
    }

    function Slot(): int
      requires !Top?
    {
      match this
      case Mid(_, _, k) => k
      case Low(_, _, _, j) => j
    }
  }

  /** Word `k` of block `a`, or 0 when there is no such block. */
  ghost function Child(w: seq<Word>, a: int, k: int): Word
    requires 0 <= k
  {
    if a <= 0 || |w| <= 128 * a + k then 0 else w[128 * a + k]
  }

  /** The block number stored at a node; 0 where nothing has been mapped. */
  ghost function Ptr(w: seq<Word>, t: Table, nd: Node): Word
    requires nd.In(|t|)
  {
    match nd
    case Top(f, i) => t[f][i]
    case Mid(f, i, k) => Child(w, t[f][i], k)
    case Low(f, i, k, j) => Child(w, Child(w, t[f][i], k), j)
  }

  /** The node that holds the number of logical block `n` of file `f`. */
  function LeafOf(f: int, n: int): Node {
    if n < DIRECT then Top(f, n)
    else if n < SINGLE_END then Mid(f, (n - 6) / 128 + 6, (n - 6) % 128)
    else Low(f, (n - 262) / (128 * 128) + 8, (n - 262) / 128 % 128, (n - 262) % 128)
  }

  /** The logical block number that a leaf stands for. */
  function NumberOf(nd: Node): int {
    match nd
    case Top(_, i) => i
    case Mid(_, i, k) => 6 + 128 * (i - 6) + k
    case Low(_, i, k, j) => 262 + 128 * (128 * (i - 8) + k) + j
  }

  /** The index arithmetic is a bijection between the 33030 logical blocks and the leaves. */
  lemma LeafBijection(f: int, n: int, nd: Node, files: int)
    requires 0 <= f < files
    ensures 0 <= n < MAX_BLOCKS ==> LeafOf(f, n).In(files) && LeafOf(f, n).Leaf() && NumberOf(LeafOf(f, n)) == n
    ensures nd.In(files) && nd.Leaf() && nd.f == f ==> 0 <= NumberOf(nd) < MAX_BLOCKS && LeafOf(f, NumberOf(nd)) == nd
  {
    if SINGLE_END <= n {
      var m := n - 262;
      assert m / (128 * 128) == m / 128 / 128;
    }
    if nd.Low? && nd.In(files) && nd.f == f {
      var m := NumberOf(nd) - 262;
      assert m == 128 * (128 * (nd.i - 8) + nd.k) + nd.j;
      assert m / 128 == 128 * (nd.i - 8) + nd.k;
      assert m / (128 * 128) == m / 128 / 128 == nd.i - 8;
    }
  }

  /** `x` comes before `y` in the order of addresses, first-level slots and second-level slots. */
  predicate Before(x: Node, y: Node) {
    || x.i < y.i
    || (x.i == y.i && !x.Top? && !y.Top? && (x.k < y.k || (x.k == y.k && x.Low? && y.Low? && x.j < y.j)))
  }

  /** Logical blocks follow the addresses, and below an address its slots, outer ones first. */
  lemma LeavesInOrder(f: int, n: int, n': int)
    requires 0 <= n < n' < 33030
    ensures Before(LeafOf(f, n), LeafOf(f, n'))
  {
    if 262 <= n {
      DoubleInOrder(n - 262, n' - 262);
    } else if 6 <= n && n' < 262 {
      QuotientsInOrder(n - 6, n' - 6, 128);
    }
  }

  lemma DoubleInOrder(m: nat, m': nat)
    requires m < m'
    ensures var q, k, j, q', k', j' := m / 16384, m / 128 % 128, m % 128, m' / 16384, m' / 128 % 128, m' % 128;
            q < q' || (q == q' && (k < k' || (k == k' && j < j')))
  {
    assert m / 16384 == m / 128 / 128 && m' / 16384 == m' / 128 / 128;
    QuotientsInOrder(m, m', 128);
    QuotientsInOrder(m / 128, m' / 128, 128);
  }

  lemma QuotientsInOrder(m: nat, m': nat, d: nat)
    requires m <= m' && d == 128
    ensures m / d <= m' / d && (m / d == m' / d ==> m' - m == m' % d - m % d)
  {
  }

  /** The physical block of logical block `n` of file `f`, 0 if unmapped. */
  ghost function Lookup(w: seq<Word>, t: Table, f: int, n: int): Word
    requires 0 <= f < |t| && 0 <= n < MAX_BLOCKS
  {
    LeafBijection(f, n, LeafOf(f, n), |t|);
    Ptr(w, t, LeafOf(f, n))
  }

  // ---------------------------------------------------------------- the invariant

  /** Disk and superblock, the address arrays, the blocks still free in the order in which they
      will be handed out, and for every other block of the data area the node that holds it. */
  datatype Volume = Volume(s: Store, t: Table, free: seq<int>, owner: map<int, Node>)

  /** The nodes hold different blocks, each of them in the data area and none of them free. */
  ghost predicate Forest(g: Geometry, w: seq<Word>, t: Table, free: seq<int>, owner: map<int, Node>) {
    && (forall nd: Node {:trigger Ptr(w, t, nd)} :: nd.In(|t|) && Ptr(w, t, nd) != 0 ==>
          Ptr(w, t, nd) in owner && owner[Ptr(w, t, nd)] == nd)
    && (forall b :: b in owner ==> g.InData(b) && b !in free)
  }

  /** Every block of the data area is either free or held by its node. */
  ghost predicate Conserved(g: Geometry, w: seq<Word>, t: Table, free: seq<int>, owner: map<int, Node>) {
    && (forall b :: b in owner ==> owner[b].In(|t|) && Ptr(w, t, owner[b]) == b)
    && (forall b :: g.InData(b) ==> b in owner || b in free)
  }

  ghost predicate Sound(g: Geometry, v: Volume) {
    FreeState(g, v.s, v.free) && Forest(g, v.s.w, v.t, v.free, v.owner)
  }

  ghost predicate Complete(g: Geometry, v: Volume) {
    Conserved(g, v.s.w, v.t, v.free, v.owner)
  }

  // ---------------------------------------------------------------- one step of growth

  /** `nd` receives block `b`; every other node keeps its block. */
  ghost predicate Grown(w: seq<Word>, t: Table, w': seq<Word>, t': Table, nd: Node, b: int) {
    && |t'| == |t| && nd.In(|t|)
    && Ptr(w, t, nd) == 0 && Ptr(w', t', nd) == b
    && (forall x: Node {:trigger Ptr(w', t', x)} :: x.In(|t|) && x != nd ==> Ptr(w', t', x) == Ptr(w, t, x))
  }

  /** Data words: what a reader of a file sees, holes reading as 0. */
  ghost function Data(w: seq<Word>, t: Table, nd: Node, j: int): Word
    requires nd.In(|t|) && 0 <= j
  {
    Child(w, Ptr(w, t, nd), j)
  }

  /** No file reads differently. */
  ghost predicate SameData(w: seq<Word>, t: Table, w': seq<Word>, t': Table) {
    && |t'| == |t|
    && (forall nd: Node, j {:trigger Data(w', t', nd, j)} :: nd.In(|t|) && nd.Leaf() && 0 <= j < 128 ==>
          Data(w', t', nd, j) == Data(w, t, nd, j))
  }

  /** Giving the head of the free list to a node that had no block keeps the forest. */
  lemma GrownForest(g: Geometry, w: seq<Word>, t: Table, w': seq<Word>, t': Table, free: seq<int>,
                    owner: map<int, Node>, nd: Node)
    requires Forest(g, w, t, free, owner) && Pool(g, free) && free != [] && Grown(w, t, w', t', nd, free[0])
    ensures Forest(g, w', t', free[1..], owner[free[0] := nd])
    ensures Conserved(g, w, t, free, owner) <==> Conserved(g, w', t', free[1..], owner[free[0] := nd])
  {
    var owner' := owner[free[0] := nd];
    assert free[0] in free;
    assert forall b :: b in free <==> b == free[0] || b in free[1..];
    forall b | b in owner
      ensures b in owner' && owner'[b] == owner[b]
      ensures owner[b].In(|t|) ==> (Ptr(w', t', owner[b]) == b <==> Ptr(w, t, owner[b]) == b)
    {
    }
  }

  /** In the data area, `w'` is `w` with block `b` cleared and then word `p` set to `b`. */
  ghost predicate Linked(g: Geometry, w: seq<Word>, w': seq<Word>, p: int, b: int)
    requires Sized(g, w) && |w'| == |w|
  {
    forall i {:trigger w'[i]} :: 128 * g.DataStart() <= i < 128 * g.DataEnd() ==>
      w'[i] == if i == p then b else if 128 * b <= i < 128 * b + 128 then 0 else w[i]
  }

  /** Reading word `k` of an owned block, or of the fresh one, after a link step. */
  lemma LinkedChild(g: Geometry, w: seq<Word>, w': seq<Word>, p: int, b: int, c: int, k: int)
    requires Sized(g, w) && |w'| == |w| && Linked(g, w, w', p, b) && g.InData(c) && 0 <= k < 128
    ensures Child(w', c, k) == if p == 128 * c + k then b else if c == b then 0 else Child(w, c, k)
  {
    assert w'[128 * c + k] == w'[128 * c + k];
  }

  /** Linking a fresh block into an empty slot of an index block changes that one node. */
  lemma SlotGrown(g: Geometry, w: seq<Word>, w': seq<Word>, t: Table, free: seq<int>, owner: map<int, Node>, nd: Node,
                  b: int)
    requires Sized(g, w) && |w'| == |w| && Forest(g, w, t, free, owner)
    requires nd.In(|t|) && !nd.Top? && Ptr(w, t, nd) == 0 && Ptr(w, t, nd.Parent()) != 0
    requires g.InData(b) && b !in owner
    requires Linked(g, w, w', 128 * Ptr(w, t, nd.Parent()) + nd.Slot(), b)
    ensures Grown(w, t, w', t, nd, b) && SameData(w, t, w', t)
  {
    var a: int := Ptr(w, t, nd.Parent());
    var p := 128 * a + nd.Slot();
    forall x: Node | x.In(|t|)
      ensures Ptr(w', t, x) == if x == nd then b else Ptr(w, t, x)
    {
      SlotKept(g, w, w', t, free, owner, nd, b, x);
    }
    forall x: Node, j | x.In(|t|) && x.Leaf() && 0 <= j < 128
      ensures Data(w', t, x, j) == Data(w, t, x, j)
    {
      var c: int := Ptr(w', t, x);
      if c != 0 {
        LinkedChild(g, w, w', p, b, c, j);
      }
    }
  }

  lemma SlotKept(g: Geometry, w: seq<Word>, w': seq<Word>, t: Table, free: seq<int>, owner: map<int, Node>, nd: Node,
                 b: int, x: Node)
    requires Sized(g, w) && |w'| == |w| && Forest(g, w, t, free, owner)
    requires nd.In(|t|) && !nd.Top? && Ptr(w, t, nd) == 0 && Ptr(w, t, nd.Parent()) != 0
    requires g.InData(b) && b !in owner
    requires Linked(g, w, w', 128 * Ptr(w, t, nd.Parent()) + nd.Slot(), b)
    requires x.In(|t|)
    ensures Ptr(w', t, x) == if x == nd then b else Ptr(w, t, x)
    decreases if x.Top? then 0 else if x.Mid? then 1 else 2
  {
    var p := 128 * (Ptr(w, t, nd.Parent()) as int) + nd.Slot();
    if !x.Top? {
      var y := x.Parent();
      SlotKept(g, w, w', t, free, owner, nd, b, y);
      assert Ptr(w, t, y) != 0 ==> owner[Ptr(w, t, y)] == y;
      var c: int := Ptr(w', t, y);
      hide Linked, Forest;
      if c != 0 {
        LinkedChild(g, w, w', p, b, c, x.Slot());
      }
    }
  }

  /** Storing a fresh block in an empty address changes that one node. */
  lemma TopGrown(g: Geometry, w: seq<Word>, w': seq<Word>, t: Table, free: seq<int>, owner: map<int, Node>, f: int,
                 i: int, b: Word)
    requires Sized(g, w) && |w'| == |w| && Forest(g, w, t, free, owner)
    requires Top(f, i).In(|t|) && t[f][i] == 0
    requires g.InData(b) && b !in owner && Linked(g, w, w', -1, b)
    ensures var t' := t[f := t[f][i := b]]; Grown(w, t, w', t', Top(f, i), b) && SameData(w, t, w', t')
  {
    var t' := t[f := t[f][i := b]];
    forall x: Node | x.In(|t|)
      ensures Ptr(w', t', x) == if x == Top(f, i) then b else Ptr(w, t, x)
    {
      TopKept(g, w, w', t, free, owner, f, i, b, x);
    }
    forall x: Node, j | x.In(|t|) && x.Leaf() && 0 <= j < 128
      ensures Data(w', t', x, j) == Data(w, t, x, j)
    {
      var c: int := Ptr(w', t', x);
      if c != 0 {
        LinkedChild(g, w, w', -1, b, c, j);
      }
    }
  }

  lemma TopKept(g: Geometry, w: seq<Word>, w': seq<Word>, t: Table, free: seq<int>, owner: map<int, Node>, f: int,
                i: int, b: Word, x: Node)
    requires Sized(g, w) && |w'| == |w| && Forest(g, w, t, free, owner)
    requires Top(f, i).In(|t|) && t[f][i] == 0
    requires g.InData(b) && b !in owner && Linked(g, w, w', -1, b)
    requires x.In(|t|)
    ensures Ptr(w', t[f := t[f][i := b]], x) == if x == Top(f, i) then b else Ptr(w, t, x)
    decreases if x.Top? then 0 else if x.Mid? then 1 else 2
  {
    var t' := t[f := t[f][i := b]];
    if !x.Top? {
      var y := x.Parent();
      TopKept(g, w, w', t, free, owner, f, i, b, y);
      assert Ptr(w, t, y) != 0 ==> owner[Ptr(w, t, y)] == y;
      var c: int := Ptr(w', t', y);
      hide Linked, Forest;
      if c != 0 {
        LinkedChild(g, w, w', -1, b, c, x.Slot());
      }
    }
  }

  // ---------------------------------------------------------------- the operation

  /** The block number that results from a request; a swallowed exception leaves 0. */
  ghost function Taken(r: Grant): Word {
    if r.Granted? then r.block else 0
  }

  /** The word index that a byte position computed in 32-bit arithmetic leads to. A negative
      position makes the seek fail and leaves the cursor of the freshly opened file at 0. */
  ghost function WordIndex(a: int, k: int): int {
    var p: int := Wrap(512 * a + 4 * k);
    if p < 0 then 0 else p / 4
  }

  lemma WordPosition(a: int, k: int)
    ensures var p: int := Wrap(512 * a + 4 * k); (if p < 0 then 0 else p) == 4 * WordIndex(a, k) && 0 <= WordIndex(a, k)
  {
    var x := 512 * a + 4 * k;
    assert x == 4 * (128 * a + k);
    assert x % 0x1_0000_0000 == 4 * ((128 * a + k) % 0x4000_0000);
  }

  /** Slots of block 0 lie in the boot block. */
  lemma BootSlot(k: int)
    requires 0 <= k < 128
    ensures WordIndex(0, k) == k
  {
  }

  /** Reading there; past the end of the file the buffer keeps what it held. */
  ghost function ReadSlot(w: seq<Word>, a: int, k: int, buffer: Word): Word {
    if WordIndex(a, k) < |w| then w[WordIndex(a, k)] else buffer
  }

  /** The block in address `i`, allocated first if there is none. */
  ghost function EnsureTop(g: Geometry, s: Store, ad: Addrs, i: int): (r: (Store, Addrs, Word))
    requires Sized(g, s.w) && 0 <= i < 10
    ensures Sized(g, r.0.w)
  {
    if ad[i] != 0 then (s, ad, ad[i])
    else
      var (s', r) := Alloc(g, s);
      (s', ad[i := Taken(r)], Taken(r))
  }

  /** The block in slot `k` of index block `a`, allocated first if there is none. */
  ghost function EnsureSlot(g: Geometry, s: Store, a: int, k: int, buffer: Word): (r: (Store, Word))
    requires Sized(g, s.w)
    ensures Sized(g, r.0.w)
  {
    var v := ReadSlot(s.w, a, k, buffer);
    if v != 0 then (s, v)
    else
      var (s', r) := Alloc(g, s);
      (s'.(w := Put(s'.w, WordIndex(a, k), Taken(r))), Taken(r))
  }

  /** The effect of `BMap` on disk, superblock and addresses, and its result. */
  ghost function BMap(g: Geometry, s: Store, ad: Addrs, n: int): (r: (Store, Addrs, Word))
    requires Sized(g, s.w) && 0 <= n < MAX_BLOCKS
    ensures Sized(g, r.0.w)
  {
    if n < DIRECT then EnsureTop(g, s, ad, n)
    else if n < SINGLE_END then
      var (s1, ad1, a) := EnsureTop(g, s, ad, (n - 6) / 128 + 6);
      var (s2, b) := EnsureSlot(g, s1, a, (n - 6) % 128, 0);
      (s2, ad1, b)
    else
      var (s1, ad1, a) := EnsureTop(g, s, ad, (n - 262) / (128 * 128) + 8);
      var (s2, m) := EnsureSlot(g, s1, a, (n - 262) / 128 % 128, 0);
      var (s3, b) := EnsureSlot(g, s2, m, (n - 262) % 128, m);
      (s3, ad1, b)
  }

  // ---------------------------------------------------------------- one node of the path

  /** Boot block and inode area are as before. */
  ghost predicate SameTables(g: Geometry, w: seq<Word>, w': seq<Word>)
    requires Sized(g, w) && |w'| == |w|
  {
    SameWords(w, w', 0, 128 * g.boot) && SameWords(w, w', 128 * g.InodeStart(), 128 * g.DataStart())
  }

  /** The books after node `nd` was looked up: a missing node takes the head of the free list. */
  ghost function Booked(v: Volume, s': Store, t': Table, nd: Node): Volume
    requires nd.In(|v.t|)
  {
    if Ptr(v.s.w, v.t, nd) != 0 || v.free == [] then Volume(s', t', v.free, v.owner)
    else Volume(s', t', v.free[1..], v.owner[v.free[0] := nd])
  }

  /** Looking up one node: nothing changes unless the node is missing and a block is free, and
      then exactly that node is filled, with the cleared head of the free list. */
  ghost predicate Stepped(g: Geometry, v: Volume, v': Volume, nd: Node)
    requires Sized(g, v.s.w) && nd.In(|v.t|)
  {
    && |v'.s.w| == |v.s.w| && |v'.t| == |v.t|
    && v' == Booked(v, v'.s, v'.t, nd)
    && SameTables(g, v.s.w, v'.s.w)
    && if Ptr(v.s.w, v.t, nd) != 0 then v' == v
       else if v.free == [] then v'.s.w == v.s.w && v'.t == v.t && v'.s.sb.nfree <= 0
       else
         && v.s.sb.nfree >= 1 && v'.s.sb.nfree >= 1
         && Grown(v.s.w, v.t, v'.s.w, v'.t, nd, v.free[0])
         && SameData(v.s.w, v.t, v'.s.w, v'.t)
         && ZeroedBlock(v'.s.w, v.free[0])
  }

  lemma AllocLinked(g: Geometry, s: Store, free: seq<int>)
    requires FreeState(g, s, free) && free != []
    ensures var w' := Alloc(g, s).0.w; Linked(g, s.w, w', -1, free[0]) && SameTables(g, s.w, w')
    ensures ZeroedBlock(Alloc(g, s).0.w, free[0])
  {
    AllocTakesHead(g, s, free);
    TopEntry(g, s, free);
  }

  lemma TopStepped(g: Geometry, v: Volume, f: int, i: int)
    requires Sound(g, v) && Top(f, i).In(|v.t|)
    ensures var (s', ad', b) := EnsureTop(g, v.s, v.t[f], i);
            var v' := Booked(v, s', v.t[f := ad'], Top(f, i));
            && Stepped(g, v, v', Top(f, i)) && Sound(g, v') && (Complete(g, v) <==> Complete(g, v'))
            && b == Ptr(v'.s.w, v'.t, Top(f, i))
  {
    if v.t[f][i] == 0 {
      AllocTakesHead(g, v.s, v.free);
      if v.free != [] {
        AllocLinked(g, v.s, v.free);
        hide Alloc, Pool, Remaining;
        var s' := Alloc(g, v.s).0;
        var b := v.free[0];
        TopGrown(g, v.s.w, s'.w, v.t, v.free, v.owner, f, i, b);
        GrownForest(g, v.s.w, v.t, s'.w, v.t[f := v.t[f][i := b]], v.free, v.owner, Top(f, i));
      } else {
        assert v.t[f][i := 0] == v.t[f];
        assert v.t[f := v.t[f]] == v.t;
      }
    } else {
      assert v.t[f := v.t[f]] == v.t;
    }
  }

  /** In the data area byte positions do not wrap around. */
  lemma NoWrap(g: Geometry, w: seq<Word>, a: int, k: int)
    requires Sized(g, w) && 0 <= a < g.diskBlocks && 0 <= k < 128
    ensures WordIndex(a, k) == 128 * a + k < |w|
  {
    assert 512 * a + 512 <= 512 * g.diskBlocks;
  }

  /** Writing the new block number into its slot. */
  lemma PutLinked(g: Geometry, w: seq<Word>, s: Store, free: seq<int>, a: int, k: int, b: Word)
    requires Sized(g, w) && FreeState(g, s, free) && |s.w| == |w| && Linked(g, w, s.w, -1, b) && SameTables(g, w, s.w)
    requires g.InData(a) && a !in free && 0 <= k < 128 && g.InData(b) && a != b && ZeroedBlock(s.w, b)
    ensures var s' := s.(w := Put(s.w, 128 * a + k, b));
            && Linked(g, w, s'.w, 128 * a + k, b) && SameTables(g, w, s'.w)
            && FreeState(g, s', free) && ZeroedBlock(s'.w, b)
  {
    var s' := s.(w := Put(s.w, 128 * a + k, b));
    forall c | c in free
      ensures SameBlock(s.w, s'.w, c)
    {
      assert c != a;
    }
    FreeFrame(g, s, s', free);
  }

  /** The index block under which a slot lies: a data block that is not free, at its place on disk. */
  lemma ParentBlock(g: Geometry, v: Volume, nd: Node)
    requires Sound(g, v) && nd.In(|v.t|) && !nd.Top? && Ptr(v.s.w, v.t, nd.Parent()) != 0
    ensures var a: int, k := Ptr(v.s.w, v.t, nd.Parent()), nd.Slot();
            && g.InData(a) && a !in v.free && 0 <= k < 128
            && WordIndex(a, k) == 128 * a + k < |v.s.w| && Ptr(v.s.w, v.t, nd) == v.s.w[128 * a + k]
  {
    assert v.owner[Ptr(v.s.w, v.t, nd.Parent())] == nd.Parent();
    hide FreeState, Forest;
    NoWrap(g, v.s.w, Ptr(v.s.w, v.t, nd.Parent()), nd.Slot());
  }

  lemma HeadBlock(g: Geometry, v: Volume)
    requires Sound(g, v) && v.free != []
    ensures g.InData(v.free[0]) && v.free[0] !in v.owner && 0 < v.free[0] < 0x8000_0000
  {
  }

  /** The state after a missing slot received the head of the free list. */
  ghost function WithSlot(g: Geometry, v: Volume, nd: Node): Store
    requires Sized(g, v.s.w) && nd.In(|v.t|) && !nd.Top? && v.free != []
  {
    var s1 := Alloc(g, v.s).0;
    s1.(w := Put(s1.w, 128 * Ptr(v.s.w, v.t, nd.Parent()) + nd.Slot(), Wrap(v.free[0])))
  }

  lemma EnsureSlotCases(g: Geometry, v: Volume, nd: Node, buffer: Word)
    requires Sound(g, v) && nd.In(|v.t|) && !nd.Top? && Ptr(v.s.w, v.t, nd.Parent()) != 0
    ensures EnsureSlot(g, v.s, Ptr(v.s.w, v.t, nd.Parent()), nd.Slot(), buffer) ==
            if Ptr(v.s.w, v.t, nd) != 0 then (v.s, Ptr(v.s.w, v.t, nd))
            else if v.free == [] then (Alloc(g, v.s).0, 0)
            else (WithSlot(g, v, nd), v.free[0])
  {
    hide Alloc, Pool, Remaining, Forest, WordIndex, Ptr;
    ParentBlock(g, v, nd);
    AllocTakesHead(g, v.s, v.free);
    var s1 := Alloc(g, v.s).0;
    if v.free != [] {
      HeadBlock(g, v);
    } else if Ptr(v.s.w, v.t, nd) == 0 {
      assert s1.(w := Put(s1.w, 128 * Ptr(v.s.w, v.t, nd.Parent()) + nd.Slot(), 0)) == s1;
    }
  }

  lemma SlotStepped(g: Geometry, v: Volume, nd: Node, buffer: Word)
    requires Sound(g, v) && nd.In(|v.t|) && !nd.Top? && Ptr(v.s.w, v.t, nd.Parent()) != 0
    ensures var (s', b) := EnsureSlot(g, v.s, Ptr(v.s.w, v.t, nd.Parent()), nd.Slot(), buffer);
            var v' := Booked(v, s', v.t, nd);
            && Stepped(g, v, v', nd) && Sound(g, v') && (Complete(g, v) <==> Complete(g, v'))
            && b == Ptr(v'.s.w, v'.t, nd)
  {
    EnsureSlotCases(g, v, nd, buffer);
    if Ptr(v.s.w, v.t, nd) == 0 {
      if v.free != [] {
        SlotFilled(g, v, nd);
      } else {
        AllocTakesHead(g, v.s, v.free);
      }
    }
  }

  lemma SlotLinked(g: Geometry, v: Volume, nd: Node)
    requires Sound(g, v) && nd.In(|v.t|) && !nd.Top? && Ptr(v.s.w, v.t, nd.Parent()) != 0 && v.free != []
    ensures var s' := WithSlot(g, v, nd);
            && Linked(g, v.s.w, s'.w, 128 * Ptr(v.s.w, v.t, nd.Parent()) + nd.Slot(), v.free[0])
            && SameTables(g, v.s.w, s'.w) && FreeState(g, s', v.free[1..]) && ZeroedBlock(s'.w, v.free[0])
            && v.s.sb.nfree >= 1 && s'.sb.nfree >= 1
  {
    hide Alloc, Pool, Remaining, Forest, WordIndex, Ptr, Linked, SameWords, ZeroedBlock;
    ParentBlock(g, v, nd);
    HeadBlock(g, v);
    AllocTakesHead(g, v.s, v.free);
    TopEntry(g, v.s, v.free);
    AllocLinked(g, v.s, v.free);
    PutLinked(g, v.s.w, Alloc(g, v.s).0, v.free[1..], Ptr(v.s.w, v.t, nd.Parent()), nd.Slot(), v.free[0]);
  }

  lemma SlotFilled(g: Geometry, v: Volume, nd: Node)
    requires Sound(g, v) && nd.In(|v.t|) && !nd.Top? && Ptr(v.s.w, v.t, nd.Parent()) != 0
    requires Ptr(v.s.w, v.t, nd) == 0 && v.free != []
    ensures var v' := Booked(v, WithSlot(g, v, nd), v.t, nd);
            Stepped(g, v, v', nd) && Sound(g, v') && (Complete(g, v) <==> Complete(g, v'))
  {
    SlotLinked(g, v, nd);
    HeadBlock(g, v);
    var w' := WithSlot(g, v, nd).w;
    SlotGrown(g, v.s.w, w', v.t, v.free, v.owner, nd, v.free[0]);
    GrownForest(g, v.s.w, v.t, w', v.t, v.free, v.owner, nd);
  }

  // ---------------------------------------------------------------- the whole path

  /** The nodes on the way to a node, root first. */
  function PathOf(nd: Node): seq<Node> {
    match nd
    case Top(_, _) => [nd]
    case Mid(f, i, _) => [Top(f, i), nd]
    case Low(f, i, k, _) => [Top(f, i), Mid(f, i, k), nd]
  }

  function PathTo(f: int, n: int): seq<Node> {
    PathOf(LeafOf(f, n))
  }

  ghost predicate AllIn(path: seq<Node>, files: int) {
    forall i :: 0 <= i < |path| ==> path[i].In(files)
  }

  /** The nodes of a path that have no block yet, root first. */
  ghost function Missing(w: seq<Word>, t: Table, path: seq<Node>): (r: seq<Node>)
    requires AllIn(path, |t|)
    ensures |r| <= |path| && forall i :: 0 <= i < |r| ==> r[i] in path && Ptr(w, t, r[i]) == 0
  {
    if path == [] then []
    else
      var last := path[|path| - 1];
      Missing(w, t, path[..|path| - 1]) + if Ptr(w, t, last) == 0 then [last] else []
  }

  /** The missing nodes for which there is a free block. */
  ghost function Filled(v: Volume, path: seq<Node>): (r: seq<Node>)
    requires AllIn(path, |v.t|)
    ensures |r| <= |v.free|
  {
    var m := Missing(v.s.w, v.t, path);
    if |m| <= |v.free| then m else m[..|v.free|]
  }

  /** `v'` is `v` with the blocks at the head of the free list moved to the nodes `taken`, one
      each and in that order. All other nodes, all data, and the boot and inode areas stay. */
  ghost predicate Extended(g: Geometry, v: Volume, v': Volume, taken: seq<Node>)
    requires Sized(g, v.s.w)
  {
    && |v'.s.w| == |v.s.w| && |v'.t| == |v.t|
    && SameTables(g, v.s.w, v'.s.w) && SameData(v.s.w, v.t, v'.s.w, v'.t)
    && |taken| <= |v.free| && v'.free == v.free[|taken|..]
    && (forall i :: 0 <= i < |taken| ==> taken[i].In(|v.t|) && Ptr(v'.s.w, v'.t, taken[i]) == v.free[i])
    && (forall x: Node {:trigger Ptr(v'.s.w, v'.t, x)} :: x.In(|v.t|) && x !in taken ==>
          Ptr(v'.s.w, v'.t, x) == Ptr(v.s.w, v.t, x))
  }

  /** What a call has at hand after it looked up `nd`: the block, or nothing because a request failed. */
  ghost predicate Reached(v: Volume, nd: Node, b: Word)
    requires nd.In(|v.t|)
  {
    if Ptr(v.s.w, v.t, nd) != 0 then b == Ptr(v.s.w, v.t, nd) else v.free == [] && v.s.sb.nfree <= 0
  }

  /** No request has failed between the two states. */
  ghost predicate SameFortune(v: Volume, v': Volume) {
    v'.s.sb.nfree >= 1 <==> v.s.sb.nfree >= 1
  }

  lemma ExtendStep(g: Geometry, v: Volume, v1: Volume, v2: Volume, path: seq<Node>, nd: Node)
    requires Sized(g, v.s.w) && Sized(g, v1.s.w) && AllIn(path, |v.t|) && nd.In(|v.t|) && nd !in path
    requires Extended(g, v, v1, Filled(v, path)) && Stepped(g, v1, v2, nd)
    ensures AllIn(path + [nd], |v.t|) && Extended(g, v, v2, Filled(v, path + [nd]))
  {
    var A := Filled(v, path);
    assert nd !in A;
    assert (path + [nd])[..|path|] == path;
    assert Missing(v.s.w, v.t, path + [nd])
        == Missing(v.s.w, v.t, path) + if Ptr(v.s.w, v.t, nd) == 0 then [nd] else [];
  }

  lemma NothingTaken(g: Geometry, v: Volume)
    requires Sized(g, v.s.w)
    ensures Extended(g, v, v, Filled(v, []))
  {
  }

  /** `v'` is `v` after the nodes on the way to `nd` have been looked up; the last lookup gave `b`. */
  ghost predicate Walked(g: Geometry, v: Volume, v': Volume, nd: Node, b: Word)
    requires Sized(g, v.s.w)
  {
    && AllIn(PathOf(nd), |v.t|) && nd.In(|v.t|) && |v'.t| == |v.t|
    && Sound(g, v') && (Complete(g, v) <==> Complete(g, v'))
    && Extended(g, v, v', Filled(v, PathOf(nd)))
    && Reached(v', nd, b)
    && (Ptr(v'.s.w, v'.t, nd) != 0 ==> SameFortune(v, v'))
  }

  /** The first node of a path. */
  lemma WalkTop(g: Geometry, v: Volume, f: int, i: int) returns (v': Volume)
    requires Sound(g, v) && Top(f, i).In(|v.t|)
    ensures var (s', ad', b) := EnsureTop(g, v.s, v.t[f], i);
            && v'.s == s' && v'.t == v.t[f := ad'] && Walked(g, v, v', Top(f, i), b)
            && v' == Booked(v, s', v.t[f := ad'], Top(f, i))
  {
    var (s', ad', b) := EnsureTop(g, v.s, v.t[f], i);
    v' := Booked(v, s', v.t[f := ad'], Top(f, i));
    TopStepped(g, v, f, i);
    NothingTaken(g, v);
    ExtendStep(g, v, v, v', [], Top(f, i));
    assert [] + [Top(f, i)] == PathOf(Top(f, i));
  }

  /** What a method has to know before it looks up an address in place. */
  lemma PlanTop(g: Geometry, v: Volume, f: int, i: int) returns (v': Volume)
    requires Sound(g, v) && Top(f, i).In(|v.t|)
    ensures Sized(g, v.s.w) && Sound(g, v')
    ensures var b := if v.t[f][i] != 0 then v.t[f][i] else Taken(Alloc(g, v.s).1);
            && v'.s == (if v.t[f][i] != 0 then v.s else Alloc(g, v.s).0) && v'.t == v.t[f := v.t[f][i := b]]
            && EnsureTop(g, v.s, v.t[f], i) == (v'.s, v.t[f][i := b], b) && Walked(g, v, v', Top(f, i), b)
    ensures v'.free == if v.t[f][i] != 0 || v.free == [] then v.free else v.free[1..]
  {
    v' := WalkTop(g, v, f, i);
    assert Sound(g, v') && Sized(g, v.s.w);
    hide Walked, Alloc, Sound, Sized;
    TopCases(g, v.s, v.t[f], i);
  }

  lemma TopCases(g: Geometry, s: Store, ad: Addrs, i: int)
    requires Sized(g, s.w) && 0 <= i < 10
    ensures var b := if ad[i] != 0 then ad[i] else Taken(Alloc(g, s).1);
            EnsureTop(g, s, ad, i) == (if ad[i] != 0 then s else Alloc(g, s).0, ad[i := b], b)
  {
    hide Alloc, Sized;
    assert ad[i] != 0 ==> ad[i := ad[i]] == ad;
  }

  /** Without free blocks a lookup under a missing node changes no word, whatever it reads. */
  lemma DrySlot(g: Geometry, s: Store, a: int, k: int, buffer: Word)
    requires FreeState(g, s, [])
    ensures var (s', b) := EnsureSlot(g, s, a, k, buffer);
            s'.w == s.w && FreeState(g, s', []) && (s.sb.nfree <= 0 ==> s'.sb.nfree <= 0)
  {
    AllocTakesHead(g, s, []);
    var p := WordIndex(a, k);
    if ReadSlot(s.w, a, k, buffer) == 0 {
      assert Put(s.w, p, 0) == s.w;
    }
  }

  lemma AnySlotStepped(g: Geometry, v: Volume, nd: Node, a: Word, buffer: Word)
    requires Sound(g, v) && nd.In(|v.t|) && !nd.Top? && Reached(v, nd.Parent(), a)
    ensures var (s', b) := EnsureSlot(g, v.s, a, nd.Slot(), buffer);
            var v' := Booked(v, s', v.t, nd);
            && Stepped(g, v, v', nd) && Sound(g, v') && (Complete(g, v) <==> Complete(g, v'))
            && Reached(v', nd, b) && (Ptr(v'.s.w, v'.t, nd) != 0 ==> SameFortune(v, v'))
  {
    if Ptr(v.s.w, v.t, nd.Parent()) != 0 {
      SlotStepped(g, v, nd, buffer);
    } else {
      assert Ptr(v.s.w, v.t, nd) == 0;
      DrySlot(g, v.s, a, nd.Slot(), buffer);
    }
  }

  /** The slot that a call reads lies on the disk, or the read keeps a buffer that is not 0. */
  lemma SlotOnDisk(g: Geometry, v: Volume, nd: Node, a: Word, buffer: Word)
    requires Sound(g, v) && nd.In(|v.t|) && !nd.Top? && Reached(v, nd.Parent(), a)
    requires Ptr(v.s.w, v.t, nd.Parent()) == 0 ==> a == 0 || buffer != 0
    ensures WordIndex(a, nd.Slot()) < |v.s.w| || buffer != 0
  {
    if Ptr(v.s.w, v.t, nd.Parent()) != 0 {
      ParentBlock(g, v, nd);
    } else if a == 0 {
      BootSlot(nd.Slot());
    }
  }

  /** The books lose the head of the free list exactly when the slot that is read holds 0. */
  lemma BookedFree(g: Geometry, v: Volume, nd: Node, a: Word, buffer: Word)
    requires Sound(g, v) && nd.In(|v.t|) && !nd.Top? && Reached(v, nd.Parent(), a)
    ensures Booked(v, v.s, v.t, nd).free ==
            if ReadSlot(v.s.w, a, nd.Slot(), buffer) != 0 || v.free == [] then v.free else v.free[1..]
  {
    if Ptr(v.s.w, v.t, nd.Parent()) != 0 {
      ParentBlock(g, v, nd);
    }
  }

  /** A node that has a block has a parent that already had one before the step. */
  lemma ParentFirst(g: Geometry, v: Volume, v': Volume, nd: Node)
    requires Sized(g, v.s.w) && nd.In(|v.t|) && !nd.Top? && Stepped(g, v, v', nd) && Ptr(v'.s.w, v'.t, nd) != 0
    ensures Ptr(v.s.w, v.t, nd.Parent()) != 0
  {
    assert nd.Parent() != nd && Ptr(v'.s.w, v'.t, nd.Parent()) == Ptr(v.s.w, v.t, nd.Parent());
  }

  lemma PathGrows(nd: Node)
    requires !nd.Top?
    ensures PathOf(nd.Parent()) + [nd] == PathOf(nd) && nd !in PathOf(nd.Parent())
  {
  }

  /** One more step of a walk. */
  lemma WalkOn(g: Geometry, v: Volume, v1: Volume, v2: Volume, nd: Node, a: Word, b: Word)
    requires Sound(g, v) && nd.In(|v.t|) && !nd.Top? && Walked(g, v, v1, nd.Parent(), a) && Stepped(g, v1, v2, nd)
    requires Sound(g, v2) && (Complete(g, v1) <==> Complete(g, v2))
    requires Reached(v2, nd, b) && (Ptr(v2.s.w, v2.t, nd) != 0 ==> SameFortune(v1, v2))
    ensures Walked(g, v, v2, nd, b)
  {
    PathGrows(nd);
    assert Sized(g, v1.s.w);
    if Ptr(v2.s.w, v2.t, nd) != 0 {
      ParentFirst(g, v1, v2, nd);
    }
    hide Stepped, FreeState, Forest, Filled, PathOf, Sized, Extended, Conserved, Ptr;
    ExtendStep(g, v, v1, v2, PathOf(nd.Parent()), nd);
  }

  /** A further node, after its parent has been looked up. */
  lemma WalkSlot(g: Geometry, v: Volume, v1: Volume, nd: Node, a: Word, buffer: Word) returns (v2: Volume)
    requires Sound(g, v) && nd.In(|v.t|) && !nd.Top? && Walked(g, v, v1, nd.Parent(), a)
    ensures var (s2, b) := EnsureSlot(g, v1.s, a, nd.Slot(), buffer);
            && v2.s == s2 && v2.t == v1.t && Walked(g, v, v2, nd, b)
            && |v1.t| == |v.t| && v2.free == Booked(v1, v1.s, v1.t, nd).free
  {
    var (s2, b) := EnsureSlot(g, v1.s, a, nd.Slot(), buffer);
    v2 := Booked(v1, s2, v1.t, nd);
    AnySlotStepped(g, v1, nd, a, buffer);
    hide EnsureSlot, FreeState, Forest, Filled, PathOf, Extended, Conserved, Ptr, SameFortune, Reached, SameTables,
         SameData, Grown, ZeroedBlock;
    WalkOn(g, v, v1, v2, nd, a, b);
  }

  /** What a method has to know before it looks up a slot in place. */
  lemma PlanSlot(g: Geometry, v0: Volume, v: Volume, nd: Node, a: Word, buffer: Word) returns (v': Volume)
    requires Sound(g, v0) && nd.In(|v0.t|) && !nd.Top? && Walked(g, v0, v, nd.Parent(), a)
    requires Ptr(v.s.w, v.t, nd.Parent()) == 0 ==> a == 0 || buffer != 0
    ensures WordIndex(a, nd.Slot()) < |v.s.w| || buffer != 0
    ensures var (s', b) := EnsureSlot(g, v.s, a, nd.Slot(), buffer);
            v'.s == s' && v'.t == v.t && Walked(g, v0, v', nd, b) && Sound(g, v')
    ensures v'.free == if ReadSlot(v.s.w, a, nd.Slot(), buffer) != 0 || v.free == [] then v.free else v.free[1..]
  {
    assert Sound(g, v) && |v.t| == |v0.t| && Reached(v, nd.Parent(), a);
    v' := WalkSlot(g, v0, v, nd, a, buffer);
    assert Sound(g, v');
    hide Walked, Reached, Sound, EnsureSlot, Ptr, ReadSlot, WordIndex;
    SlotOnDisk(g, v, nd, a, buffer);
    BookedFree(g, v, nd, a, buffer);
    assert Booked(v, v.s, v.t, nd).free == v'.free;
  }

  lemma WalkSingle(g: Geometry, v: Volume, f: int, i: int, k: int) returns (v': Volume)
    requires Sound(g, v) && Mid(f, i, k).In(|v.t|)
    ensures var (s1, ad1, a) := EnsureTop(g, v.s, v.t[f], i);
            var (s2, b) := EnsureSlot(g, s1, a, k, 0);
            v'.s == s2 && v'.t == v.t[f := ad1] && Walked(g, v, v', Mid(f, i, k), b)
  {
    var v1 := WalkTop(g, v, f, i);
    var a := EnsureTop(g, v.s, v.t[f], i).2;
    hide Sound, Walked, EnsureTop, EnsureSlot;
    v' := WalkSlot(g, v, v1, Mid(f, i, k), a, 0);
  }

  lemma WalkDouble(g: Geometry, v: Volume, f: int, i: int, k: int, j: int) returns (v': Volume)
    requires Sound(g, v) && Low(f, i, k, j).In(|v.t|)
    ensures var (s1, ad1, a) := EnsureTop(g, v.s, v.t[f], i);
            var (s2, m) := EnsureSlot(g, s1, a, k, 0);
            var (s3, b) := EnsureSlot(g, s2, m, j, m);
            v'.s == s3 && v'.t == v.t[f := ad1] && Walked(g, v, v', Low(f, i, k, j), b)
  {
    assert Sized(g, v.s.w);
    hide Sound, Walked, EnsureTop, EnsureSlot;
    var (s1, ad1, a) := EnsureTop(g, v.s, v.t[f], i);
    var m := EnsureSlot(g, s1, a, k, 0).1;
    var v2 := WalkSingle(g, v, f, i, k);
    v' := WalkSlot(g, v, v2, Low(f, i, k, j), m, m);
  }

  /** What one call does. */
  lemma BMapWalks(g: Geometry, v: Volume, f: int, n: int) returns (v': Volume)
    requires Sound(g, v) && 0 <= f < |v.t| && 0 <= n < MAX_BLOCKS
    ensures var (s', ad', b) := BMap(g, v.s, v.t[f], n);
            v'.s == s' && v'.t == v.t[f := ad'] && Walked(g, v, v', LeafOf(f, n), b)
  {
    LeafBijection(f, n, LeafOf(f, n), |v.t|);
    hide Sound, Walked, EnsureTop, EnsureSlot;
    if n < DIRECT {
      v' := WalkTop(g, v, f, n);
    } else if n < SINGLE_END {
      v' := WalkSingle(g, v, f, (n - 6) / 128 + 6, (n - 6) % 128);
    } else {
      v' := WalkDouble(g, v, f, (n - 262) / (128 * 128) + 8, (n - 262) / 128 % 128, (n - 262) % 128);
    }
  }
}

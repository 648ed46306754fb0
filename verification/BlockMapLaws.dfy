/** What callers of `BMap` rely on: it is get-or-insert on the map from logical to physical
    blocks, it never changes what any file reads as, and repeating a call changes nothing. */
module BlockMapLaws {
  import opened Words
  import opened DiskImage
  import opened FreeList
  import opened BlockMap

  /** The blocks that a call would have to allocate. */
  ghost function Need(v: Volume, f: int, n: int): int
    requires 0 <= f < |v.t| && 0 <= n < MAX_BLOCKS
  {
    PathIn(f, n, |v.t|);
    |Missing(v.s.w, v.t, PathTo(f, n))|
  }

  ghost function Block(v: Volume, f: int, n: int): Word
    requires 0 <= f < |v.t| && 0 <= n < MAX_BLOCKS
  {
    Lookup(v.s.w, v.t, f, n)
  }

  lemma PathIn(f: int, n: int, files: int)
    requires 0 <= f < files && 0 <= n < MAX_BLOCKS
    ensures AllIn(PathTo(f, n), files) && PathTo(f, n) != [] && PathTo(f, n)[|PathTo(f, n)| - 1] == LeafOf(f, n)
    ensures forall x :: x in PathTo(f, n) && x.Leaf() ==> x == LeafOf(f, n)
  {
    LeafBijection(f, n, LeafOf(f, n), files);
  }

  /** Along a path the missing nodes are the last ones: a mapped node has a complete path, and an
      unmapped node is the last missing one. At most 1, 2 or 3 blocks are needed. */
  lemma {:induction false} MissingAtEnd(w: seq<Word>, t: Table, nd: Node)
    requires nd.In(|t|)
    ensures AllIn(PathOf(nd), |t|)
    ensures var m := Missing(w, t, PathOf(nd));
            && (Ptr(w, t, nd) != 0 <==> m == [])
            && (m != [] ==> m[|m| - 1] == nd)
            && |m| <= (if nd.Top? then 1 else if nd.Mid? then 2 else 3)
    decreases if nd.Top? then 0 else if nd.Mid? then 1 else 2
  {
    if nd.Top? {
      MissingTop(w, t, nd);
    } else {
      var y := nd.Parent();
      assert y.In(|t|) && (Ptr(w, t, nd) != 0 ==> Ptr(w, t, y) != 0);
      assert (if y.Top? then 1 else 2) + 1 == if nd.Mid? then 2 else 3;
      MissingAtEnd(w, t, y);
      hide *;
      MissingOn(w, t, nd);
    }
  }

  lemma MissingTop(w: seq<Word>, t: Table, nd: Node)
    requires nd.In(|t|) && nd.Top?
    ensures AllIn(PathOf(nd), |t|) && Missing(w, t, PathOf(nd)) == if Ptr(w, t, nd) == 0 then [nd] else []
  {
    MissingSnoc(w, t, [], nd);
    assert [] + [nd] == PathOf(nd);
  }

  lemma MissingOn(w: seq<Word>, t: Table, nd: Node)
    requires nd.In(|t|) && !nd.Top? && AllIn(PathOf(nd.Parent()), |t|)
    ensures AllIn(PathOf(nd), |t|)
    ensures Missing(w, t, PathOf(nd)) == Missing(w, t, PathOf(nd.Parent())) + if Ptr(w, t, nd) == 0 then [nd] else []
  {
    PathGrows(nd);
    MissingSnoc(w, t, PathOf(nd.Parent()), nd);
  }

  lemma MissingSnoc(w: seq<Word>, t: Table, path: seq<Node>, x: Node)
    requires AllIn(path, |t|) && x.In(|t|)
    ensures AllIn(path + [x], |t|)
    ensures Missing(w, t, path + [x]) == Missing(w, t, path) + if Ptr(w, t, x) == 0 then [x] else []
  {
    assert (path + [x])[..|path|] == path;
  }

  /** Different logical blocks have different leaves. */
  lemma LeavesDiffer(f: int, n: int, f': int, n': int, files: int)
    requires 0 <= f < files && 0 <= n < MAX_BLOCKS && 0 <= f' < files && 0 <= n' < MAX_BLOCKS
    ensures LeafOf(f, n) == LeafOf(f', n') ==> f == f' && n == n'
  {
    LeafBijection(f, n, LeafOf(f, n), files);
    LeafBijection(f', n', LeafOf(f', n'), files);
  }

  lemma OthersKept(g: Geometry, v: Volume, v': Volume, f: int, n: int, f': int, n': int)
    requires Sized(g, v.s.w) && 0 <= f < |v.t| && 0 <= n < MAX_BLOCKS
    requires AllIn(PathTo(f, n), |v.t|) && Extended(g, v, v', Filled(v, PathTo(f, n)))
    requires 0 <= f' < |v.t| && 0 <= n' < MAX_BLOCKS && (f', n') != (f, n)
    ensures Block(v', f', n') == Block(v, f', n')
  {
    PathIn(f, n, |v.t|);
    LeavesDiffer(f, n, f', n', |v.t|);
    LeafBijection(f', n', LeafOf(f', n'), |v.t|);
  }

  lemma LeafFilled(g: Geometry, v: Volume, v': Volume, f: int, n: int)
    requires Sound(g, v) && 0 <= f < |v.t| && 0 <= n < MAX_BLOCKS
    requires AllIn(PathTo(f, n), |v.t|) && Extended(g, v, v', Filled(v, PathTo(f, n)))
    ensures Block(v', f, n) != 0 <==> Need(v, f, n) <= |v.free|
    ensures Block(v', f, n) != 0 ==>
              Block(v', f, n) == if Need(v, f, n) == 0 then Block(v, f, n) else v.free[Need(v, f, n) - 1]
    ensures v'.free == if Need(v, f, n) <= |v.free| then v.free[Need(v, f, n)..] else []
  {
    PathIn(f, n, |v.t|);
    MissingAtEnd(v.s.w, v.t, LeafOf(f, n));
    var leaf, taken, m := LeafOf(f, n), Filled(v, PathTo(f, n)), Missing(v.s.w, v.t, PathTo(f, n));
    if m != [] && |m| <= |v.free| {
      assert taken[|m| - 1] == leaf;
      assert Ptr(v'.s.w, v'.t, taken[|m| - 1]) == v.free[|m| - 1];
    } else if m != [] {
      LeafNotFilled(v, PathTo(f, n), leaf);
    }
  }

  /** A node occurs at most once among the missing nodes of its path, so cutting it off leaves it out. */
  lemma LeafNotFilled(v: Volume, path: seq<Node>, leaf: Node)
    requires AllIn(path, |v.t|) && path != [] && path[|path| - 1] == leaf && leaf !in path[..|path| - 1]
    requires Ptr(v.s.w, v.t, leaf) == 0 && |Missing(v.s.w, v.t, path)| > |v.free|
    ensures leaf !in Filled(v, path)
  {
    var m := Missing(v.s.w, v.t, path);
    assert m[..|v.free|] == Missing(v.s.w, v.t, path[..|path| - 1])[..|v.free|];
  }

  /** The facts that make a completed walk a get-or-insert. */
  lemma WalkedLaws(g: Geometry, v: Volume, v': Volume, f: int, n: int, b: Word)
    requires Sound(g, v) && 0 <= f < |v.t| && 0 <= n < MAX_BLOCKS && Walked(g, v, v', LeafOf(f, n), b)
    ensures |v'.t| == |v.t| && Sound(g, v') && (Complete(g, v) <==> Complete(g, v'))
    ensures Block(v', f, n) != 0 <==> Need(v, f, n) <= |v.free|
    ensures Block(v', f, n) != 0 ==>
              && b == Block(v', f, n) == (if Need(v, f, n) == 0 then Block(v, f, n) else v.free[Need(v, f, n) - 1])
              && SameFortune(v, v')
    ensures Block(v', f, n) == 0 ==> v'.s.sb.nfree <= 0
    ensures forall f', n' {:trigger Block(v', f', n')} ::
              0 <= f' < |v.t| && 0 <= n' < MAX_BLOCKS && (f', n') != (f, n) ==> Block(v', f', n') == Block(v, f', n')
    ensures v'.free == if Need(v, f, n) <= |v.free| then v.free[Need(v, f, n)..] else []
    ensures SameData(v.s.w, v.t, v'.s.w, v'.t) && SameTables(g, v.s.w, v'.s.w)
  {
    PathIn(f, n, |v.t|);
    LeafFilled(g, v, v', f, n);
    hide Sound, Complete, SameData, SameTables, Missing, LeafOf, Filled;
    forall f', n' | 0 <= f' < |v.t| && 0 <= n' < MAX_BLOCKS && (f', n') != (f, n)
      ensures Block(v', f', n') == Block(v, f', n')
    {
      OthersKept(g, v, v', f, n, f', n');
    }
  }

  /** `BMap` is get-or-insert. With enough free blocks it returns the block mapped to `n`, which is
      the old one or else the last of the blocks taken from the head of the free list; no other
      logical block of any file changes its mapping, and no file reads differently. The logical
      block ends up mapped exactly when there were as many free blocks as missing nodes. */
  lemma GetOrInsert(g: Geometry, v: Volume, f: int, n: int) returns (v': Volume)
    requires Sound(g, v) && 0 <= f < |v.t| && 0 <= n < MAX_BLOCKS
    ensures |v'.t| == |v.t| && Sound(g, v') && (Complete(g, v) <==> Complete(g, v'))
    ensures v'.s == BMap(g, v.s, v.t[f], n).0 && v'.t == v.t[f := BMap(g, v.s, v.t[f], n).1]
    ensures Block(v', f, n) != 0 <==> Need(v, f, n) <= |v.free|
    ensures Block(v', f, n) != 0 ==>
              && BMap(g, v.s, v.t[f], n).2 == Block(v', f, n)
              && Block(v', f, n) == (if Need(v, f, n) == 0 then Block(v, f, n) else v.free[Need(v, f, n) - 1])
              && SameFortune(v, v')
    ensures Block(v', f, n) == 0 ==> v'.s.sb.nfree <= 0
    ensures forall f', n' {:trigger Block(v', f', n')} ::
              0 <= f' < |v.t| && 0 <= n' < MAX_BLOCKS && (f', n') != (f, n) ==> Block(v', f', n') == Block(v, f', n')
    ensures v'.free == if Need(v, f, n) <= |v.free| then v.free[Need(v, f, n)..] else []
    ensures SameData(v.s.w, v.t, v'.s.w, v'.t) && SameTables(g, v.s.w, v'.s.w)
  {
    v' := BMapWalks(g, v, f, n);
    WalkedLaws(g, v, v', f, n, BMap(g, v.s, v.t[f], n).2);
  }

  /** A call for a mapped block returns it and changes nothing at all; so a second call with the
      same arguments repeats the result of the first. */
  lemma MappedIsStable(g: Geometry, v: Volume, f: int, n: int)
    requires Sound(g, v) && 0 <= f < |v.t| && 0 <= n < MAX_BLOCKS && Block(v, f, n) != 0
    ensures BMap(g, v.s, v.t[f], n) == (v.s, v.t[f], Block(v, f, n))
  {
    var w, t, leaf := v.s.w, v.t, LeafOf(f, n);
    LeafBijection(f, n, leaf, |t|);
    if leaf.Low? {
      var top, mid := leaf.Parent().Parent(), leaf.Parent();
      assert v.owner[Ptr(w, t, top)] == top && v.owner[Ptr(w, t, mid)] == mid;
      NoWrap(g, w, Ptr(w, t, top), mid.k);
      NoWrap(g, w, Ptr(w, t, mid), leaf.j);
    } else if leaf.Mid? {
      assert v.owner[Ptr(w, t, leaf.Parent())] == leaf.Parent();
      NoWrap(g, w, Ptr(w, t, leaf.Parent()), leaf.k);
    }
  }

  /** The same in words of the disk, for each of the three kinds of blocks: the number is in address
      `n`, in a word of the block of address 6 or 7, or behind two words from address 8 or 9. */
  lemma DirectInWords(g: Geometry, s: Store, ad: Addrs, n: int)
    requires Sized(g, s.w) && 0 <= n < 6 && ad[n] != 0
    ensures BMap(g, s, ad, n) == (s, ad, ad[n])
  {
  }

  lemma SingleInWords(g: Geometry, s: Store, ad: Addrs, q: int, k: int)
    requires Sized(g, s.w) && 0 <= q < 2 && 0 <= k < 128 && 0 < ad[6 + q] < g.diskBlocks
    requires s.w[128 * ad[6 + q] + k] != 0
    ensures BMap(g, s, ad, 6 + 128 * q + k) == (s, ad, s.w[128 * ad[6 + q] + k])
  {
    NoWrap(g, s.w, ad[6 + q], k);
    assert (128 * q + k) / 128 == q && (128 * q + k) % 128 == k;
  }

  lemma DoubleInWords(g: Geometry, s: Store, ad: Addrs, q: int, k: int, j: int)
    requires Sized(g, s.w) && 0 <= q < 2 && 0 <= k < 128 && 0 <= j < 128 && 0 < ad[8 + q] < g.diskBlocks
    requires 0 < s.w[128 * ad[8 + q] + k] < g.diskBlocks && s.w[128 * s.w[128 * ad[8 + q] + k] + j] != 0
    ensures BMap(g, s, ad, 262 + 16384 * q + 128 * k + j) == (s, ad, s.w[128 * s.w[128 * ad[8 + q] + k] + j])
  {
    DoubleIndex(q, k, j);
    NoWrap(g, s.w, ad[8 + q], k);
    NoWrap(g, s.w, s.w[128 * ad[8 + q] + k], j);
    hide WordIndex, Alloc;
  }

  lemma DoubleIndex(q: nat, k: nat, j: nat)
    requires k < 128 && j < 128
    ensures var m := 16384 * q + 128 * k + j; m / 16384 == q && m / 128 % 128 == k && m % 128 == j
  {
    var m := 16384 * q + 128 * k + j;
    assert m == 128 * (128 * q + k) + j;
    assert m / 128 == 128 * q + k;
  }

  /** The mapping in words of the disk; a 0 on the way means that there is none. */
  lemma BlockInWords(v: Volume, f: int, q: int, k: int, j: int)
    requires 0 <= f < |v.t| && 0 <= q < 2 && 0 <= k < 128 && 0 <= j < 128
    ensures forall n :: 0 <= n < 6 ==> Block(v, f, n) == v.t[f][n]
    ensures Block(v, f, 6 + 128 * q + k) == Child(v.s.w, v.t[f][6 + q], k)
    ensures Block(v, f, 262 + 16384 * q + 128 * k + j) == Child(v.s.w, Child(v.s.w, v.t[f][8 + q], k), j)
  {
    DoubleIndex(q, k, j);
    assert (128 * q + k) / 128 == q;
  }

  lemma SecondCallRepeats(g: Geometry, v: Volume, f: int, n: int)
    requires Sound(g, v) && 0 <= f < |v.t| && 0 <= n < MAX_BLOCKS && Need(v, f, n) <= |v.free|
    ensures var (s', ad', b) := BMap(g, v.s, v.t[f], n); b != 0 && BMap(g, s', ad', n) == (s', ad', b)
  {
    var v' := GetOrInsert(g, v, f, n);
    MappedIsStable(g, v', f, n);
  }

  // ---------------------------------------------------------------- writes by clients

  /** Between `w` and `w'` only block `b` changed. */
  ghost predicate OnlyBlock(w: seq<Word>, w': seq<Word>, b: int) {
    |w'| == |w| && forall i {:trigger w'[i]} :: 0 <= i < |w| && !(128 * b <= i < 128 * b + 128) ==> w'[i] == w[i]
  }

  /** A node other than the written leaf, and what lies below it. */
  lemma OutsideLeaf(g: Geometry, v: Volume, w': seq<Word>, leaf: Node, x: Node)
    requires Sound(g, v) && leaf.In(|v.t|) && leaf.Leaf() && Ptr(v.s.w, v.t, leaf) != 0 && x.In(|v.t|)
    requires OnlyBlock(v.s.w, w', Ptr(v.s.w, v.t, leaf))
    ensures Ptr(w', v.t, x) == Ptr(v.s.w, v.t, x)
    ensures x != leaf ==> forall j :: 0 <= j < 128 ==> Data(w', v.t, x, j) == Data(v.s.w, v.t, x, j)
    decreases if x.Top? then 0 else if x.Mid? then 1 else 2
  {
    var b: int := Ptr(v.s.w, v.t, leaf);
    assert v.owner[Ptr(v.s.w, v.t, leaf)] == leaf;
    if !x.Top? {
      OutsideLeaf(g, v, w', leaf, x.Parent());
      assert Ptr(v.s.w, v.t, x.Parent()) != 0 ==> v.owner[Ptr(v.s.w, v.t, x.Parent())] == x.Parent();
    }
    assert Ptr(v.s.w, v.t, x) != 0 ==> v.owner[Ptr(v.s.w, v.t, x)] == x;
  }

  /** Overwriting a mapped block leaves every mapping, the free list and all other data alone. */
  lemma LeafWrite(g: Geometry, v: Volume, w': seq<Word>, leaf: Node)
    requires Sound(g, v) && leaf.In(|v.t|) && leaf.Leaf() && Ptr(v.s.w, v.t, leaf) != 0
    requires OnlyBlock(v.s.w, w', Ptr(v.s.w, v.t, leaf))
    ensures var v' := v.(s := v.s.(w := w')); Sound(g, v') && (Complete(g, v) <==> Complete(g, v'))
    ensures forall x: Node {:trigger Ptr(w', v.t, x)} :: x.In(|v.t|) ==> Ptr(w', v.t, x) == Ptr(v.s.w, v.t, x)
    ensures forall x: Node, j {:trigger Data(w', v.t, x, j)} :: x.In(|v.t|) && 0 <= j < 128 ==>
              Data(w', v.t, x, j) == if x == leaf then w'[128 * Ptr(v.s.w, v.t, leaf) + j] else Data(v.s.w, v.t, x, j)
  {
    assert v.owner[Ptr(v.s.w, v.t, leaf)] == leaf;
    forall x: Node | x.In(|v.t|)
      ensures Ptr(w', v.t, x) == Ptr(v.s.w, v.t, x)
      ensures x != leaf ==> forall j :: 0 <= j < 128 ==> Data(w', v.t, x, j) == Data(v.s.w, v.t, x, j)
    {
      OutsideLeaf(g, v, w', leaf, x);
    }
    forall c | c in v.free
      ensures SameBlock(v.s.w, w', c)
    {
      assert c != Ptr(v.s.w, v.t, leaf);
    }
    FreeFrame(g, v.s, v.s.(w := w'), v.free);
  }
}

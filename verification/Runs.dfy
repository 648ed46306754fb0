/** Whole runs: any number of files, any sequence of `BMap` calls and of writes into mapped
    blocks, starting from a freshly formatted data area. */
module Runs {
  import opened Words
  import opened DiskImage
  import opened FreeList
  import opened BlockMap
  import opened BlockMapLaws

  /** `Map` calls `BMap` for a logical block, `Put` writes one word of a logical block. */
  datatype Op = MapOp(f: int, n: int) | PutOp(f: int, n: int, j: int, x: Word) {

    predicate InRange(files: int) {
      0 <= f < files && 0 <= n < MAX_BLOCKS && (PutOp? ==> 0 <= j < 128)
    }
  }

  /** One step. Numbers out of range throw before anything is changed; a client writes only to
      blocks that are mapped. */
  ghost function Apply(g: Geometry, s: Store, t: Table, op: Op): (r: (Store, Table))
    requires Sized(g, s.w)
    ensures Sized(g, r.0.w) && |r.1| == |t|
  {
    if !op.InRange(|t|) then (s, t)
    else
      match op
      case MapOp(f, n) => var (s', ad', _) := BMap(g, s, t[f], n); (s', t[f := ad'])
      case PutOp(f, n, j, x) =>
        var b: int := Lookup(s.w, t, f, n);
        (if b != 0 then s.(w := Put(s.w, 128 * b + j, x)) else s, t)
  }

  ghost function Run(g: Geometry, s: Store, t: Table, ops: seq<Op>): (r: (Store, Table))
    requires Sized(g, s.w)
    ensures Sized(g, r.0.w) && |r.1| == |t|
  {
    if ops == [] then (s, t)
    else
      var (s', t') := Run(g, s, t, ops[..|ops| - 1]);
      Apply(g, s', t', ops[|ops| - 1])
  }

  /** What a reader of the abstract file finds in word `j` of logical block `n`: the last value
      put there after the block was mapped, 0 if there is none. */
  ghost function LastPut(ops: seq<Op>, f: int, n: int, j: int): Word {
    if ops == [] then 0
    else
      var before, op := ops[..|ops| - 1], ops[|ops| - 1];
      if op.PutOp? && op.f == f && op.n == n && op.j == j && MapOp(f, n) in before then op.x
      else LastPut(before, f, n, j)
  }

  /** Nothing mapped yet: all addresses are 0 and all data blocks are free. */
  ghost function Fresh(g: Geometry, s: Store, files: nat): Volume
    requires g.Valid()
  {
    Volume(s, seq(files, _ => NO_BLOCKS), Interval(g.DataStart(), g.DataEnd()), map[])
  }

  lemma FreshIsSound(g: Geometry, s: Store, files: nat)
    requires g.Valid() && FreeState(g, s, Interval(g.DataStart(), g.DataEnd()))
    ensures Sound(g, Fresh(g, s, files)) && Complete(g, Fresh(g, s, files))
    ensures forall x: Node {:trigger Ptr(s.w, Fresh(g, s, files).t, x)} :: x.In(files) ==>
            Ptr(s.w, Fresh(g, s, files).t, x) == 0
  {
    var v := Fresh(g, s, files);
    forall b | g.InData(b)
      ensures b in v.free
    {
      assert v.free[b - g.DataStart()] == b;
    }
  }

  /** `v'` can follow `v`: sound, with a later part of the same free list. */
  ghost predicate Follows(g: Geometry, v: Volume, v': Volume) {
    && Sound(g, v') && Complete(g, v') && |v'.t| == |v.t|
    && |v'.free| <= |v.free| && v'.free == v.free[|v.free| - |v'.free|..]
  }

  lemma StepFollows(g: Geometry, v: Volume, op: Op) returns (v': Volume)
    requires Sound(g, v) && Complete(g, v)
    ensures (v'.s, v'.t) == Apply(g, v.s, v.t, op) && Follows(g, v, v')
    ensures v'.s.sb.nfree >= 1 ==> v.s.sb.nfree >= 1
    ensures op.InRange(|v.t|) && op.MapOp? && v'.s.sb.nfree >= 1 ==> Block(v', op.f, op.n) != 0
    ensures forall f, n {:trigger Block(v', f, n)} :: 0 <= f < |v.t| && 0 <= n < MAX_BLOCKS && op != MapOp(f, n) ==>
              Block(v', f, n) == Block(v, f, n)
    ensures forall f, n, j {:trigger WordOf(v', f, n, j)} :: 0 <= f < |v.t| && 0 <= n < MAX_BLOCKS && 0 <= j < 128 ==>
              WordOf(v', f, n, j) ==
                if op.PutOp? && op.f == f && op.n == n && op.j == j && Block(v, f, n) != 0 then op.x
                else WordOf(v, f, n, j)
  {
    if !op.InRange(|v.t|) {
      v' := v;
    } else if op.MapOp? {
      v' := GetOrInsert(g, v, op.f, op.n);
      forall f, n, j | 0 <= f < |v.t| && 0 <= n < MAX_BLOCKS && 0 <= j < 128
        ensures WordOf(v', f, n, j) == WordOf(v, f, n, j)
      {
        LeafBijection(f, n, LeafOf(f, n), |v.t|);
      }
    } else {
      v' := PutFollows(g, v, op);
    }
  }

  lemma PutFollows(g: Geometry, v: Volume, op: Op) returns (v': Volume)
    requires Sound(g, v) && Complete(g, v) && op.PutOp? && op.InRange(|v.t|)
    ensures (v'.s, v'.t) == Apply(g, v.s, v.t, op) && Follows(g, v, v') && SameFortune(v, v')
    ensures forall f, n {:trigger Block(v', f, n)} :: 0 <= f < |v.t| && 0 <= n < MAX_BLOCKS ==>
              Block(v', f, n) == Block(v, f, n)
    ensures forall f, n, j {:trigger WordOf(v', f, n, j)} :: 0 <= f < |v.t| && 0 <= n < MAX_BLOCKS && 0 <= j < 128 ==>
              WordOf(v', f, n, j) ==
                if op.f == f && op.n == n && op.j == j && Block(v, f, n) != 0 then op.x else WordOf(v, f, n, j)
  {
    v' := PutSound(g, v, op);
    hide Sound, Complete, FreeState, Forest, Conserved, LeafOf, Apply, Lookup, Data;
    if Block(v, op.f, op.n) != 0 {
      forall f, n | 0 <= f < |v.t| && 0 <= n < MAX_BLOCKS
        ensures Block(v', f, n) == Block(v, f, n)
        ensures forall j {:trigger WordOf(v', f, n, j)} :: 0 <= j < 128 ==>
          WordOf(v', f, n, j) == if op.f == f && op.n == n && op.j == j then op.x else WordOf(v, f, n, j)
      {
        PutElsewhere(g, v, op, f, n);
      }
    }
  }

  lemma PutSound(g: Geometry, v: Volume, op: Op) returns (v': Volume)
    requires Sound(g, v) && Complete(g, v) && op.PutOp? && op.InRange(|v.t|)
    ensures (v'.s, v'.t) == Apply(g, v.s, v.t, op) && Follows(g, v, v') && SameFortune(v, v')
    ensures v' == if Block(v, op.f, op.n) == 0 then v
                  else v.(s := v.s.(w := Put(v.s.w, 128 * Block(v, op.f, op.n) + op.j, op.x)))
  {
    v' := v;
    if Block(v, op.f, op.n) != 0 {
      PutIsLeafWrite(g, v, op);
      v' := v.(s := v.s.(w := Put(v.s.w, 128 * Block(v, op.f, op.n) + op.j, op.x)));
      LeafWrite(g, v, v'.s.w, LeafOf(op.f, op.n));
    }
  }

  lemma PutElsewhere(g: Geometry, v: Volume, op: Op, f: int, n: int)
    requires Sound(g, v) && op.PutOp? && op.InRange(|v.t|) && Block(v, op.f, op.n) != 0
    requires 0 <= f < |v.t| && 0 <= n < MAX_BLOCKS
    ensures var v' := v.(s := v.s.(w := Put(v.s.w, 128 * Block(v, op.f, op.n) + op.j, op.x)));
            && Block(v', f, n) == Block(v, f, n)
            && forall j {:trigger WordOf(v', f, n, j)} :: 0 <= j < 128 ==>
                 WordOf(v', f, n, j) == if op.f == f && op.n == n && op.j == j then op.x else WordOf(v, f, n, j)
  {
    PutIsLeafWrite(g, v, op);
    LeafBijection(f, n, LeafOf(f, n), |v.t|);
    LeavesDiffer(f, n, op.f, op.n, |v.t|);
    OutsideLeaf(g, v, Put(v.s.w, 128 * Block(v, op.f, op.n) + op.j, op.x), LeafOf(op.f, op.n), LeafOf(f, n));
  }

  lemma PutIsLeafWrite(g: Geometry, v: Volume, op: Op)
    requires Sound(g, v) && op.PutOp? && op.InRange(|v.t|) && Block(v, op.f, op.n) != 0
    ensures LeafOf(op.f, op.n).In(|v.t|) && LeafOf(op.f, op.n).Leaf()
    ensures var b: int := Block(v, op.f, op.n); var w' := Put(v.s.w, 128 * b + op.j, op.x);
            && g.InData(b) && OnlyBlock(v.s.w, w', b)
            && (forall j {:trigger w'[128 * b + j]} :: 0 <= j < 128 ==>
                  w'[128 * b + j] == if j == op.j then op.x else Child(v.s.w, b, j))
  {
    var leaf := LeafOf(op.f, op.n);
    LeafBijection(op.f, op.n, leaf, |v.t|);
    assert v.owner[Ptr(v.s.w, v.t, leaf)] == leaf;
    var b: int := Block(v, op.f, op.n);
    var w' := Put(v.s.w, 128 * b + op.j, op.x);
    forall j | 0 <= j < 128
      ensures w'[128 * b + j] == if j == op.j then op.x else Child(v.s.w, b, j)
    {
      assert 128 * b + j < |v.s.w|;
    }
  }

  ghost function WordOf(v: Volume, f: int, n: int, j: int): Word
    requires 0 <= f < |v.t| && 0 <= n < MAX_BLOCKS && 0 <= j
  {
    LeafBijection(f, n, LeafOf(f, n), |v.t|);
    Data(v.s.w, v.t, LeafOf(f, n), j)
  }

  /** Every reachable state is sound, and no block is lost. */
  lemma {:induction false} RunFollows(g: Geometry, v: Volume, ops: seq<Op>) returns (v': Volume)
    requires Sound(g, v) && Complete(g, v)
    ensures (v'.s, v'.t) == Run(g, v.s, v.t, ops) && Follows(g, v, v')
    decreases |ops|
  {
    if ops == [] {
      v' := v;
    } else {
      var v1 := RunFollows(g, v, ops[..|ops| - 1]);
      v' := StepFollows(g, v1, ops[|ops| - 1]);
    }
  }

  /** No two places of any files hold the same block. */
  ghost predicate AllDifferent(v: Volume) {
    forall x: Node, y: Node {:trigger Ptr(v.s.w, v.t, x), Ptr(v.s.w, v.t, y)} ::
      x.In(|v.t|) && y.In(|v.t|) && x != y && Ptr(v.s.w, v.t, x) != 0 ==> Ptr(v.s.w, v.t, x) != Ptr(v.s.w, v.t, y)
  }

  /** Every pointer is 0 or names a data block that is not free. */
  ghost predicate AllAllocated(g: Geometry, v: Volume) {
    forall x: Node {:trigger Ptr(v.s.w, v.t, x)} :: x.In(|v.t|) && Ptr(v.s.w, v.t, x) != 0 ==>
      g.InData(Ptr(v.s.w, v.t, x)) && Ptr(v.s.w, v.t, x) !in v.free
  }

  /** Every data block that is not free is held somewhere. */
  ghost predicate NothingLost(g: Geometry, v: Volume) {
    forall b :: g.InData(b) && b !in v.free ==> exists x: Node :: x.In(|v.t|) && Ptr(v.s.w, v.t, x) == b
  }

  ghost predicate Owned(g: Geometry, v: Volume) {
    AllDifferent(v) && AllAllocated(g, v) && NothingLost(g, v)
  }

  /** Over every run from a fresh data area: all blocks held by any two places of any files are
      different data blocks, none of them is free, none is lost, and the free list is exactly the
      rest of the area, in ascending order. */
  lemma OwnershipForest(g: Geometry, s: Store, files: nat, ops: seq<Op>) returns (v: Volume)
    requires g.Valid() && FreeState(g, s, Interval(g.DataStart(), g.DataEnd()))
    ensures (v.s, v.t) == Run(g, s, Fresh(g, s, files).t, ops) && |v.t| == files && Sound(g, v) && Complete(g, v)
    ensures Owned(g, v)
    ensures |v.owner| + |v.free| == g.dataBlocks
    ensures v.free == Interval(g.DataStart() + |v.owner|, g.DataEnd())
  {
    FreshIsSound(g, s, files);
    v := RunFollows(g, Fresh(g, s, files), ops);
    SoundIsOwned(g, v);
    Accounting(g, v);
    FreeIsRest(g, v);
  }

  lemma FreeIsRest(g: Geometry, v: Volume)
    requires g.Valid() && |v.owner| + |v.free| == g.dataBlocks
    requires v.free == Interval(g.DataStart(), g.DataEnd())[g.dataBlocks - |v.free|..]
    ensures v.free == Interval(g.DataStart() + |v.owner|, g.DataEnd())
  {
  }

  lemma SoundIsOwned(g: Geometry, v: Volume)
    requires Sound(g, v) && Complete(g, v)
    ensures Owned(g, v)
  {
    forall b | g.InData(b) && b !in v.free
      ensures exists x: Node :: x.In(|v.t|) && Ptr(v.s.w, v.t, x) == b
    {
      assert v.owner[b].In(|v.t|) && Ptr(v.s.w, v.t, v.owner[b]) == b;
    }
  }

  lemma Partition(g: Geometry, v: Volume)
    requires Sound(g, v) && Complete(g, v)
    ensures forall b {:trigger b in v.owner} :: g.InData(b) <==> b in v.owner || b in v.free
    ensures forall b {:trigger b in v.owner} :: b in v.owner ==> b !in v.free
  {
    forall b | b in v.free
      ensures g.InData(b)
    {
      var i :| 0 <= i < |v.free| && v.free[i] == b;
    }
  }

  /** Owned and free blocks together make up the data area. */
  lemma Accounting(g: Geometry, v: Volume)
    requires Sound(g, v) && Complete(g, v)
    ensures |v.owner| + |v.free| == g.dataBlocks
  {
    Partition(g, v);
    var all := Interval(g.DataStart(), g.DataEnd());
    forall b: int
      ensures b in all <==> g.InData(b)
    {
      if g.InData(b) {
        assert all[b - g.DataStart()] == b;
      }
    }
    TwoParts(all, v.owner.Keys, v.free);
  }

  lemma TwoParts(all: seq<int>, A: set<int>, L: seq<int>)
    requires forall i, j :: 0 <= i < j < |all| ==> all[i] != all[j]
    requires forall i, j :: 0 <= i < j < |L| ==> L[i] != L[j]
    requires forall b :: b in all <==> b in A || b in L
    requires forall b :: b in A ==> b !in L
    ensures |A| + |L| == |all|
  {
    DistinctSize(all);
    DistinctSize(L);
    var whole, rest := set b | b in all, set b | b in L;
    assert A !! rest;
    forall b: int
      ensures b in A + rest <==> b in whole
    {
    }
    assert A + rest == whole;
  }

  lemma {:induction false} DistinctSize(L: seq<int>)
    requires forall i, j :: 0 <= i < j < |L| ==> L[i] != L[j]
    ensures |set b | b in L| == |L|
  {
    if L != [] {
      var M := L[..|L| - 1];
      DistinctSize(M);
      assert (set b | b in L) == (set b | b in M) + {L[|L| - 1]};
    }
  }

  /** The block map implements sparse files. In every run in which no request for a block failed,
      a logical block is mapped exactly if it was asked for, and every word of it reads as the last
      value put there, or 0. */
  lemma {:induction false} RunRefinesFiles(g: Geometry, s: Store, files: nat, ops: seq<Op>) returns (v: Volume)
    requires g.Valid() && FreeState(g, s, Interval(g.DataStart(), g.DataEnd()))
    ensures (v.s, v.t) == Run(g, s, Fresh(g, s, files).t, ops) && |v.t| == files && Sound(g, v) && Complete(g, v)
    ensures v.s.sb.nfree >= 1 ==> forall f, n {:trigger Block(v, f, n)} :: 0 <= f < files && 0 <= n < MAX_BLOCKS ==>
              (Block(v, f, n) != 0 <==> MapOp(f, n) in ops)
    ensures v.s.sb.nfree >= 1 ==> forall f, n, j {:trigger WordOf(v, f, n, j)} ::
              0 <= f < files && 0 <= n < MAX_BLOCKS && 0 <= j < 128 ==> WordOf(v, f, n, j) == LastPut(ops, f, n, j)
    decreases |ops|
  {
    if ops == [] {
      v := Fresh(g, s, files);
      FreshIsSound(g, s, files);
      forall f, n | 0 <= f < files && 0 <= n < MAX_BLOCKS
        ensures Block(v, f, n) == 0 && forall j :: 0 <= j < 128 ==> WordOf(v, f, n, j) == 0
      {
        LeafBijection(f, n, LeafOf(f, n), files);
      }
    } else {
      var before, op := ops[..|ops| - 1], ops[|ops| - 1];
      assert forall o :: o in ops <==> o in before || o == op;
      var v1 := RunRefinesFiles(g, s, files, before);
      v := StepFollows(g, v1, op);
    }
  }
}

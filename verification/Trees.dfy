/** Sequences of creations and the tree of names that they leave. */
module Trees {
  import opened Paths
  import opened Creation

  // ---------------------------------------------------------------- what a sequence leaves
  /** The first creations for the given paths, one after the other: each name was missing, its
      entry went to the end of its directory, and no entry had its number. */
  ghost predicate Story(h: seq<seq<Dir>>, log: seq<Made>, paths: seq<string>) {
    && History(h, log) && |log| <= |paths|
    && forall i {:trigger log[i]} :: 0 <= i < |log| ==> Appended(h[i], log[i], paths[i])
  }

  /** No entry of any directory leads to inode `no`, and it is not the root. */
  ghost predicate NotListed(dirs: seq<Dir>, no: int) {
    no != 0 && forall d, e {:trigger dirs[d].entries[e]} :: 0 <= d < |dirs| && 0 <= e < |dirs[d].entries| ==>
                 dirs[d].entries[e].ino != no
  }

  ghost predicate Appended(dirs: seq<Dir>, r: Made, path: string) {
    && NotListed(dirs, r.entry.ino) && Resolve(dirs, path, CREATEFILE) == Create(r.no, r.slot) && 0 <= r.no < |dirs|
    && r.slot == dirs[r.no].size && r.slot / ENTRY_SIZE == |dirs[r.no].entries|
    && var last := LastName(path, SkipSlashes(path, 0)); |last| <= NAME_LENGTH && r.entry.name == Padded(last)
  }

  lemma StoryStarts(dirs: seq<Dir>, paths: seq<string>)
    ensures Story([dirs], [], paths)
  {
  }

  lemma StoryGoesOn(h: seq<seq<Dir>>, log: seq<Made>, paths: seq<string>, dirs': seq<Dir>, r: Made)
    requires Story(h, log, paths) && |log| < |paths|
    requires Creates(h[|log|], dirs', r) && Appended(h[|log|], r, paths[|log|])
    ensures Story(h + [dirs'], log + [r], paths)
  {
    var h', log' := h + [dirs'], log + [r];
    hide Creates, Appended;
    forall i | 0 <= i < |log'|
      ensures Creates(h'[i], h'[i + 1], log'[i]) && Appended(h'[i], log'[i], paths[i])
    {
      assert i < |log| ==> log'[i] == log[i] && h'[i] == h[i] && h'[i + 1] == h[i + 1];
    }
  }

  /** It is the story of a longer list of paths as well. */
  lemma StoryOfMore(h: seq<seq<Dir>>, log: seq<Made>, paths: seq<string>, more: seq<string>)
    requires Story(h, log, paths)
    ensures Story(h, log, paths + more)
  {
    forall i | 0 <= i < |log|
      ensures Appended(h[i], log[i], (paths + more)[i])
    {
      assert Appended(h[i], log[i], paths[i]);
    }
  }

  /** In the end every created path leads to the inode that its creation stored, every path that led
      to an inode before still does, and no other path leads to any inode. */
  lemma StoryEnds(h: seq<seq<Dir>>, log: seq<Made>, paths: seq<string>)
    requires Story(h, log, paths) && forall i :: 0 <= i < |paths| ==> Proper(Split(paths[i]))
    ensures forall i {:trigger log[i]} :: 0 <= i < |log| ==>
              Resolve(h[|log|], paths[i], DELETEFILE) == Delete(log[i].no, log[i].slot, log[i].entry.ino)
    ensures forall other: string {:trigger Resolve(h[0], other, DELETEFILE)} ::
              Proper(Split(other)) && Resolve(h[0], other, DELETEFILE).Delete? ==>
              Resolve(h[|log|], other, DELETEFILE) == Resolve(h[0], other, DELETEFILE)
    ensures forall other: string {:trigger Resolve(h[|log|], other, DELETEFILE)} ::
              Proper(Split(other)) && Resolve(h[|log|], other, DELETEFILE).Delete? ==>
              || Resolve(h[|log|], other, DELETEFILE) == Resolve(h[0], other, DELETEFILE)
              || exists i {:trigger log[i]} :: 0 <= i < |log|
                   && Resolve(h[|log|], other, DELETEFILE) == Delete(log[i].no, log[i].slot, log[i].entry.ino)
  {
    var n := |log|;
    forall i | 0 <= i < n
      ensures Resolve(h[n], paths[i], DELETEFILE) == Delete(log[i].no, log[i].slot, log[i].entry.ino)
    {
      StoryPath(h, log, paths, i);
    }
    forall k | 0 <= k < n
      ensures !Surfaces(h[k][log[k].no], log[k].slot, log[k].entry, log[k].tail)
    {
      assert Appended(h[k], log[k], paths[k]);
    }
    hide History, Surfaces, Proper, Split;
    forall other: string | Proper(Split(other)) && Resolve(h[0], other, DELETEFILE).Delete?
      ensures Resolve(h[n], other, DELETEFILE) == Resolve(h[0], other, DELETEFILE)
    {
      FoundForever(h, log, 0, n, other);
    }
    forall other: string | Proper(Split(other)) && Resolve(h[n], other, DELETEFILE).Delete?
      ensures || Resolve(h[n], other, DELETEFILE) == Resolve(h[0], other, DELETEFILE)
              || exists i {:trigger log[i]} :: 0 <= i < n
                   && Resolve(h[n], other, DELETEFILE) == Delete(log[i].no, log[i].slot, log[i].entry.ino)
    {
      OnlyLogged(h, log, 0, n, other);
    }
  }

  lemma StoryPath(h: seq<seq<Dir>>, log: seq<Made>, paths: seq<string>, i: nat)
    requires Story(h, log, paths) && i < |log| && Proper(Split(paths[i]))
    ensures Resolve(h[|log|], paths[i], DELETEFILE) == Delete(log[i].no, log[i].slot, log[i].entry.ino)
  {
    var r, path := log[i], paths[i];
    assert Appended(h[i], r, path) && Creates(h[i], h[i + 1], r);
    assert Split(path)[|Split(path)| - 1] == LastName(path, SkipSlashes(path, 0));
    hide History, Added, Proper, Walk, SlotFor, LeadsNowhere, NotListed;
    CreatedIsFound(h[i], h[i + 1], r.no, r.slot, r.entry, r.tail, 0, Split(path));
    FoundForever(h, log, i + 1, |log|, path);
  }


  // ---------------------------------------------------------------- the tree

  /** The names are the same once they are padded to their length in a directory. */
  ghost predicate SameNames(a: seq<string>, b: seq<string>) {
    && |a| == |b|
    && forall i {:trigger a[i]} {:trigger b[i]} :: 0 <= i < |a| ==>
         |a[i]| <= NAME_LENGTH && |b[i]| <= NAME_LENGTH && Padded(a[i]) == Padded(b[i])
  }

  ghost predicate AllShort(names: seq<string>) {
    forall i :: 0 <= i < |names| ==> |names[i]| <= NAME_LENGTH
  }

  function Front(names: seq<string>): seq<string>
    requires names != []
  {
    names[..|names| - 1]
  }

  function Last(names: seq<string>): string
    requires names != []
  {
    names[|names| - 1]
  }

  /** The inode to which a list of names leads from directory `from`, or -1. */
  ghost function At(dirs: seq<Dir>, from: int, names: seq<string>): int
    decreases |names|
  {
    if names == [] then from
    else if !(0 <= from < |dirs|) || |names[0]| > NAME_LENGTH then -1
    else
      var e := Match(dirs[from].entries, Padded(names[0]), 0);
      if e < |dirs[from].entries| then At(dirs, dirs[from].entries[e].ino, names[1..]) else -1
  }

  /** The directories form a tree: every entry leads to an inode, no two to the same one, and none to
      the root. */
  ghost predicate GoodTree(dirs: seq<Dir>) {
    && |dirs| > 0 && (forall d :: 0 <= d < |dirs| ==> Sane(dirs[d])) && InRange(dirs) && NoTwice(dirs)
  }

  ghost predicate InRange(dirs: seq<Dir>) {
    forall d, e {:trigger dirs[d].entries[e]} :: 0 <= d < |dirs| && 0 <= e < |dirs[d].entries| ==>
      0 < dirs[d].entries[e].ino < |dirs|
  }

  ghost predicate NoTwice(dirs: seq<Dir>) {
    forall d, e, d', e' {:trigger dirs[d].entries[e], dirs[d'].entries[e']} ::
      0 <= d < |dirs| && 0 <= e < |dirs[d].entries| && 0 <= d' < |dirs| && 0 <= e' < |dirs[d'].entries| ==>
      dirs[d].entries[e].ino == dirs[d'].entries[e'].ino ==> d == d' && e == e'
  }

  lemma {:induction false} AtInRange(dirs: seq<Dir>, from: int, names: seq<string>)
    requires InRange(dirs) && 0 <= from < |dirs|
    ensures -1 <= At(dirs, from, names) < |dirs|
    decreases |names|
  {
    if names != [] && |names[0]| <= NAME_LENGTH {
      var e := Match(dirs[from].entries, Padded(names[0]), 0);
      if e < |dirs[from].entries| {
        AtInRange(dirs, dirs[from].entries[e].ino, names[1..]);
      }
    }
  }

  /** The last name is looked up where the others lead. */
  lemma {:induction false} AtLast(dirs: seq<Dir>, from: int, names: seq<string>)
    requires InRange(dirs) && 0 <= from < |dirs| && names != []
    ensures var p := At(dirs, from, Front(names));
            At(dirs, from, names) == if p < 0 then -1 else At(dirs, p, [Last(names)])
    decreases |names|
  {
    if |names| > 1 {
      assert Front(names)[0] == names[0] && Front(names)[1..] == Front(names[1..]) && Last(names[1..]) == Last(names);
      if |names[0]| <= NAME_LENGTH {
        var e := Match(dirs[from].entries, Padded(names[0]), 0);
        if e < |dirs[from].entries| {
          AtLast(dirs, dirs[from].entries[e].ino, names[1..]);
        }
      }
    } else {
      assert names == [Last(names)];
    }
  }

  /** So does a walk. */
  lemma {:induction false} WalkLast(dirs: seq<Dir>, from: int, names: seq<string>, flag: int)
    requires GoodTree(dirs) && 0 <= from < |dirs| && names != []
    ensures var p, r := At(dirs, from, Front(names)), Walk(dirs, from, names, flag);
            if p < 0 then r == NotFound || r == TooLong else r == Walk(dirs, p, [Last(names)], flag)
    decreases |names|
  {
    if |names| > 1 {
      assert Front(names)[0] == names[0] && Front(names)[1..] == Front(names[1..]) && Last(names[1..]) == Last(names);
      if |names[0]| <= NAME_LENGTH {
        var e := Match(dirs[from].entries, Padded(names[0]), 0);
        if e < |dirs[from].entries| {
          WalkLast(dirs, dirs[from].entries[e].ino, names[1..], flag);
        }
      }
    } else {
      assert names == [Last(names)];
    }
  }

  /** A lookup finds a path exactly if its names lead somewhere. */
  lemma FoundIff(dirs: seq<Dir>, names: seq<string>)
    requires GoodTree(dirs) && names != []
    ensures Walk(dirs, 0, names, DELETEFILE).Delete? <==> At(dirs, 0, names) >= 0
  {
    WalkLast(dirs, 0, names, DELETEFILE);
    AtLast(dirs, 0, names);
    AtInRange(dirs, 0, Front(names));
  }

  /** It allows a creation exactly if the names before the last lead somewhere and all of them do not. */
  lemma CreateIff(dirs: seq<Dir>, names: seq<string>)
    requires GoodTree(dirs) && names != []
    ensures Walk(dirs, 0, names, CREATEFILE).Create? <==>
            AllShort(names) && At(dirs, 0, Front(names)) >= 0 && At(dirs, 0, names) < 0
    ensures Walk(dirs, 0, names, CREATEFILE).Create? ==>
            Walk(dirs, 0, names, CREATEFILE).dir == At(dirs, 0, Front(names))
  {
    WalkLast(dirs, 0, names, CREATEFILE);
    AtLast(dirs, 0, names);
    AtInRange(dirs, 0, Front(names));
    if At(dirs, 0, Front(names)) >= 0 {
      AtShort(dirs, 0, Front(names));
      assert AllShort(names) <==> |Last(names)| <= NAME_LENGTH;
    }
  }

  lemma {:induction false} AtShort(dirs: seq<Dir>, from: int, names: seq<string>)
    requires InRange(dirs) && At(dirs, from, names) >= 0
    ensures AllShort(names)
    decreases |names|
  {
    if names != [] {
      AtShort(dirs, dirs[from].entries[Match(dirs[from].entries, Padded(names[0]), 0)].ino, names[1..]);
      assert forall i :: 0 < i < |names| ==> names[i] == names[1..][i - 1];
    }
  }

  lemma {:induction false} AtSame(dirs: seq<Dir>, from: int, a: seq<string>, b: seq<string>)
    requires SameNames(a, b)
    ensures At(dirs, from, a) == At(dirs, from, b)
    decreases |a|
  {
    if a != [] && 0 <= from < |dirs| {
      assert |a[0]| <= NAME_LENGTH;
      var e := Match(dirs[from].entries, Padded(a[0]), 0);
      if e < |dirs[from].entries| {
        assert SameNames(a[1..], b[1..]);
        AtSame(dirs, dirs[from].entries[e].ino, a[1..], b[1..]);
      }
    }
  }

  /** One of the names is too long, and those before it lead somewhere. */
  ghost predicate MeetsLong(dirs: seq<Dir>, from: int, names: seq<string>) {
    exists k {:trigger names[k]} :: 0 <= k < |names| && |names[k]| > 28 && At(dirs, from, names[..k]) >= 0
  }

  lemma {:induction false} TooLongIff(dirs: seq<Dir>, from: int, names: seq<string>, flag: int)
    requires GoodTree(dirs) && 0 <= from < |dirs| && names != []
    ensures Walk(dirs, from, names, flag) == TooLong <==> MeetsLong(dirs, from, names)
    decreases |names|
  {
    if |names[0]| > 28 {
      assert At(dirs, from, names[..0]) == from;
    } else if |names| > 1 {
      var e := Match(dirs[from].entries, Padded(names[0]), 0);
      if e < |dirs[from].entries| {
        TooLongIff(dirs, dirs[from].entries[e].ino, names[1..], flag);
      }
      MeetsLater(dirs, from, names);
    }
  }

  lemma MeetsLater(dirs: seq<Dir>, from: int, names: seq<string>)
    requires GoodTree(dirs) && 0 <= from < |dirs| && |names| > 1 && |names[0]| <= 28
    ensures var e := Match(dirs[from].entries, Padded(names[0]), 0);
            MeetsLong(dirs, from, names) <==>
            e < |dirs[from].entries| && MeetsLong(dirs, dirs[from].entries[e].ino, names[1..])
  {
    var e := Match(dirs[from].entries, Padded(names[0]), 0);
    forall k | 0 < k < |names|
      ensures At(dirs, from, names[..k]) ==
              if e < |dirs[from].entries| then At(dirs, dirs[from].entries[e].ino, names[1..][..k - 1]) else -1
    {
      assert names[..k][0] == names[0] && names[..k][1..] == names[1..][..k - 1];
    }
    if e < |dirs[from].entries| && MeetsLong(dirs, dirs[from].entries[e].ino, names[1..]) {
      var rest := names[1..];
      var k :| 0 <= k < |rest| && |rest[k]| > 28 && At(dirs, dirs[from].entries[e].ino, rest[..k]) >= 0;
      assert names[k + 1] == rest[k];
      assert At(dirs, from, names[..k + 1]) >= 0;
    }
    if MeetsLong(dirs, from, names) {
      var k :| 0 <= k < |names| && |names[k]| > 28 && At(dirs, from, names[..k]) >= 0;
      assert names[k] == names[1..][k - 1];
    }
  }

  /** Every outcome of a lookup in a tree, in terms of where the names lead. */
  lemma OutcomeIs(dirs: seq<Dir>, names: seq<string>, flag: int)
    requires GoodTree(dirs) && names != []
    ensures var r, p, no := Walk(dirs, 0, names, flag), At(dirs, 0, Front(names)), At(dirs, 0, names);
            && (r == TooLong <==> MeetsLong(dirs, 0, names)) && p < |dirs| && (no >= 0 ==> 0 <= p)
            && (r != TooLong ==>
                  if no >= 0 && flag == 2 then
                    && r.Delete? && r.dir == p && r.no == no && |Last(names)| <= 28
                    && r.offset == 32 * Match(dirs[p].entries, Padded(Last(names)), 0)
                  else if no >= 0 then r == Exists
                  else if p >= 0 && flag == 1 then r == Create(p, SlotFor(dirs[p]))
                  else r == NotFound)
  {
    TooLongIff(dirs, 0, names, flag);
    WalkLast(dirs, 0, names, flag);
    AtLast(dirs, 0, names);
    AtInRange(dirs, 0, Front(names));
    if At(dirs, 0, names) >= 0 {
      AtShort(dirs, 0, names);
    }
  }

  /** In a tree different names lead to different inodes. */
  lemma {:induction false} AtUnique(dirs: seq<Dir>, a: seq<string>, b: seq<string>)
    requires GoodTree(dirs) && At(dirs, 0, a) == At(dirs, 0, b) >= 0
    ensures SameNames(a, b)
    decreases |a|
  {
    if a != [] {
      NeverRoot(dirs, a);
    }
    if b != [] {
      NeverRoot(dirs, b);
    }
    if a != [] && b != [] {
      AtUnique(dirs, Front(a), Front(b));
      SameSnoc(a, b);
    }
  }

  /** Where the last step of a path leads: to an entry of the directory before it, hence not to the root. */
  lemma NeverRoot(dirs: seq<Dir>, names: seq<string>)
    requires GoodTree(dirs) && names != [] && At(dirs, 0, names) >= 0
    ensures var p := At(dirs, 0, Front(names));
            && 0 <= p < |dirs| && |Last(names)| <= NAME_LENGTH
            && var e := Match(dirs[p].entries, Padded(Last(names)), 0);
               e < |dirs[p].entries| && At(dirs, 0, names) == dirs[p].entries[e].ino > 0
  {
    AtLast(dirs, 0, names);
    AtInRange(dirs, 0, Front(names));
  }

  lemma SameSnoc(a: seq<string>, b: seq<string>)
    requires a != [] && b != [] && SameNames(Front(a), Front(b))
    requires |Last(a)| <= NAME_LENGTH && |Last(b)| <= NAME_LENGTH && Padded(Last(a)) == Padded(Last(b))
    ensures SameNames(a, b)
  {
    forall i | 0 <= i < |a|
      ensures |a[i]| <= NAME_LENGTH && |b[i]| <= NAME_LENGTH && Padded(a[i]) == Padded(b[i])
    {
      if i < |a| - 1 {
        assert Front(a)[i] == a[i] && Front(b)[i] == b[i];
      }
    }
  }

  // ---------------------------------------------------------------- one creation

  /** The listings after a creation whose entry went to the end. */
  ghost predicate Longer(dirs: seq<Dir>, dirs': seq<Dir>, no: int, x: Entry) {
    && |dirs'| == |dirs| && 0 <= no < |dirs| && dirs'[no].entries == dirs[no].entries + [x]
    && (forall d {:trigger dirs'[d]} :: 0 <= d < |dirs| && d != no ==> dirs'[d].entries == dirs[d].entries)
    && (forall d {:trigger dirs'[d]} :: 0 <= d < |dirs| ==> Sane(dirs'[d]))
    && 0 < x.ino < |dirs| && x.ino != no && dirs[x.ino].entries == [] && NotListed(dirs, x.ino)
  }

  lemma AppendedIsLonger(dirs: seq<Dir>, dirs': seq<Dir>, r: Made, path: string)
    requires GoodTree(dirs) && Creates(dirs, dirs', r) && Appended(dirs, r, path)
    ensures Longer(dirs, dirs', r.no, r.entry)
  {
    forall d | 0 <= d < |dirs|
      ensures Sane(dirs'[d])
    {
      assert Sane(dirs[d]);
    }
  }

  lemma LongerIsTree(dirs: seq<Dir>, dirs': seq<Dir>, no: int, x: Entry)
    requires GoodTree(dirs) && Longer(dirs, dirs', no, x)
    ensures GoodTree(dirs')
  {
    forall d, e | 0 <= d < |dirs'| && 0 <= e < |dirs'[d].entries|
      ensures if d == no && e == |dirs[no].entries| then dirs'[d].entries[e] == x
              else e < |dirs[d].entries| && dirs'[d].entries[e] == dirs[d].entries[e]
    {
    }
  }

  /** The lowest match in a list with one entry more. */
  lemma MatchLonger(a: seq<Entry>, x: Entry, name: string)
    ensures Match(a + [x], name, 0) ==
            if Match(a, name, 0) < |a| then Match(a, name, 0) else if x.name == name then |a| else |a| + 1
  {
    var b := a + [x];
    assert forall k :: 0 <= k < |a| ==> b[k] == a[k];
    assert b[|a|] == x;
    var e, f := Match(a, name, 0), Match(b, name, 0);
    assert f < |b| ==> b[f].name == name;
  }

  /** What names led to they still lead to. */
  lemma {:induction false} AtStays(dirs: seq<Dir>, dirs': seq<Dir>, no: int, x: Entry, from: int, names: seq<string>)
    requires InRange(dirs) && Longer(dirs, dirs', no, x) && At(dirs, from, names) >= 0
    ensures At(dirs', from, names) == At(dirs, from, names)
    decreases |names|
  {
    if names != [] {
      var name := Padded(names[0]);
      MatchLonger(dirs[no].entries, x, name);
      AtStays(dirs, dirs', no, x, dirs[from].entries[Match(dirs[from].entries, name, 0)].ino, names[1..]);
    }
  }

  /** The new names lead to the new inode. */
  lemma AtNew(dirs: seq<Dir>, dirs': seq<Dir>, no: int, x: Entry, made: seq<string>)
    requires GoodTree(dirs) && Longer(dirs, dirs', no, x) && made != [] && At(dirs, 0, Front(made)) == no
    requires |Last(made)| <= NAME_LENGTH && x.name == Padded(Last(made)) && At(dirs, 0, made) < 0
    ensures At(dirs', 0, made) == x.ino
  {
    AtStays(dirs, dirs', no, x, 0, Front(made));
    LongerIsTree(dirs, dirs', no, x);
    AtLast(dirs, 0, made);
    AtLast(dirs', 0, made);
    MatchLonger(dirs[no].entries, x, x.name);
  }

  /** Nothing lies below the new inode. */
  lemma NothingBelow(dirs: seq<Dir>, dirs': seq<Dir>, no: int, x: Entry, made: seq<string>, names: seq<string>)
    requires GoodTree(dirs) && Longer(dirs, dirs', no, x) && made != [] && At(dirs, 0, Front(made)) == no
    requires |Last(made)| <= NAME_LENGTH && x.name == Padded(Last(made)) && At(dirs, 0, made) < 0
    requires names != [] && SameNames(Front(names), made)
    ensures At(dirs', 0, names) < 0
  {
    AtSame(dirs', 0, Front(names), made);
    AtNew(dirs, dirs', no, x, made);
    LongerIsTree(dirs, dirs', no, x);
    AtLast(dirs', 0, names);
  }

  /** No other names lead anywhere that did not before. */
  lemma {:induction false} AtOnly(dirs: seq<Dir>, dirs': seq<Dir>, no: int, x: Entry, made: seq<string>,
                                  names: seq<string>)
    requires GoodTree(dirs) && Longer(dirs, dirs', no, x) && made != [] && At(dirs, 0, Front(made)) == no
    requires |Last(made)| <= NAME_LENGTH && x.name == Padded(Last(made)) && At(dirs, 0, made) < 0
    requires At(dirs, 0, names) < 0 <= At(dirs', 0, names)
    ensures SameNames(names, made)
    decreases |names|
  {
    assert names != [];
    hide GoodTree, Longer, SameNames, Front;
    if At(dirs, 0, Front(names)) < 0 {
      LongerIsTree(dirs, dirs', no, x);
      NeverRoot(dirs', names);
      AtOnly(dirs, dirs', no, x, made, Front(names));
      NothingBelow(dirs, dirs', no, x, made, names);
    } else {
      LastIsNew(dirs, dirs', no, x, made, names);
    }
  }

  lemma LastIsNew(dirs: seq<Dir>, dirs': seq<Dir>, no: int, x: Entry, made: seq<string>, names: seq<string>)
    requires GoodTree(dirs) && Longer(dirs, dirs', no, x) && made != [] && At(dirs, 0, Front(made)) == no
    requires |Last(made)| <= NAME_LENGTH && x.name == Padded(Last(made)) && names != []
    requires At(dirs, 0, Front(names)) >= 0 && At(dirs, 0, names) < 0 <= At(dirs', 0, names)
    ensures SameNames(names, made)
  {
    LongerIsTree(dirs, dirs', no, x);
    NeverRoot(dirs', names);
    AtLast(dirs, 0, names);
    AtLast(dirs', 0, names);
    AtInRange(dirs, 0, Front(names));
    AtStays(dirs, dirs', no, x, 0, Front(names));
    hide SameNames, GoodTree, Longer, At, NoTwice, Front, Last;
    NewInDirectory(dirs, dirs', no, x, At(dirs, 0, Front(names)), Last(names));
    AtUnique(dirs, Front(names), Front(made));
    SameSnoc(names, made);
  }

  /** A name that a directory lacked is the new one. */
  lemma NewInDirectory(dirs: seq<Dir>, dirs': seq<Dir>, no: int, x: Entry, p: int, name: string)
    requires InRange(dirs) && Longer(dirs, dirs', no, x) && 0 <= p < |dirs| && |name| <= NAME_LENGTH
    requires At(dirs, p, [name]) < 0 <= At(dirs', p, [name])
    ensures p == no && Padded(name) == x.name
  {
    MatchLonger(dirs[no].entries, x, Padded(name));
  }

  // ---------------------------------------------------------------- the tree of a story

  /** No directory has entries. */
  ghost predicate Bare(dirs: seq<Dir>) {
    |dirs| > 0 && forall d {:trigger dirs[d]} :: 0 <= d < |dirs| ==> Sane(dirs[d]) && dirs[d].entries == []
  }

  /** One of the first `k` paths consists of these names. */
  ghost predicate Among(names: seq<string>, paths: seq<string>, k: nat) {
    exists j {:trigger paths[j]} :: 0 <= j < k <= |paths| && SameNames(names, Split(paths[j]))
  }

  /** What stands at the end of a story that began without entries: a tree, in which just the paths of
      the creations lead somewhere. */
  lemma {:induction false} TreeIs(h: seq<seq<Dir>>, log: seq<Made>, paths: seq<string>, k: nat, names: seq<string>)
    requires Story(h, log, paths) && Bare(h[0]) && k <= |log| && names != []
    ensures GoodTree(h[k])
    ensures At(h[k], 0, names) >= 0 <==> Among(names, paths, k)
    decreases k
  {
    if k == 0 {
      BareTree(h[0], names);
    } else {
      var r := log[k - 1];
      assert Creates(h[k - 1], h[k], r) && Appended(h[k - 1], r, paths[k - 1]);
      hide Bare, Story, GoodTree, Creates, Appended, At, Among, SameNames, Split;
      TreeIs(h, log, paths, k - 1, names);
      TreeStep(h[k - 1], h[k], r, paths[k - 1], names);
      AmongNext(names, paths, k - 1);
    }
  }

  lemma BareTree(dirs: seq<Dir>, names: seq<string>)
    requires Bare(dirs) && names != []
    ensures GoodTree(dirs) && At(dirs, 0, names) < 0
  {
  }

  lemma AmongNext(names: seq<string>, paths: seq<string>, k: nat)
    requires k < |paths|
    ensures Among(names, paths, k + 1) <==> Among(names, paths, k) || SameNames(names, Split(paths[k]))
  {
    hide SameNames, Split;
    if Among(names, paths, k) {
      var j :| 0 <= j < k && SameNames(names, Split(paths[j]));
      assert Among(names, paths, k + 1);
    }
    if Among(names, paths, k + 1) {
      var j :| 0 <= j < k + 1 && SameNames(names, Split(paths[j]));
      assert j < k ==> Among(names, paths, k);
    }
  }

  lemma TreeStep(dirs: seq<Dir>, dirs': seq<Dir>, r: Made, path: string, names: seq<string>)
    requires GoodTree(dirs) && Creates(dirs, dirs', r) && Appended(dirs, r, path) && names != []
    ensures GoodTree(dirs')
    ensures At(dirs', 0, names) >= 0 <==> At(dirs, 0, names) >= 0 || SameNames(names, Split(path))
  {
    var made := Split(path);
    AppendedIsLonger(dirs, dirs', r, path);
    LongerIsTree(dirs, dirs', r.no, r.entry);
    CreateIff(dirs, made);
    assert Last(made) == LastName(path, SkipSlashes(path, 0));
    hide GoodTree, Creates, At, Walk, Longer;
    if At(dirs, 0, names) >= 0 {
      AtStays(dirs, dirs', r.no, r.entry, 0, names);
    } else if At(dirs', 0, names) >= 0 {
      AtOnly(dirs, dirs', r.no, r.entry, made, names);
    }
    AtNew(dirs, dirs', r.no, r.entry, made);
    if SameNames(names, made) {
      AtSame(dirs', 0, names, made);
    }
  }

  /** Path `i` can be created after those before it: its names fit into entries, it repeats none of
      them, and its parent is the root or one of them. */
  ghost predicate Admits(paths: seq<string>, i: nat)
    requires i < |paths|
  {
    var names := Split(paths[i]);
    AllShort(names) && !Among(names, paths, i) && (|names| == 1 || Among(Front(names), paths, i))
  }

  /** Whether the next creation of a story is allowed depends on the paths only. */
  lemma NextIff(h: seq<seq<Dir>>, log: seq<Made>, paths: seq<string>, k: nat)
    requires Story(h, log, paths) && Bare(h[0]) && k <= |log| && k < |paths|
    ensures Resolve(h[k], paths[k], CREATEFILE).Create? <==> Admits(paths, k)
  {
    var names := Split(paths[k]);
    TreeIs(h, log, paths, k, names);
    hide Story, GoodTree, At, Walk, Among, AllShort, Bare, Split;
    CreateIff(h[k], names);
    if |names| > 1 {
      TreeIs(h, log, paths, k, Front(names));
    } else {
      RootIsThere(h[k], names);
    }
  }

  lemma RootIsThere(dirs: seq<Dir>, names: seq<string>)
    requires |names| == 1
    ensures At(dirs, 0, Front(names)) == 0
  {
  }

  /** A lookup finds just the paths that were created. */
  lemma FoundIffMade(h: seq<seq<Dir>>, log: seq<Made>, paths: seq<string>, k: nat, other: string)
    requires Story(h, log, paths) && Bare(h[0]) && k <= |log|
    ensures Resolve(h[k], other, DELETEFILE).Delete? <==> Among(Split(other), paths, k)
  {
    TreeIs(h, log, paths, k, Split(other));
    FoundIff(h[k], Split(other));
  }
}

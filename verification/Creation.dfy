/** What adding one entry to a directory does to lookups: the new name is found where it was put,
    every name that was found before is still found, and when nothing else is. */
module Creation {
  import opened Paths

  /** The entries of a directory that has grown by one entry after `x` was written over entry `e`.
      If that is not the end, `tail`, what lies behind the old end, becomes an entry as well. */
  function EntriesAfter(entries: seq<Entry>, e: nat, x: Entry, tail: Entry): (r: seq<Entry>)
    requires e <= |entries|
    ensures |r| == |entries| + 1 && r[e] == x && (e < |entries| ==> r[|entries|] == tail)
    ensures forall k {:trigger r[k]} :: 0 <= k < |entries| && k != e ==> r[k] == entries[k]
  {
    if e == |entries| then entries + [x] else entries[e := x] + [tail]
  }

  /** `d'` is `d` grown by one entry after `x` was written at offset `slot`. */
  ghost predicate EntryAdded(d: Dir, d': Dir, slot: int, x: Entry, tail: Entry) {
    && d'.size == d.size + ENTRY_SIZE && Sane(d) && Sane(d')
    && slot % ENTRY_SIZE == 0 && 0 <= slot / ENTRY_SIZE <= |d.entries|
    && d'.entries == EntriesAfter(d.entries, slot / ENTRY_SIZE, x, tail)
  }

  /** Directory `no` gained entry `x`; all others list the same entries. */
  ghost predicate Added(dirs: seq<Dir>, dirs': seq<Dir>, no: int, slot: int, x: Entry, tail: Entry) {
    && |dirs'| == |dirs| && 0 <= no < |dirs| && EntryAdded(dirs[no], dirs'[no], slot, x, tail)
    && forall k {:trigger dirs'[k]} :: 0 <= k < |dirs| && k != no ==>
         dirs'[k].size == dirs[k].size && dirs'[k].entries == dirs[k].entries
  }

  /** Names as they occur in paths: not empty and not beginning with the character that marks an
      entry as unused. */
  predicate Proper(names: seq<string>) {
    forall i :: 0 <= i < |names| ==> names[i] != [] && names[i][0] != 0 as char
  }

  /** A name that was there is where it was. */
  lemma MatchKept(d: Dir, d': Dir, slot: int, x: Entry, tail: Entry, name: string)
    requires EntryAdded(d, d', slot, x, tail) && slot == SlotFor(d) && name != x.name && name != []
             && name[0] != 0 as char
    requires Match(d.entries, name, 0) < |d.entries|
    ensures Match(d'.entries, name, 0) == Match(d.entries, name, 0)
    ensures d'.entries[Match(d.entries, name, 0)] == d.entries[Match(d.entries, name, 0)]
  {
    SlotIsFree(d);
    var e := Match(d.entries, name, 0);
    assert d'.entries[e] == d.entries[e];
    forall k | 0 <= k < e
      ensures d'.entries[k].name != name
    {
    }
  }

  /** The new name is found in its slot. */
  lemma MatchNew(d: Dir, d': Dir, slot: int, x: Entry, tail: Entry)
    requires EntryAdded(d, d', slot, x, tail) && slot == SlotFor(d) && Match(d.entries, x.name, 0) == |d.entries|
    ensures ENTRY_SIZE * Match(d'.entries, x.name, 0) == slot
    ensures d'.entries[slot / ENTRY_SIZE] == x
  {
    forall k | 0 <= k < slot / ENTRY_SIZE
      ensures d'.entries[k].name != x.name
    {
      assert d'.entries[k] == d.entries[k];
    }
  }

  /** Every name that a lookup found is still found, at the same place and with the same inode. */
  lemma {:induction false} FoundIsKept(dirs: seq<Dir>, dirs': seq<Dir>, no: int, slot: int, x: Entry, tail: Entry,
                                       from: int, names: seq<string>)
    requires Added(dirs, dirs', no, slot, x, tail) && slot == SlotFor(dirs[no])
             && Match(dirs[no].entries, x.name, 0) == |dirs[no].entries|
    requires names != [] && Proper(names)
    requires Walk(dirs, from, names, DELETEFILE).Delete?
    ensures Walk(dirs', from, names, DELETEFILE) == Walk(dirs, from, names, DELETEFILE)
    decreases |names|
  {
    StepKept(dirs, dirs', no, slot, x, tail, from, names[0]);
    if |names| > 1 {
      var d := dirs[from];
      FoundIsKept(dirs, dirs', no, slot, x, tail, d.entries[Match(d.entries, Padded(names[0]), 0)].ino, names[1..]);
    }
  }

  /** One step of a lookup that finds its name. */
  lemma StepKept(dirs: seq<Dir>, dirs': seq<Dir>, no: int, slot: int, x: Entry, tail: Entry, from: int, name: string)
    requires Added(dirs, dirs', no, slot, x, tail) && slot == SlotFor(dirs[no])
             && Match(dirs[no].entries, x.name, 0) == |dirs[no].entries|
    requires 0 <= from < |dirs| && Sane(dirs[from]) && name != [] && name[0] != 0 as char && |name| <= NAME_LENGTH
    requires Match(dirs[from].entries, Padded(name), 0) < |dirs[from].entries|
    ensures Sane(dirs'[from])
    ensures var e := Match(dirs[from].entries, Padded(name), 0);
            && Match(dirs'[from].entries, Padded(name), 0) == e < |dirs'[from].entries|
            && dirs'[from].entries[e] == dirs[from].entries[e]
  {
    if from == no {
      MatchKept(dirs[no], dirs'[no], slot, x, tail, Padded(name));
    }
  }

  /** After a creation the path is found: a second creation is refused, and a deletion gets the slot
      and the inode number that the creation stored. */
  lemma {:induction false} CreatedIsFound(dirs: seq<Dir>, dirs': seq<Dir>, no: int, slot: int, x: Entry, tail: Entry,
                                          from: int, names: seq<string>)
    requires Added(dirs, dirs', no, slot, x, tail)
    requires names != [] && (|names| == 1 || Proper(names)) && Walk(dirs, from, names, CREATEFILE) == Create(no, slot)
    requires |names[|names| - 1]| <= NAME_LENGTH && x.name == Padded(names[|names| - 1])
    ensures Walk(dirs', from, names, CREATEFILE) == Exists
    ensures Walk(dirs', from, names, DELETEFILE) == Delete(no, slot, x.ino)
    decreases |names|
  {
    CreateMeansAbsent(dirs, from, names, no, slot);
    if |names| > 1 {
      var d := dirs[from];
      StepKept(dirs, dirs', no, slot, x, tail, from, names[0]);
      CreatedIsFound(dirs, dirs', no, slot, x, tail, d.entries[Match(d.entries, Padded(names[0]), 0)].ino, names[1..]);
    } else {
      MatchNew(dirs[no], dirs'[no], slot, x, tail);
    }
  }

  /** A lookup reports a creation only in a directory that lacks the name. */
  lemma {:induction false} CreateMeansAbsent(dirs: seq<Dir>, from: int, names: seq<string>, no: int, slot: int)
    requires names != [] && Walk(dirs, from, names, CREATEFILE) == Create(no, slot)
    ensures |names[|names| - 1]| <= NAME_LENGTH && 0 <= no < |dirs| && Sane(dirs[no]) && slot == SlotFor(dirs[no])
    ensures Match(dirs[no].entries, Padded(names[|names| - 1]), 0) == |dirs[no].entries|
    decreases |names|
  {
    if |names| > 1 {
      var d := dirs[from];
      CreateMeansAbsent(dirs, d.entries[Match(d.entries, Padded(names[0]), 0)].ino, names[1..], no, slot);
    }
  }

  /** The components of a path without the character 0 are proper, or there is only one. */
  lemma SplitProper(path: string)
    requires forall k :: 0 <= k < |path| ==> path[k] != 0 as char
    ensures |Split(path)| == 1 || Proper(Split(path))
  {
    var start := SkipSlashes(path, 0);
    if start < |path| {
      NamesProper(path, start);
    }
  }

  lemma {:induction false} NamesProper(path: string, i: nat)
    requires forall k :: 0 <= k < |path| ==> path[k] != 0 as char
    requires i < |path| && path[i] != SLASH
    ensures Proper(NamesFrom(path, i))
    decreases |path| - i
  {
    var name, next := path[i..NameEnd(path, i)], NextName(path, i);
    assert name[0] == path[i];
    if next < |path| {
      NamesProper(path, next);
    }
  }

  /** A path that named a file still names the same file, and the created path now names the new
      one, whatever lay behind the old end of the directory. */
  lemma CreationResolves(dirs: seq<Dir>, dirs': seq<Dir>, path: string, no: int, slot: int, x: Entry, tail: Entry)
    requires Resolve(dirs, path, CREATEFILE) == Create(no, slot) && Added(dirs, dirs', no, slot, x, tail)
    requires forall k :: 0 <= k < |path| ==> path[k] != 0 as char
    requires var last := LastName(path, SkipSlashes(path, 0)); |last| <= NAME_LENGTH && x.name == Padded(last)
    ensures Resolve(dirs', path, CREATEFILE) == Exists && Resolve(dirs', path, DELETEFILE) == Delete(no, slot, x.ino)
    ensures forall other: string {:trigger Resolve(dirs', other, DELETEFILE)} ::
              Proper(Split(other)) && Resolve(dirs, other, DELETEFILE).Delete? ==>
              Resolve(dirs', other, DELETEFILE) == Resolve(dirs, other, DELETEFILE)
  {
    SplitProper(path);
    CreatedIsFound(dirs, dirs', no, slot, x, tail, 0, Split(path));
    CreateMeansAbsent(dirs, 0, Split(path), no, slot);
    forall other: string | Proper(Split(other)) && Resolve(dirs, other, DELETEFILE).Delete?
      ensures Resolve(dirs', other, DELETEFILE) == Resolve(dirs, other, DELETEFILE)
    {
      FoundIsKept(dirs, dirs', no, slot, x, tail, 0, Split(other));
    }
  }

  // ---------------------------------------------------------------- nothing else appears

  /** A name lies behind the old end of the directory that the creation brings to light: a free
      entry is used, and the next one carries a proper name that the directory lacked. */
  ghost predicate Surfaces(d: Dir, slot: int, x: Entry, tail: Entry) {
    && slot / ENTRY_SIZE < |d.entries| && |tail.name| == NAME_LENGTH && IsName(tail.name) && tail.name[0] != 0 as char
    && tail.name != x.name && Match(d.entries, tail.name, 0) == |d.entries|
  }

  /** The inode of the new entry lists nothing. */
  ghost predicate LeadsNowhere(dirs: seq<Dir>, no: int, x: Entry) {
    0 <= x.ino < |dirs| && x.ino != no && Sane(dirs[x.ino]) && dirs[x.ino].entries == []
  }

  /** Every path that leads to an inode did so before, or leads to the created entry. */
  ghost predicate OnlyCreated(dirs: seq<Dir>, dirs': seq<Dir>, no: int, slot: int, x: Entry) {
    forall other: string {:trigger Resolve(dirs', other, DELETEFILE)} ::
      Proper(Split(other)) && Resolve(dirs', other, DELETEFILE).Delete? ==>
      || Resolve(dirs', other, DELETEFILE) == Resolve(dirs, other, DELETEFILE)
      || Resolve(dirs', other, DELETEFILE) == Delete(no, slot, x.ino)
  }

  /** A name that a directory lacked is now that of the new entry or of the one behind the end. */
  lemma MatchOnly(d: Dir, d': Dir, slot: int, x: Entry, tail: Entry, name: string)
    requires EntryAdded(d, d', slot, x, tail) && Match(d.entries, name, 0) == |d.entries|
    requires Match(d'.entries, name, 0) < |d'.entries|
    ensures var e := Match(d'.entries, name, 0);
            || (e == slot / ENTRY_SIZE && name == x.name && d'.entries[e] == x)
            || (slot / ENTRY_SIZE < |d.entries| && name == tail.name && name != x.name)
  {
    var e := Match(d'.entries, name, 0);
    assert d'.entries[e].name == name;
  }

  predicate SlashFree(names: seq<string>) {
    forall i :: 0 <= i < |names| ==> SLASH !in names[i]
  }

  /** Without a name that surfaces, a path that resolves did so before or leads to the new entry. */
  lemma {:induction false} NothingElse(dirs: seq<Dir>, dirs': seq<Dir>, no: int, slot: int, x: Entry, tail: Entry,
                                       from: int, names: seq<string>)
    requires Added(dirs, dirs', no, slot, x, tail) && slot == SlotFor(dirs[no]) && LeadsNowhere(dirs, no, x)
    requires Match(dirs[no].entries, x.name, 0) == |dirs[no].entries| && !Surfaces(dirs[no], slot, x, tail)
    requires names != [] && Proper(names) && SlashFree(names) && Walk(dirs', from, names, DELETEFILE).Delete?
    ensures || Walk(dirs', from, names, DELETEFILE) == Walk(dirs, from, names, DELETEFILE)
            || Walk(dirs', from, names, DELETEFILE) == Delete(no, slot, x.ino)
    decreases |names|
  {
    var d, d', name := dirs[from], dirs'[from], Padded(names[0]);
    if Match(d.entries, name, 0) < |d.entries| {
      StepKept(dirs, dirs', no, slot, x, tail, from, names[0]);
      if |names| > 1 {
        NothingElse(dirs, dirs', no, slot, x, tail, d.entries[Match(d.entries, name, 0)].ino, names[1..]);
      }
    } else {
      assert from == no;
      MatchOnly(d, d', slot, x, tail, name);
      PaddedPlain(names[0]);
      if |names| == 1 {
        SlotIsFree(d);
      }
    }
  }

  lemma PaddedPlain(name: string)
    requires name != [] && name[0] != 0 as char && SLASH !in name && |name| <= NAME_LENGTH
    ensures IsName(Padded(name)) && Padded(name)[0] != 0 as char
  {
    assert Padded(name)[0] == name[0];
    assert forall c :: c in Padded(name) ==> c in name || c == 0 as char;
  }

  /** A name that surfaces is found at the old end of the directory and was not found before. */
  lemma {:induction false} TailIsFound(dirs: seq<Dir>, dirs': seq<Dir>, no: int, slot: int, x: Entry, tail: Entry,
                                       from: int, names: seq<string>)
    requires Added(dirs, dirs', no, slot, x, tail) && Surfaces(dirs[no], slot, x, tail)
    requires names != [] && (|names| == 1 || Proper(names)) && Walk(dirs, from, names, CREATEFILE) == Create(no, slot)
    requires |names[|names| - 1]| <= NAME_LENGTH && x.name == Padded(names[|names| - 1])
    ensures var names' := names[..|names| - 1] + [tail.name];
            && Walk(dirs', from, names', DELETEFILE) == Delete(no, ENTRY_SIZE * |dirs[no].entries|, tail.ino)
            && Walk(dirs, from, names', DELETEFILE) == NotFound
    decreases |names|
  {
    var names' := names[..|names| - 1] + [tail.name];
    CreateMeansAbsent(dirs, from, names, no, slot);
    if |names| > 1 {
      var e := Match(dirs[from].entries, Padded(names[0]), 0);
      StepKept(dirs, dirs', no, slot, x, tail, from, names[0]);
      assert names'[0] == names[0] && names'[1..] == names[1..][..|names| - 2] + [tail.name];
      hide Added, Surfaces, Match, Proper, Sane, SlotFor;
      TailIsFound(dirs, dirs', no, slot, x, tail, dirs[from].entries[e].ino, names[1..]);
    } else {
      assert names' == [tail.name] && Padded(tail.name) == tail.name;
      MatchTail(dirs[no], dirs'[no], slot, x, tail);
    }
  }

  lemma MatchTail(d: Dir, d': Dir, slot: int, x: Entry, tail: Entry)
    requires EntryAdded(d, d', slot, x, tail) && Surfaces(d, slot, x, tail)
    ensures Match(d'.entries, tail.name, 0) == |d.entries| && d'.entries[|d.entries|] == tail
  {
    forall k | 0 <= k < |d.entries|
      ensures d'.entries[k].name != tail.name
    {
    }
  }

  lemma {:induction false} NamesSlashFree(path: string, i: nat)
    requires i <= |path|
    ensures SlashFree(NamesFrom(path, i))
    decreases |path| - i
  {
    var next := NextName(path, i);
    if next < |path| {
      assert i < next;
      NamesSlashFree(path, next);
    }
  }

  lemma {:induction false} PlainNames(names: seq<string>)
    requires Proper(names) && SlashFree(names)
    ensures AllNames(names)
  {
    if names != [] {
      PlainNames(names[1..]);
    }
  }

  /** The path that leads to a name that surfaces. */
  lemma SurfacingPath(dirs: seq<Dir>, dirs': seq<Dir>, path: string, no: int, slot: int, x: Entry, tail: Entry)
    returns (other: string)
    requires Resolve(dirs, path, CREATEFILE) == Create(no, slot) && Added(dirs, dirs', no, slot, x, tail)
    requires (|Split(path)| == 1 || Proper(Split(path))) && Surfaces(dirs[no], slot, x, tail)
    requires var last := LastName(path, SkipSlashes(path, 0)); |last| <= NAME_LENGTH && x.name == Padded(last)
    ensures Proper(Split(other)) && Resolve(dirs, other, DELETEFILE) == NotFound
    ensures Resolve(dirs', other, DELETEFILE) == Delete(no, ENTRY_SIZE * |dirs[no].entries|, tail.ino)
  {
    var names := Split(path);
    var names' := names[..|names| - 1] + [tail.name];
    NamesSlashFree(path, SkipSlashes(path, 0));
    PlainNames(names');
    other := Join(names');
    SplitJoin(names');
    TailIsFound(dirs, dirs', no, slot, x, tail, 0, names);
  }

  /** A creation makes only the created path resolvable exactly if no name surfaces. That is the case
      in particular if the directory has no free entry, and if what lies behind its end is unused. */
  lemma OnlyCreatedIff(dirs: seq<Dir>, dirs': seq<Dir>, path: string, no: int, slot: int, x: Entry, tail: Entry)
    requires Resolve(dirs, path, CREATEFILE) == Create(no, slot) && Added(dirs, dirs', no, slot, x, tail)
    requires (|Split(path)| == 1 || Proper(Split(path))) && LeadsNowhere(dirs, no, x)
    requires var last := LastName(path, SkipSlashes(path, 0)); |last| <= NAME_LENGTH && x.name == Padded(last)
    ensures OnlyCreated(dirs, dirs', no, slot, x) <==> !Surfaces(dirs[no], slot, x, tail)
    ensures SlotFor(dirs[no]) == dirs[no].size || tail.Unused() ==> OnlyCreated(dirs, dirs', no, slot, x)
  {
    CreateMeansAbsent(dirs, 0, Split(path), no, slot);
    if Surfaces(dirs[no], slot, x, tail) {
      var other := SurfacingPath(dirs, dirs', path, no, slot, x, tail);
      SlotIsFree(dirs[no]);
      assert !OnlyCreated(dirs, dirs', no, slot, x);
    } else {
      forall other: string | Proper(Split(other)) && Resolve(dirs', other, DELETEFILE).Delete?
        ensures || Resolve(dirs', other, DELETEFILE) == Resolve(dirs, other, DELETEFILE)
                || Resolve(dirs', other, DELETEFILE) == Delete(no, slot, x.ino)
      {
        NamesSlashFree(other, SkipSlashes(other, 0));
        NothingElse(dirs, dirs', no, slot, x, tail, 0, Split(other));
      }
    }
  }

  /** It does happen: in a root directory with one entry, unused, and a name behind its end, the
      creation of `/a` makes `/b` resolvable. */
  lemma SurfacingWitness()
    ensures var free, x, y := Entry(0, Padded("")), Entry(1, Padded("a")), Entry(1, Padded("b"));
            var dirs, dirs' := [Dir(32, [free], 0), Dir(0, [], 0)], [Dir(64, [x, y], 0), Dir(0, [], 0)];
            && Resolve(dirs, "/a", CREATEFILE) == Create(0, 0) && Added(dirs, dirs', 0, 0, x, y)
            && Resolve(dirs, "/b", DELETEFILE) == NotFound && Resolve(dirs', "/b", DELETEFILE) == Delete(0, 32, 1)
  {
    var free, x, y := Entry(0, Padded("")), Entry(1, Padded("a")), Entry(1, Padded("b"));
    OneName("/a", "a");
    OneName("/b", "b");
    assert free.name[0] == 0 as char && x.name[0] == 'a' && y.name[0] == 'b';
    assert [x, y] == EntriesAfter([free], 0, x, y);
  }

  // ---------------------------------------------------------------- many creations

  /** An entry, where it was put, and what lay behind the end of the directory. */
  datatype Made = Made(no: int, slot: int, entry: Entry, tail: Entry)

  /** One creation: a directory gains an entry under a name that it lacked. */
  ghost predicate Creates(dirs: seq<Dir>, dirs': seq<Dir>, r: Made) {
    && Added(dirs, dirs', r.no, r.slot, r.entry, r.tail) && r.slot == SlotFor(dirs[r.no])
    && Match(dirs[r.no].entries, r.entry.name, 0) == |dirs[r.no].entries| && LeadsNowhere(dirs, r.no, r.entry)
  }

  /** Each listing arises from the one before by the next creation of the log. */
  ghost predicate History(h: seq<seq<Dir>>, log: seq<Made>) {
    |h| == |log| + 1 && forall i {:trigger log[i]} :: 0 <= i < |log| ==> Creates(h[i], h[i + 1], log[i])
  }

  /** However many files are created, a path that led to an inode at some time leads to it ever after. */
  lemma {:induction false} FoundForever(h: seq<seq<Dir>>, log: seq<Made>, i: nat, j: nat, path: string)
    requires History(h, log) && i <= j < |h| && Proper(Split(path)) && Resolve(h[i], path, DELETEFILE).Delete?
    ensures Resolve(h[j], path, DELETEFILE) == Resolve(h[i], path, DELETEFILE)
    decreases j - i
  {
    if i < j {
      FoundForever(h, log, i, j - 1, path);
      var r := log[j - 1];
      assert Creates(h[j - 1], h[j], r);
      hide Walk, Added, History, Proper, Split;
      FoundIsKept(h[j - 1], h[j], r.no, r.slot, r.entry, r.tail, 0, Split(path));
    }
  }

  /** If no name ever surfaces, a path that leads to an inode did so before, or leads to one of the
      entries created since. */
  lemma {:induction false} OnlyLogged(h: seq<seq<Dir>>, log: seq<Made>, i: nat, j: nat, path: string)
    requires History(h, log) && i <= j < |h| && Proper(Split(path)) && Resolve(h[j], path, DELETEFILE).Delete?
    requires forall k {:trigger log[k]} :: i <= k < j ==>
             !Surfaces(h[k][log[k].no], log[k].slot, log[k].entry, log[k].tail)
    ensures || Resolve(h[j], path, DELETEFILE) == Resolve(h[i], path, DELETEFILE)
            || exists k {:trigger log[k]} :: i <= k < j
                 && Resolve(h[j], path, DELETEFILE) == Delete(log[k].no, log[k].slot, log[k].entry.ino)
    decreases j - i
  {
    if i < j {
      var r := log[j - 1];
      assert Creates(h[j - 1], h[j], r);
      NamesSlashFree(path, SkipSlashes(path, 0));
      hide Walk, Added, Proper, SlotFor, LeadsNowhere, Surfaces;
      NothingElse(h[j - 1], h[j], r.no, r.slot, r.entry, r.tail, 0, Split(path));
      if Resolve(h[j], path, DELETEFILE) == Resolve(h[j - 1], path, DELETEFILE) {
        OnlyLogged(h, log, i, j - 1, path);
      }
    }
  }
}

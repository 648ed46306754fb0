/** Path names and what looking them up means: split on runs of '/', then walk from directory to
    directory. */
module Paths {
  import opened Words

  const SLASH := '/'
  const NAME_LENGTH := 28
  const ENTRY_SIZE := 32
  /** Directory entries in the largest file that the block map can address. */
  const MAX_ENTRIES := 528480
  const CREATEFILE := 1
  const DELETEFILE := 2

  // ---------------------------------------------------------------- splitting

  /** The first position from `i` on that holds no slash. */
  function SkipSlashes(path: string, i: nat): (r: nat)
    requires i <= |path|
    ensures i <= r <= |path|
    ensures forall k :: i <= k < r ==> path[k] == SLASH
    ensures r < |path| ==> path[r] != SLASH
    decreases |path| - i
  {
    if i < |path| && path[i] == SLASH then SkipSlashes(path, i + 1) else i
  }

  /** The first position from `i` on that holds a slash. */
  function NameEnd(path: string, i: nat): (r: nat)
    requires i <= |path|
    ensures i <= r <= |path|
    ensures forall k :: i <= k < r ==> path[k] != SLASH
    ensures r < |path| ==> path[r] == SLASH
    decreases |path| - i
  {
    if i < |path| && path[i] != SLASH then NameEnd(path, i + 1) else i
  }

  /** Where the component after the one that starts at `i` starts. */
  function NextName(path: string, i: nat): (r: nat)
    requires i <= |path|
    ensures i <= r <= |path| && (i < |path| ==> i < r)
  {
    SkipSlashes(path, NameEnd(path, i))
  }

  /** The components from position `i` on; there is always at least one, if only an empty one. */
  function NamesFrom(path: string, i: nat): (r: seq<string>)
    requires i <= |path|
    ensures r != []
    decreases |path| - i
  {
    var name, next := path[i..NameEnd(path, i)], NextName(path, i);
    if next == |path| then [name] else [name] + NamesFrom(path, next)
  }

  function Split(path: string): seq<string> {
    NamesFrom(path, SkipSlashes(path, 0))
  }

  /** The absolute path with the given components. */
  function Join(names: seq<string>): string {
    if |names| == 0 then [] else [SLASH] + names[0] + Join(names[1..])
  }

  predicate IsName(name: string) {
    name != [] && SLASH !in name
  }

  predicate AllNames(names: seq<string>) {
    |names| > 0 ==> IsName(names[0]) && AllNames(names[1..])
  }

  /** From position `at` on the path is the given names joined. */
  predicate Spells(path: string, at: nat, names: seq<string>) {
    at <= |path| && path[at..] == Join(names)
  }

  /** One slash and the given name stand at position `at`, and then the name ends. */
  predicate Begins(path: string, at: nat, name: string) {
    && at + 1 + |name| <= |path| && path[at + 1..at + 1 + |name|] == name
    && SkipSlashes(path, at) == at + 1 && NameEnd(path, at + 1) == at + 1 + |name|
  }

  /** Splitting undoes joining. */
  lemma SplitJoin(names: seq<string>)
    requires names != [] && AllNames(names)
    ensures Split(Join(names)) == names
  {
    assert Join(names)[0..] == Join(names);
    NamesOfJoin(Join(names), 0, names);
  }

  lemma {:induction false} NamesOfJoin(path: string, at: nat, names: seq<string>)
    requires names != [] && AllNames(names) && Spells(path, at, names)
    ensures Begins(path, at, names[0]) && NamesFrom(path, at + 1) == names
    decreases |names|
  {
    var next, others := at + 1 + |names[0]|, names[1..];
    FirstOfJoin(path, at, names);
    hide *;
    if |names| > 1 {
      NamesOfJoin(path, next, others);
    }
    OneMoreName(path, at, names, next, others);
  }

  /** Where the first of several names lies in their path. */
  lemma FirstOfJoin(path: string, at: nat, names: seq<string>)
    requires names != [] && AllNames(names) && Spells(path, at, names)
    ensures Begins(path, at, names[0]) && AllNames(names[1..]) && Spells(path, at + 1 + |names[0]|, names[1..])
  {
    JoinStep(names);
    hide Join, AllNames, IsName, NamesFrom, SkipSlashes, NameEnd;
    FirstName(path, at, names[0], Join(names[1..]));
  }

  /** The names from the first one on, if those from the second one on are known. */
  lemma OneMoreName(path: string, at: nat, names: seq<string>, next: nat, others: seq<string>)
    requires names != [] && others == names[1..] && next == at + 1 + |names[0]|
    requires Begins(path, at, names[0]) && Spells(path, next, others) && AllNames(others)
    requires |names| > 1 ==> Begins(path, next, others[0]) && NamesFrom(path, next + 1) == others
    ensures NamesFrom(path, at + 1) == names
  {
    assert |path[next..]| == |path| - next;
    if |names| > 1 {
      assert others[0] != [] && next + 1 < |path|;
    }
    Uncons(names);
  }

  lemma Uncons(names: seq<string>)
    requires names != []
    ensures names == [names[0]] + names[1..]
  {
  }

  lemma JoinStep(names: seq<string>)
    requires names != [] && AllNames(names)
    ensures IsName(names[0]) && AllNames(names[1..]) && Join(names) == [SLASH] + names[0] + Join(names[1..])
    ensures if |names| == 1 then Join(names[1..]) == [] else |Join(names[1..])| > 1 && Join(names[1..])[0] == SLASH
  {
  }

  /** A slash, a name, and then the end of the path or another slash. */
  lemma FirstName(path: string, at: nat, name: string, rest: string)
    requires at <= |path| && path[at..] == [SLASH] + name + rest && IsName(name) && (rest != [] ==> rest[0] == SLASH)
    ensures var next := at + 1 + |name|;
            && next <= |path| && path[next..] == rest && path[at + 1..next] == name
            && SkipSlashes(path, at) == at + 1 && NameEnd(path, at + 1) == next
  {
    var tail, next := path[at..], at + 1 + |name|;
    assert forall k :: 0 <= k < |tail| ==> path[at + k] == tail[k];
    assert path[at + 1..next] == tail[1..1 + |name|] == name;
    assert path[next..] == tail[1 + |name|..] == rest;
    forall k | at < k < next
      ensures path[k] != SLASH
    {
      assert path[k] == name[k - at - 1] && name[k - at - 1] in name;
    }
    assert path[at] == tail[0] == SLASH && path[at + 1] != SLASH;
    assert next < |path| ==> path[next] == rest[0];
  }

  lemma OneName(path: string, name: string)
    requires path == [SLASH] + name && IsName(name)
    ensures Split(path) == [name]
  {
    var names := [name];
    assert names[1..] == [] && Join(names) == [SLASH] + name + Join([]) == path && AllNames(names);
    SplitJoin(names);
  }

  lemma TwoNames(path: string, name: string, last: string)
    requires path == [SLASH] + name + [SLASH] + last && IsName(name) && IsName(last)
    ensures Split(path) == [name, last]
  {
    var names := [name, last];
    assert names[1..] == [last] && names[1..][1..] == [];
    assert Join(names) == [SLASH] + name + Join([last]) && Join([last]) == [SLASH] + last + Join([]);
    assert Join(names) == path && AllNames(names[1..]) && AllNames(names);
    SplitJoin(names);
  }

  // ---------------------------------------------------------------- directories

  /** A directory entry: the number of an inode and a name padded with zeros. */
  datatype Entry = Entry(ino: Word, name: string) {

    /** Entries whose name begins with 0 count as free. */
    predicate Unused() {
      name != [] && name[0] == 0 as char
    }
  }

  /** What the walk sees of an inode: its size, its entries, and how many of the blocks that hold
      the entries have not been mapped. */
  datatype Dir = Dir(size: Word, entries: seq<Entry>, holes: nat)

  /** How many entries a file of the given size holds; C# division truncates towards zero. */
  function EntryCount(size: int): (r: int)
    ensures if size >= 0 then 0 <= size - 32 * r < 32 else -32 < size - 32 * r <= 0
  {
    if size < 0 then -(-size / ENTRY_SIZE) else size / ENTRY_SIZE
  }

  ghost predicate Sane(d: Dir) {
    |d.entries| == EntryCount(d.size) && |d.entries| <= MAX_ENTRIES
  }

  function Padded(name: string): (r: string)
    requires |name| <= NAME_LENGTH
    ensures |r| == NAME_LENGTH && name <= r && forall i {:trigger r[i]} :: |name| <= i < 28 ==> r[i] == 0 as char
  {
    name + seq(NAME_LENGTH - |name|, _ => 0 as char)
  }

  /** The lowest entry from `e` on with the given name, or the number of entries. */
  function Match(entries: seq<Entry>, name: string, e: nat): (r: nat)
    requires e <= |entries|
    ensures e <= r <= |entries|
    ensures forall k :: e <= k < r ==> entries[k].name != name
    ensures r < |entries| ==> entries[r].name == name
    decreases |entries| - e
  {
    if e < |entries| && entries[e].name != name then Match(entries, name, e + 1) else e
  }

  /** The lowest unused entry from `e` on, or the number of entries. */
  function FirstUnused(entries: seq<Entry>, e: nat): (r: nat)
    requires e <= |entries|
    ensures e <= r <= |entries|
    ensures forall k :: e <= k < r ==> !entries[k].Unused()
    ensures r < |entries| ==> entries[r].Unused()
    decreases |entries| - e
  {
    if e < |entries| && !entries[e].Unused() then FirstUnused(entries, e + 1) else e
  }

  /** The offset at which a creation puts its entry: an unused entry other than the first if there
      is one, else the first entry if that is unused, else the end of the file. */
  function SlotFor(d: Dir): int {
    if |d.entries| > 0 && FirstUnused(d.entries, 1) < |d.entries| then ENTRY_SIZE * FirstUnused(d.entries, 1)
    else if |d.entries| > 0 && d.entries[0].Unused() then 0
    else d.size
  }

  /** The comments of the source promise the first unused entry. The code meets this except when
      the first entry of the directory is unused and a later one is too. */
  lemma FirstSlotIff(d: Dir)
    requires Sane(d)
    ensures var first := FirstUnused(d.entries, 0);
            SlotFor(d) == (if first < |d.entries| then ENTRY_SIZE * first else d.size as int)
            <==> !(|d.entries| > 0 && d.entries[0].Unused() && exists e :: 0 < e < |d.entries| && d.entries[e].Unused())
  {
    if |d.entries| > 0 && !d.entries[0].Unused() {
      assert FirstUnused(d.entries, 0) == FirstUnused(d.entries, 1);
    }
  }

  /** What is chosen in any case: the lowest unused entry behind the first one; without it the first
      entry if that is unused; else the end. */
  lemma SlotCases(d: Dir, e: nat)
    requires Sane(d) && 0 < e <= |d.entries| && forall k :: 0 < k < e ==> !d.entries[k].Unused()
    requires e < |d.entries| ==> d.entries[e].Unused()
    ensures SlotFor(d) == if e < |d.entries| then 32 * e else if d.entries[0].Unused() then 0 else d.size
  {
    assert FirstUnused(d.entries, 1) == e;
  }

  /** It does fail: of two unused entries the second is chosen. */
  lemma SecondOfTwo()
    ensures var d := Dir(64, [Entry(0, Padded("")), Entry(0, Padded(""))], 0);
            Sane(d) && FirstUnused(d.entries, 0) == 0 && SlotFor(d) == ENTRY_SIZE
  {
    var free := Entry(0, Padded(""));
    assert free.Unused() && FirstUnused([free, free], 1) == 1;
  }

  /** Whatever is chosen is unused or the end, and it is the end only if no entry is unused. */
  lemma SlotIsFree(d: Dir)
    requires Sane(d)
    ensures var slot := SlotFor(d);
            || (slot == d.size && forall e :: 0 <= e < |d.entries| ==> !d.entries[e].Unused())
            || (slot % ENTRY_SIZE == 0 && 0 <= slot / ENTRY_SIZE < |d.entries| && d.entries[slot / ENTRY_SIZE].Unused())
  {
    if |d.entries| > 0 {
      var e := FirstUnused(d.entries, 1);
      assert ENTRY_SIZE * e / ENTRY_SIZE == e && ENTRY_SIZE * e % ENTRY_SIZE == 0;
    }
  }

  // ---------------------------------------------------------------- the walk

  /** How a lookup ends. `Corrupt` stands for a directory that names an inode outside the table,
      or whose size is negative or beyond what the block map can address. */
  datatype Outcome =
    | Create(dir: int, slot: int)
    | Delete(dir: int, offset: int, no: Word)
    | NotFound
    | Exists
    | TooLong
    | Corrupt

  ghost function Walk(dirs: seq<Dir>, dir: int, names: seq<string>, flag: int): Outcome
    requires names != []
    decreases |names|
  {
    if !(0 <= dir < |dirs|) then Corrupt
    else if |names[0]| > NAME_LENGTH then TooLong
    else if !Sane(dirs[dir]) then Corrupt
    else
      var d := dirs[dir];
      var e := Match(d.entries, Padded(names[0]), 0);
      if e == |d.entries| then if flag == CREATEFILE && |names| == 1 then Create(dir, SlotFor(d)) else NotFound
      else if |names| > 1 then Walk(dirs, d.entries[e].ino, names[1..], flag)
      else if flag == DELETEFILE then Delete(dir, ENTRY_SIZE * e, d.entries[e].ino)
      else Exists
  }

  /** Blocks that suffice to fill the holes of all directories on the way. */
  ghost function WalkCost(dirs: seq<Dir>, dir: int, names: seq<string>): nat
    requires names != []
    decreases |names|
  {
    if !(0 <= dir < |dirs|) || |names[0]| > NAME_LENGTH || !Sane(dirs[dir]) then 0
    else
      var d := dirs[dir];
      var e := Match(d.entries, Padded(names[0]), 0);
      3 * d.holes + if e < |d.entries| && |names| > 1 then WalkCost(dirs, d.entries[e].ino, names[1..]) else 0
  }

  /** `NameI` answers for the whole path. */
  ghost function Resolve(dirs: seq<Dir>, path: string, flag: int): Outcome {
    Walk(dirs, 0, Split(path), flag)
  }

  /** How `NameI` returns: normally, with -1 and one of two error codes, or by an index outside
      its 28 characters. */
  datatype Status = Done | SearchDir | SameFileName | NameTooLong

  /** The results of `NameI` that report an outcome; `newNo` is the inode number of a new file. */
  predicate Reports(outcome: Outcome, status: Status, offset: int, dirInodeNo: int, fileInodeNo: int, newNo: int) {
    match outcome
    case Create(dir, slot) => status == Done && offset == slot && dirInodeNo == dir && fileInodeNo == newNo
    case Delete(dir, at, no) => status == Done && offset == at && dirInodeNo == dir && fileInodeNo == no
    case NotFound => status == SearchDir && offset == -1
    case Exists => status == SameFileName && offset == -1
    case TooLong => status == NameTooLong
    case Corrupt => false
  }

  function LastName(path: string, i: nat): string
    requires i <= |path|
  {
    var names := NamesFrom(path, i);
    names[|names| - 1]
  }
}

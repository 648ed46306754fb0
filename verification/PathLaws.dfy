/** What splitting a path means, without positions: the runs of characters between slashes. */
module PathLaws {
  import opened Paths

  /** The maximal runs of characters other than slashes, found character by character. */
  function Components(path: string): seq<string> {
    if path == [] then []
    else if path[0] == '/' then Components(path[1..])
    else if |path| == 1 || path[1] == '/' then [[path[0]]] + Components(path[1..])
    else
      var rest := Components(path[1..]);
      if rest == [] then [[path[0]]] else [[path[0]] + rest[0]] + rest[1..]
  }

  /** The words from a position on, in terms of those from the next one on. */
  lemma OneCharacter(path: string, i: nat)
    requires i < |path|
    ensures var rest := Components(path[i + 1..]);
            Components(path[i..]) ==
            if path[i] == '/' then rest
            else if i + 1 == |path| || path[i + 1] == '/' || rest == [] then [[path[i]]] + rest
            else [[path[i]] + rest[0]] + rest[1..]
  {
    var tail := path[i..];
    assert tail[0] == path[i] && tail[1..] == path[i + 1..] && (i + 1 < |path| ==> tail[1] == path[i + 1]);
  }

  /** A word reaches up to the next slash. */
  lemma {:induction false} WordAt(path: string, i: nat)
    requires i < |path| && path[i] != SLASH
    ensures Components(path[i..]) == [path[i..NameEnd(path, i)]] + Components(path[NameEnd(path, i)..])
    decreases |path| - i
  {
    OneCharacter(path, i);
    hide Components;
    if i + 1 < |path| && path[i + 1] != SLASH {
      WordAt(path, i + 1);
      assert path[i..NameEnd(path, i)] == [path[i]] + path[i + 1..NameEnd(path, i)];
    } else {
      assert NameEnd(path, i) == i + 1 && path[i..i + 1] == [path[i]];
    }
  }

  /** Slashes in front do not matter. */
  lemma {:induction false} SkippedSlashes(path: string, i: nat)
    requires i <= |path|
    ensures Components(path[SkipSlashes(path, i)..]) == Components(path[i..])
    decreases |path| - i
  {
    if i < |path| && path[i] == SLASH {
      OneCharacter(path, i);
      SkippedSlashes(path, i + 1);
    }
  }

  lemma {:induction false} NamesAreWords(path: string, i: nat)
    requires i < |path| && path[i] != SLASH
    ensures NamesFrom(path, i) == Components(path[i..])
    decreases |path| - i
  {
    var next := NextName(path, i);
    WordAt(path, i);
    SkippedSlashes(path, NameEnd(path, i));
    if next < |path| {
      NamesAreWords(path, next);
    } else {
      assert path[next..] == [] && Components([]) == [];
    }
  }

  /** A path is split into its words; a path without any counts as one empty name. */
  lemma SplitIsWords(path: string)
    ensures Split(path) == if Components(path) == [] then [""] else Components(path)
  {
    var start := SkipSlashes(path, 0);
    SkippedSlashes(path, 0);
    assert path[0..] == path;
    if start < |path| {
      NamesAreWords(path, start);
    } else {
      assert path[start..] == [] && NameEnd(path, start) == start && NextName(path, start) == start;
      assert path[start..start] == "";
    }
  }

  lemma {:induction false} WordsAcross(a: string, s: string, t: string)
    requires s != [] && t != [] && s[0] == '/' && t[0] == '/' && Components(s) == Components(t)
    ensures Components(a + s) == Components(a + t)
  {
    if a == [] {
      assert a + s == s && a + t == t;
    } else {
      WordsAcross(a[1..], s, t);
      assert (a + s)[1..] == a[1..] + s && (a + t)[1..] == a[1..] + t;
      assert |a| > 1 ==> (a + s)[1] == a[1] == (a + t)[1];
      assert |a| == 1 ==> (a + s)[1] == '/' == (a + t)[1];
    }
  }

  lemma {:induction false} WordsBefore(a: string)
    ensures Components(a + "/") == Components(a)
  {
    if a == [] {
      assert a + "/" == "/" && "/"[1..] == "";
    } else {
      WordsBefore(a[1..]);
      assert (a + "/")[1..] == a[1..] + "/";
      assert |a| > 1 ==> (a + "/")[1] == a[1];
    }
  }

  /** A doubled slash separates names like a single one; slashes at the end and at the beginning do
      not matter. */
  lemma SlashRuns(a: string, b: string)
    ensures Split(a + "//" + b) == Split(a + "/" + b)
    ensures Split(a + "/") == Split(a) && Split("/" + a) == Split(a)
  {
    var s, t := "//" + b, "/" + b;
    assert s[1..] == t && t[1..] == b && a + "//" + b == a + s && a + "/" + b == a + t;
    WordsAcross(a, s, t);
    WordsBefore(a);
    assert ("/" + a)[1..] == a;
    SplitIsWords(a + s);
    SplitIsWords(a + t);
    SplitIsWords(a + "/");
    SplitIsWords("/" + a);
    SplitIsWords(a);
  }

  /** A name alone is a path of one name, and the empty path one empty name. */
  lemma PlainSplit(name: string)
    requires SLASH !in name
    ensures Split(name) == [name]
  {
    if name != [] {
      WordAt(name, 0);
      assert name[0..] == name;
      assert NameEnd(name, 0) == |name| && name[..|name|] == name && name[|name|..] == [];
    }
    SplitIsWords(name);
  }
}

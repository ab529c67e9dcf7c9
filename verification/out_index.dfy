/**
 * The output index (`resolveOutFileDates`) and the source-file selection
 * filter of `main` in Main.kt: which files of the working directory get rebuilt.
 */
module OutIndex {
  import opened Wrappers
  import opened KotlinText
  import opened Utils

  /** One entry of a directory listing: file name, last-modified time, and whether it is a regular file. */
  datatype Entry = Entry(name: string, mtime: int, regular: bool)

  /** The stream `Files.list(outPath).map { it.filenameWithoutExtension to mtime }`. */
  function KeyTimes(es: seq<Entry>): seq<(string, int)>
  {
    seq(|es|, i requires 0 <= i < |es| => (FilenameWithoutExtension(es[i].name), es[i].mtime))
  }

  /**
   * `index` maps exactly the keys of `ps`, each to the oldest time paired with it.
   */
  ghost predicate IsOldestIndex(ps: seq<(string, int)>, index: map<string, int>)
  {
    && index.Keys == KeysOf(ps)
    && (forall i :: 0 <= i < |ps| ==> ps[i].0 in index && index[ps[i].0] <= ps[i].1)
    && (forall k :: k in index ==> exists i :: 0 <= i < |ps| && ps[i].0 == k && ps[i].1 == index[k])
  }

  /** The merge function handed to `Collectors.toMap`: keeps the older of two times. */
  function OlderOf(a: int, b: int): int
  {
    if a < b then a else b
  }

  /** Merging one more pair into an oldest-time index keeps it the oldest-time index. */
  lemma OldestStep(ps: seq<(string, int)>, k: string, t: int, index: map<string, int>)
    requires IsOldestIndex(ps, index)
    ensures IsOldestIndex(ps + [(k, t)], index[k := if k in index then OlderOf(index[k], t) else t])
  {
    var ps' := ps + [(k, t)];
    var index' := index[k := if k in index then OlderOf(index[k], t) else t];
    assert KeysOf(ps') == KeysOf(ps) + {k} by {
      assert forall i :: 0 <= i < |ps| ==> ps'[i] == ps[i];
      assert ps'[|ps|] == (k, t);
    }
    forall i | 0 <= i < |ps'|
      ensures ps'[i].0 in index' && index'[ps'[i].0] <= ps'[i].1
    {
      if i < |ps| {
        assert ps'[i] == ps[i];
      }
    }
    forall k' | k' in index'
      ensures exists i :: 0 <= i < |ps'| && ps'[i].0 == k' && ps'[i].1 == index'[k']
    {
      if k' == k && (k !in index || t <= index[k]) {
        assert ps'[|ps|] == (k, t);
      } else {
        var i :| 0 <= i < |ps| && ps[i].0 == k' && ps[i].1 == index[k'];
        assert ps'[i] == ps[i];
      }
    }
  }

  /** `Collectors.toMap({ it.first }, { it.second }, merge)`, consuming the stream in order. */
  function CollectOldest(ps: seq<(string, int)>): (index: map<string, int>)
    ensures IsOldestIndex(ps, index)
  {
    if ps == [] then map[]
    else
      var init := ps[..|ps| - 1];
      var (k, t) := ps[|ps| - 1];
      var rest := CollectOldest(init);
      assert ps == init + [(k, t)];
      OldestStep(init, k, t, rest);
      rest[k := if k in rest then OlderOf(rest[k], t) else t]
  }

  /**
   * `resolveOutFileDates(outPath)`: maps the logical key of every listed file to the
   * oldest modification time among the files sharing it, or is the empty map when
   * the directory does not exist (`None`).
   */
  function ResolveOutFileDates(dir: Option<seq<Entry>>): (index: map<string, int>)
    ensures dir.None? ==> index == map[]
    ensures dir.Some? ==> IsOldestIndex(KeyTimes(dir.value), index)
  {
    match dir
    case None => map[]
    case Some(es) => CollectOldest(KeyTimes(es))
  }

  /** The oldest-time index of a listing is unique: the contract above determines it completely. */
  lemma OldestIndexUnique(ps: seq<(string, int)>, m1: map<string, int>, m2: map<string, int>)
    requires IsOldestIndex(ps, m1) && IsOldestIndex(ps, m2)
    ensures m1 == m2
  {
  }

  /** The index lookup `foundFiles[key]`, absent when the key was never built. */
  function Lookup(index: map<string, int>, key: string): Option<int>
  {
    if key in index then Some(index[key]) else None
  }

  /**
   * The filter of `main` (Main.kt lines 41-48): a file is a candidate unless its name
   * ends in "jar" in any letter case, and then only when its key is missing from the
   * index or its modification time is strictly newer than the indexed one.
   */
  predicate IsCandidate(name: string, mtime: int, index: map<string, int>)
  {
    && !EndsWithIgnoreCase(name, "jar")
    && match Lookup(index, FilenameWithoutExtension(name))
       case Some(oldestOutFile) => mtime > oldestOutFile
       case None => true
  }

  /** A character matches `c` ignoring case exactly when it is `c` or its other-case letter. */
  lemma MatchesIgnoringCase(x: char, lower: char, upper: char)
    requires 'a' <= lower <= 'z' && upper as int == lower as int - 32
    ensures CharEqualsIgnoreCase(x, lower) <==> x == lower || x == upper
  {
  }

  /** A name ends in "jar" ignoring case exactly when its last three letters are j, a, r in either case. */
  lemma JarSuffixAnyCase(name: string)
    ensures EndsWithIgnoreCase(name, "jar") <==>
      && |name| >= 3
      && (name[|name| - 3] == 'j' || name[|name| - 3] == 'J')
      && (name[|name| - 2] == 'a' || name[|name| - 2] == 'A')
      && (name[|name| - 1] == 'r' || name[|name| - 1] == 'R')
  {
    if |name| >= 3 {
      var n := |name|;
      MatchesIgnoringCase(name[n - 3], 'j', 'J');
      MatchesIgnoringCase(name[n - 2], 'a', 'A');
      MatchesIgnoringCase(name[n - 1], 'r', 'R');
      assert "jar"[0] == 'j' && "jar"[1] == 'a' && "jar"[2] == 'r';
      assert n - 3 + 0 == n - 3 && n - 3 + 1 == n - 2 && n - 3 + 2 == n - 1;
    }
  }

  /** Archives are never rebuilt, whatever the timestamps and the index. */
  lemma JarNeverSelected(stem: string, c1: char, c2: char, c3: char, mtime: int, index: map<string, int>)
    requires c1 == 'j' || c1 == 'J'
    requires c2 == 'a' || c2 == 'A'
    requires c3 == 'r' || c3 == 'R'
    ensures !IsCandidate(stem + [c1, c2, c3], mtime, index)
  {
  }

  /**
   * Against the index of an output listing, a non-archive file is selected exactly when
   * no output carries its key or some output with its key is strictly older than it:
   * it is kept only when every output sharing its key is at least as new.
   */
  lemma SelectedIffOlderOutput(name: string, mtime: int, out: seq<Entry>)
    requires !EndsWithIgnoreCase(name, "jar")
    ensures IsCandidate(name, mtime, ResolveOutFileDates(Some(out))) <==>
      || (forall i :: 0 <= i < |out| ==> FilenameWithoutExtension(out[i].name) != FilenameWithoutExtension(name))
      || exists i :: 0 <= i < |out| && FilenameWithoutExtension(out[i].name) == FilenameWithoutExtension(name) && out[i].mtime < mtime
  {
    var k := FilenameWithoutExtension(name);
    var index := ResolveOutFileDates(Some(out));
    assert IsCandidate(name, mtime, index) <==> k !in index || mtime > index[k];
    IndexLookupIffOlder(KeyTimes(out), index, k, mtime);
    KeyTimesMatch(out, k, mtime);
  }

  /** Statements about the key-time stream restated over the listing it comes from. */
  lemma KeyTimesMatch(out: seq<Entry>, k: string, mtime: int)
    ensures (forall i :: 0 <= i < |KeyTimes(out)| ==> KeyTimes(out)[i].0 != k) <==>
      (forall i :: 0 <= i < |out| ==> FilenameWithoutExtension(out[i].name) != k)
    ensures (exists i :: 0 <= i < |KeyTimes(out)| && KeyTimes(out)[i].0 == k && KeyTimes(out)[i].1 < mtime) <==>
      (exists i :: 0 <= i < |out| && FilenameWithoutExtension(out[i].name) == k && out[i].mtime < mtime)
  {
    var ps := KeyTimes(out);
    assert |ps| == |out|;
    assert forall i :: 0 <= i < |out| ==> ps[i].0 == FilenameWithoutExtension(out[i].name) && ps[i].1 == out[i].mtime;
  }

  /** Looking a key up in an oldest-time index finds it missing or older than `mtime` exactly when some pair is. */
  lemma IndexLookupIffOlder(ps: seq<(string, int)>, index: map<string, int>, k: string, mtime: int)
    requires IsOldestIndex(ps, index)
    ensures (k !in index || mtime > index[k]) <==>
      || (forall i :: 0 <= i < |ps| ==> ps[i].0 != k)
      || exists i :: 0 <= i < |ps| && ps[i].0 == k && ps[i].1 < mtime
  {
  }

  /** Without an output directory every non-archive file is selected. */
  lemma MissingOutputDirSelectsAll(name: string, mtime: int)
    requires !EndsWithIgnoreCase(name, "jar")
    ensures IsCandidate(name, mtime, ResolveOutFileDates(None))
  {
  }
}

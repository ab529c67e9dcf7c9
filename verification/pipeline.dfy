/**
 * The run of `main` in Main.kt with its I/O stripped off: select the stale source
 * files, expand them into jobs, run every job, group the results by source file
 * and build one fragment per source file.
 */
module Pipeline {
  import opened Wrappers
  import opened KotlinText
  import opened Utils
  import opened OutIndex
  import opened Jobs
  import opened HtmlHelp

  /** One fragment file: its name in the html directory and the attributes of its `div`. */
  datatype Fragment = Fragment(fileName: string, attributes: map<string, string>)

  /** The configuration `main` uses: longest side in pixels with its quality. */
  const MainConfig: seq<ConfigEntry> := [
    ConfigEntry(100, 0.2), ConfigEntry(350, 0.25), ConfigEntry(500, 0.25), ConfigEntry(800, 0.25),
    ConfigEntry(1300, 0.25), ConfigEntry(2000, 0.3), ConfigEntry(3000, 0.35)]

  /**
   * With the configuration of `main` no two conversions of one source image write the
   * same file: its seven sizes are pairwise different.
   */
  lemma MainConfigOutputsDisjoint(img: FilePath, outDir: string, i: int, j: int)
    requires 0 <= i < |MainConfig| && 0 <= j < |MainConfig| && i != j
    ensures var ci := RunJob(CreateJobs(img, outDir, MainConfig)[i].1);
            var cj := RunJob(CreateJobs(img, outDir, MainConfig)[j].1);
            ci.jpg != cj.jpg && ci.jpg != cj.webp && ci.webp != cj.jpg && ci.webp != cj.webp
  {
    var sizes := [100, 350, 500, 800, 1300, 2000, 3000];
    assert forall k :: 0 <= k < |MainConfig| ==> MainConfig[k].size == sizes[k];
    DistinctSizesDistinctOutputs(img, outDir, MainConfig, i, j);
  }

  /** The message of the exception thrown when the working directory cannot be listed. */
  const FolderNotValid := "Folder is not valid!"

  /** A directory listing never holds two entries of the same name. */
  predicate DistinctNames(es: seq<Entry>)
  {
    forall i, j :: 0 <= i < j < |es| ==> es[i].name != es[j].name
  }

  /** An entry passes both filters of `main`: it is a regular file and a candidate. */
  predicate Chosen(e: Entry, index: map<string, int>)
  {
    e.regular && IsCandidate(e.name, e.mtime, index)
  }

  /**
   * The `filter` steps of `main` over the listing, with each kept entry turned into a path
   * in the working directory: exactly the kept entries, each once when the listing has
   * distinct names.
   */
  function SelectSources(es: seq<Entry>, base: string, keep: Entry -> bool): (srcs: seq<FilePath>)
    ensures forall i :: 0 <= i < |es| && keep(es[i]) ==> FilePath(base, es[i].name) in srcs
    ensures forall p :: p in srcs ==> p.dir == base && exists i :: 0 <= i < |es| && es[i].name == p.name && keep(es[i])
    ensures DistinctNames(es) ==> Distinct(srcs)
  {
    if es == [] then []
    else
      var init := es[..|es| - 1];
      var e := es[|es| - 1];
      var rest := SelectSources(init, base, keep);
      assert forall i :: 0 <= i < |init| ==> init[i] == es[i];
      if keep(e) then rest + [FilePath(base, e.name)] else rest
  }

  /** `flatMap { createJobs(it, outPath, config) }` over the selected sources. */
  function JobsFor(srcs: seq<FilePath>, outDir: string, config: seq<ConfigEntry>): seq<(FilePath, Job)>
  {
    if srcs == [] then []
    else JobsFor(srcs[..|srcs| - 1], outDir, config) + CreateJobs(srcs[|srcs| - 1], outDir, config)
  }

  /** Every selected source contributes exactly one job per configuration entry. */
  lemma {:induction false} JobCount(srcs: seq<FilePath>, outDir: string, config: seq<ConfigEntry>)
    ensures |JobsFor(srcs, outDir, config)| == |srcs| * |config|
    decreases |srcs|
  {
    if srcs != [] {
      var n := |srcs| - 1;
      JobCount(srcs[..n], outDir, config);
      assert (n + 1) * |config| == n * |config| + |config|;
    }
  }

  /**
   * `map { (originalFile, future) -> originalFile to future.join() }`: every job run by
   * `run`, in submission order.
   */
  function RunJobs(jobs: seq<(FilePath, Job)>, run: Job -> Converted): seq<(FilePath, Converted)>
  {
    seq(|jobs|, i requires 0 <= i < |jobs| => (jobs[i].0, run(jobs[i].1)))
  }

  /** What the jobs of one source produce, in configuration order. */
  function ConvertedFor(src: FilePath, outDir: string, config: seq<ConfigEntry>, run: Job -> Converted): seq<Converted>
  {
    seq(|config|, j requires 0 <= j < |config| => run(Job(src, outDir, config[j].size, config[j].quality)))
  }

  /** Each output pair with the jpg's metadata (`jpgOut.readJpgMetadata()`), supplied by `meta`. */
  function Variants(cs: seq<Converted>, meta: FilePath -> Option<Dims>): seq<Variant>
  {
    seq(|cs|, i requires 0 <= i < |cs| => Variant(cs[i].jpg, cs[i].webp, meta(cs[i].jpg)))
  }

  /** The fragment file name `<key>.embed.html`. */
  function FragmentName(src: FilePath): string
  {
    FilenameWithoutExtension(src.name) + ".embed.html"
  }

  /** `createHtmlHelp`: one fragment per group, in the map's key order. */
  function CreateHtmlHelp(g: LinkedMap<FilePath, Converted>, meta: FilePath -> Option<Dims>): seq<Fragment>
    requires WellFormed(g)
  {
    assert forall i :: 0 <= i < |g.keys| ==> g.keys[i] in KeySet(g.keys);
    seq(|g.keys|, i requires 0 <= i < |g.keys| =>
      Fragment(FragmentName(g.keys[i]), Attributes(Variants(g.values[g.keys[i]], meta))))
  }

  lemma RunJobsAppend(a: seq<(FilePath, Job)>, b: seq<(FilePath, Job)>, run: Job -> Converted)
    ensures RunJobs(a + b, run) == RunJobs(a, run) + RunJobs(b, run)
  {
  }

  /** The results of one source's jobs form a run tagged with that source. */
  lemma SourceResults(src: FilePath, outDir: string, config: seq<ConfigEntry>, run: Job -> Converted)
    requires 0 < |config|
    ensures var b := RunJobs(CreateJobs(src, outDir, config), run);
            && 0 < |b|
            && (forall i :: 0 <= i < |b| ==> b[i].0 == src)
            && Seconds(b) == ConvertedFor(src, outDir, config, run)
  {
  }

  /**
   * `g` has one group per source of `srcs`, in that order, and each group holds that
   * source's outputs in configuration order.
   */
  ghost predicate GroupedAsSources(g: LinkedMap<FilePath, Converted>, srcs: seq<FilePath>, outDir: string, config: seq<ConfigEntry>, run: Job -> Converted)
  {
    && g.keys == srcs
    && forall i :: 0 <= i < |srcs| ==> srcs[i] in g.values && g.values[srcs[i]] == ConvertedFor(srcs[i], outDir, config, run)
  }

  /** Appending the results of one more, new source extends the grouping by one group. */
  lemma GroupedAsSourcesStep(a: seq<(FilePath, Converted)>, init: seq<FilePath>, last: FilePath,
                             outDir: string, config: seq<ConfigEntry>, run: Job -> Converted)
    requires 0 < |config|
    requires last !in KeySet(init)
    requires GroupedAsSources(ToMapWithListValues(a), init, outDir, config, run)
    ensures GroupedAsSources(ToMapWithListValues(a + RunJobs(CreateJobs(last, outDir, config), run)), init + [last], outDir, config, run)
  {
    var b := RunJobs(CreateJobs(last, outDir, config), run);
    SourceResults(last, outDir, config, run);
    GroupedAsExpectedAppend(a, b, init, last, p => ConvertedFor(p, outDir, config, run));
  }

  /**
   * Regrouping the flat results restores one group per selected source, in selection
   * order, holding that source's outputs in configuration order, whatever the jobs return.
   */
  lemma {:induction false} ResultsGroupedBySource(srcs: seq<FilePath>, outDir: string, config: seq<ConfigEntry>, run: Job -> Converted)
    requires Distinct(srcs)
    requires 0 < |config|
    ensures GroupedAsSources(ToMapWithListValues(RunJobs(JobsFor(srcs, outDir, config), run)), srcs, outDir, config, run)
    decreases |srcs|
  {
    if srcs != [] {
      var n := |srcs| - 1;
      var init, last := srcs[..n], srcs[n];
      assert srcs == init + [last];
      assert Distinct(init);
      ResultsGroupedBySource(init, outDir, config, run);
      var done, next := JobsFor(init, outDir, config), CreateJobs(last, outDir, config);
      assert JobsFor(srcs, outDir, config) == done + next;
      RunJobsAppend(done, next, run);
      assert last !in KeySet(init);
      GroupedAsSourcesStep(RunJobs(done, run), init, last, outDir, config, run);
    }
  }

  /** Without configuration entries there are no jobs, so grouping their results gives no groups. */
  lemma NoConfigNoGroups(srcs: seq<FilePath>, outDir: string, config: seq<ConfigEntry>, run: Job -> Converted)
    requires |config| == 0
    ensures ToMapWithListValues(RunJobs(JobsFor(srcs, outDir, config), run)).keys == []
  {
    JobCount(srcs, outDir, config);
    assert RunJobs(JobsFor(srcs, outDir, config), run) == [];
  }

  /**
   * One run of `main`. The working-directory listing is `None` when the directory cannot
   * be listed, the output listing is `None` when the output directory does not exist,
   * and `meta` stands for the metadata reader. Each selected image yields one fragment
   * named after it whose attributes describe all of its converted sizes.
   */
  method Run(config: seq<ConfigEntry>, basePath: string, outPath: string,
             work: Option<seq<Entry>>, outListing: Option<seq<Entry>>, meta: FilePath -> Option<Dims>)
    returns (r: Result<seq<Fragment>, string>)
    ensures work.None? <==> r.Failure?
    ensures work.None? ==> r == Failure(FolderNotValid)
    ensures work.Some? && |config| == 0 ==> r == Success([])
    ensures work.Some? && 0 < |config| && DistinctNames(work.value) ==>
      var index := ResolveOutFileDates(outListing);
      var srcs := SelectSources(work.value, basePath, e => Chosen(e, index));
      && r.Success?
      && |r.value| == |srcs|
      && forall i :: 0 <= i < |srcs| ==>
           r.value[i] == Fragment(FragmentName(srcs[i]), Attributes(Variants(ConvertedFor(srcs[i], outPath, config, RunJob), meta)))
  {
    var index := ResolveOutFileDates(outListing);
    if work.None? {
      return Failure(FolderNotValid);
    }
    var srcs := SelectSources(work.value, basePath, e => Chosen(e, index));
    var jobs := JobsFor(srcs, outPath, config);
    var submitted := Execute(jobs);
    var results := RunJobs(submitted, RunJob);
    var grouped := ToMapWithListValues(results);
    r := Success(CreateHtmlHelp(grouped, meta));
    if |config| == 0 {
      NoConfigNoGroups(srcs, outPath, config, RunJob);
      assert grouped.keys == [];
      assert CreateHtmlHelp(grouped, meta) == [];
    }
    if 0 < |config| && DistinctNames(work.value) {
      ResultsGroupedBySource(srcs, outPath, config, RunJob);
    }
  }

  /**
   * The outputs of a source never count as its own earlier outputs: their keys carry the
   * `_<size>` suffix while the lookup uses the bare key, so a listing holding only this
   * source's outputs leaves it selected again.
   */
  lemma OwnOutputsNeverMakeFresh(e: Entry, config: seq<ConfigEntry>, out: seq<Entry>)
    requires !EndsWithIgnoreCase(e.name, "jar")
    requires forall i :: 0 <= i < |out| ==>
      exists j :: (0 <= j < |config| &&
        (out[i].name == OutputName(FilenameWithoutExtension(e.name), config[j].size, "jpg") ||
         out[i].name == OutputName(FilenameWithoutExtension(e.name), config[j].size, "webp")))
    ensures IsCandidate(e.name, e.mtime, ResolveOutFileDates(Some(out)))
  {
    var key := FilenameWithoutExtension(e.name);
    forall i | 0 <= i < |out|
      ensures FilenameWithoutExtension(out[i].name) != key
    {
      OwnOutputNotKey(key, config, out[i].name);
    }
    SelectedIffOlderOutput(e.name, e.mtime, out);
  }

  /** An output of the source with key `key`, for any configured size, never has `key` as its own key. */
  lemma OwnOutputNotKey(key: string, config: seq<ConfigEntry>, name: string)
    requires exists j :: (0 <= j < |config| &&
      (name == OutputName(key, config[j].size, "jpg") || name == OutputName(key, config[j].size, "webp")))
    ensures FilenameWithoutExtension(name) != key
  {
    var j :| 0 <= j < |config| &&
      (name == OutputName(key, config[j].size, "jpg") || name == OutputName(key, config[j].size, "webp"));
    if name == OutputName(key, config[j].size, "jpg") {
      OutputNameKey(key, config[j].size, "jpg");
    } else {
      OutputNameKey(key, config[j].size, "webp");
    }
  }

  /** When every listed output has key `k` and none is older than `mtime`, the index holds `k` at or after `mtime`. */
  lemma IndexNoOlderThan(out: seq<Entry>, k: string, mtime: int)
    requires 0 < |out|
    requires forall i :: 0 <= i < |out| ==> FilenameWithoutExtension(out[i].name) == k && mtime <= out[i].mtime
    ensures k in ResolveOutFileDates(Some(out)) && mtime <= ResolveOutFileDates(Some(out))[k]
  {
    var index := ResolveOutFileDates(Some(out));
    var ps := KeyTimes(out);
    assert ps[0].0 == k;
    assert k in index;
    var i :| 0 <= i < |ps| && ps[i].0 == k && ps[i].1 == index[k];
  }

  /** A file whose key is indexed at or after its own time is not a candidate. */
  lemma IndexedNoOlderNotCandidate(name: string, mtime: int, index: map<string, int>)
    requires FilenameWithoutExtension(name) in index
    requires mtime <= index[FilenameWithoutExtension(name)]
    ensures !IsCandidate(name, mtime, index)
  {
  }

  /** A file is skipped against a jpg and a webp that share its key when neither is older than it. */
  lemma SharedKeyOutputsSkip(name: string, jpgName: string, webpName: string, mtime: int, tJpg: int, tWebp: int)
    requires FilenameWithoutExtension(jpgName) == FilenameWithoutExtension(name)
    requires FilenameWithoutExtension(webpName) == FilenameWithoutExtension(name)
    requires mtime <= tJpg && mtime <= tWebp
    ensures !IsCandidate(name, mtime, ResolveOutFileDates(Some([Entry(jpgName, tJpg, true), Entry(webpName, tWebp, true)])))
  {
    var out := [Entry(jpgName, tJpg, true), Entry(webpName, tWebp, true)];
    var k := FilenameWithoutExtension(name);
    assert forall i :: 0 <= i < |out| ==> FilenameWithoutExtension(out[i].name) == k && mtime <= out[i].mtime;
    IndexNoOlderThan(out, k, mtime);
    IndexedNoOlderNotCandidate(name, mtime, ResolveOutFileDates(Some(out)));
  }

  /**
   * The outputs of one source can still make a different source look fresh: the jpg and
   * webp of `<key>` at `size` carry the logical key `<key>_<size>`, which is the key of a
   * source named `<key>_<size>.<ext>`. Such a source is skipped when neither output is
   * older than it (for example `b_100.png` against the outputs of `b.png` at size 100).
   */
  lemma OtherSourceOutputsCanSkip(key: string, size: int, srcExt: string, mtime: int, tJpg: int, tWebp: int)
    requires '.' !in srcExt
    requires mtime <= tJpg && mtime <= tWebp
    ensures var out := [Entry(OutputName(key, size, "jpg"), tJpg, true), Entry(OutputName(key, size, "webp"), tWebp, true)];
            !IsCandidate(key + "_" + IntToString(size) + "." + srcExt, mtime, ResolveOutFileDates(Some(out)))
  {
    var other := key + "_" + IntToString(size);
    var name := key + "_" + IntToString(size) + "." + srcExt;
    assert name == other + "." + srcExt;
    StripsLastExtension(other, srcExt);
    OutputNameKey(key, size, "jpg");
    OutputNameKey(key, size, "webp");
    SharedKeyOutputsSkip(name, OutputName(key, size, "jpg"), OutputName(key, size, "webp"), mtime, tJpg, tWebp);
  }

  /**
   * Two sources whose names differ only in the extension (`a.png` and `a.jpg`) share their
   * logical key, so for every size and extension they are converted into the same output
   * file, and both fragments get the same file name: whichever is written later replaces
   * the other.
   */
  lemma SameStemSharesOutputs(dir: string, stem: string, ext1: string, ext2: string, outDir: string, size: int, ext: string)
    requires '.' !in ext1 && '.' !in ext2
    ensures var a, b := FilePath(dir, stem + "." + ext1), FilePath(dir, stem + "." + ext2);
            && ConvertedPath(a, outDir, size, ext) == ConvertedPath(b, outDir, size, ext)
            && FragmentName(a) == FragmentName(b)
  {
    StripsLastExtension(stem, ext1);
    StripsLastExtension(stem, ext2);
  }
}

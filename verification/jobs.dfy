/**
 * Job expansion and output naming of Main.kt: the `createJobs` overload that
 * fans one source image out over the configuration, and the one that names
 * (and converts) a single output file.
 */
module Jobs {
  import opened KotlinText
  import opened Utils

  /** A path as the model needs it: the directory it resolves against and its file name. */
  datatype FilePath = FilePath(dir: string, name: string)

  /** One configuration entry: longest side in pixels and encoder quality (a fraction). */
  datatype ConfigEntry = ConfigEntry(size: int, quality: real)

  /** The deferred work (`Supplier`) created for one configuration entry of one source image. */
  datatype Job = Job(source: FilePath, outDir: string, size: int, quality: real)

  /** What a job returns once run: the jpg output and the webp output. */
  datatype Converted = Converted(jpg: FilePath, webp: FilePath)

  /** The output file name `key + '_' + size + '.' + extension`. */
  function OutputName(key: string, size: int, ext: string): string
  {
    key + "_" + IntToString(size) + "." + ext
  }

  /** Two strings each split at a '.' that neither first half contains split the same way. */
  lemma SplitAtFirstDot(a: string, b: string, c: string, d: string)
    requires '.' !in a && '.' !in c
    requires a + "." + b == c + "." + d
    ensures a == c && b == d
  {
    var s := a + "." + b;
    assert forall j :: 0 <= j < |a| ==> s[j] == a[j];
    assert forall j :: 0 <= j < |c| ==> s[j] == c[j];
    assert s[|a|] == '.' && s[|c|] == '.';
    assert |a| == |c|;
    assert a == s[..|a|] && c == s[..|c|];
    assert b == s[|a| + 1..] && d == s[|c| + 1..];
  }

  lemma CancelPrefix(p: string, x: string, y: string)
    requires p + x == p + y
    ensures x == y
  {
    assert x == (p + x)[|p|..];
    assert y == (p + y)[|p|..];
  }

  /**
   * For a fixed source key the output name determines size and extension:
   * distinct (size, extension) pairs never share an output file.
   */
  lemma OutputNameInjective(key: string, size1: int, ext1: string, size2: int, ext2: string)
    requires OutputName(key, size1, ext1) == OutputName(key, size2, ext2)
    ensures size1 == size2 && ext1 == ext2
  {
    OutputNameSplit(key, size1, ext1);
    OutputNameSplit(key, size2, ext2);
    CancelPrefix(key + "_", IntToString(size1) + "." + ext1, IntToString(size2) + "." + ext2);
    SizeDotExtInjective(size1, ext1, size2, ext2);
  }

  lemma OutputNameSplit(key: string, size: int, ext: string)
    ensures OutputName(key, size, ext) == (key + "_") + (IntToString(size) + "." + ext)
  {
  }

  lemma SizeDotExtInjective(size1: int, ext1: string, size2: int, ext2: string)
    requires IntToString(size1) + "." + ext1 == IntToString(size2) + "." + ext2
    ensures size1 == size2 && ext1 == ext2
  {
    SplitAtFirstDot(IntToString(size1), ext1, IntToString(size2), ext2);
    IntToStringInjective(size1, size2);
  }

  /**
   * An output name is its logical key `<key>_<size>` plus the extension, so the source
   * key never survives unchanged as the key of its own outputs.
   */
  lemma OutputNameKey(key: string, size: int, ext: string)
    requires '.' !in ext
    ensures FilenameWithoutExtension(OutputName(key, size, ext)) == key + "_" + IntToString(size)
    ensures OutputName(key, size, ext) == FilenameWithoutExtension(OutputName(key, size, ext)) + "." + ext
    ensures FilenameWithoutExtension(OutputName(key, size, ext)) != key
  {
    assert OutputName(key, size, ext) == (key + "_" + IntToString(size)) + "." + ext;
    StripsLastExtension(key + "_" + IntToString(size), ext);
  }

  /**
   * The path `createJobs(imgPath, outPath, size, quality, extension)` returns. The
   * `magick` process it starts is opaque here: only the computed path is modelled.
   */
  function ConvertedPath(img: FilePath, outDir: string, size: int, ext: string): FilePath
  {
    FilePath(outDir, OutputName(FilenameWithoutExtension(img.name), size, ext))
  }

  /** For a fixed source the output path is injective in (size, extension). */
  lemma ConvertedPathInjective(img: FilePath, outDir: string, size1: int, ext1: string, size2: int, ext2: string)
    requires ConvertedPath(img, outDir, size1, ext1) == ConvertedPath(img, outDir, size2, ext2)
    ensures size1 == size2 && ext1 == ext2
  {
    OutputNameInjective(FilenameWithoutExtension(img.name), size1, ext1, size2, ext2);
  }

  /** Running a job (`Supplier.get()`) converts the source twice and yields the jpg and webp outputs. */
  function RunJob(j: Job): Converted
  {
    Converted(ConvertedPath(j.source, j.outDir, j.size, "jpg"), ConvertedPath(j.source, j.outDir, j.size, "webp"))
  }

  /**
   * A job's two outputs lie in the output directory, are both named after the same
   * `<key>_<size>`, end in ".jpg" and ".webp" respectively, and are never the same file.
   */
  lemma RunJobOutputs(j: Job)
    ensures var c := RunJob(j);
            && c.jpg.dir == j.outDir && c.webp.dir == j.outDir
            && FilenameWithoutExtension(c.jpg.name) == FilenameWithoutExtension(j.source.name) + "_" + IntToString(j.size)
            && FilenameWithoutExtension(c.webp.name) == FilenameWithoutExtension(j.source.name) + "_" + IntToString(j.size)
            && c.jpg.name == FilenameWithoutExtension(c.jpg.name) + "." + "jpg"
            && c.webp.name == FilenameWithoutExtension(c.webp.name) + "." + "webp"
            && c.jpg != c.webp
  {
    var key := FilenameWithoutExtension(j.source.name);
    OutputNameKey(key, j.size, "jpg");
    OutputNameKey(key, j.size, "webp");
    if RunJob(j).jpg == RunJob(j).webp {
      OutputNameInjective(key, j.size, "jpg", j.size, "webp");
    }
  }

  /**
   * `createJobs(imgPath, outPath, config)`: one job per configuration entry, in
   * configuration order, each tagged with the source image.
   */
  function CreateJobs(img: FilePath, outDir: string, config: seq<ConfigEntry>): (jobs: seq<(FilePath, Job)>)
    ensures |jobs| == |config|
    ensures forall i :: 0 <= i < |config| ==>
      jobs[i].0 == img && jobs[i].1 == Job(img, outDir, config[i].size, config[i].quality)
  {
    if config == [] then []
    else [(img, Job(img, outDir, config[0].size, config[0].quality))] + CreateJobs(img, outDir, config[1..])
  }

  /** Jobs for different sizes of one source write disjoint files: no two conversions share an output. */
  lemma DistinctSizesDistinctOutputs(img: FilePath, outDir: string, config: seq<ConfigEntry>, i: int, j: int)
    requires 0 <= i < |config| && 0 <= j < |config|
    requires config[i].size != config[j].size
    ensures var ci := RunJob(CreateJobs(img, outDir, config)[i].1);
            var cj := RunJob(CreateJobs(img, outDir, config)[j].1);
            ci.jpg != cj.jpg && ci.jpg != cj.webp && ci.webp != cj.jpg && ci.webp != cj.webp
  {
    var jobs := CreateJobs(img, outDir, config);
    var si, sj := config[i].size, config[j].size;
    if ConvertedPath(img, outDir, si, "jpg") == ConvertedPath(img, outDir, sj, "jpg") {
      ConvertedPathInjective(img, outDir, si, "jpg", sj, "jpg");
    }
    if ConvertedPath(img, outDir, si, "jpg") == ConvertedPath(img, outDir, sj, "webp") {
      ConvertedPathInjective(img, outDir, si, "jpg", sj, "webp");
    }
    if ConvertedPath(img, outDir, si, "webp") == ConvertedPath(img, outDir, sj, "jpg") {
      ConvertedPathInjective(img, outDir, si, "webp", sj, "jpg");
    }
    if ConvertedPath(img, outDir, si, "webp") == ConvertedPath(img, outDir, sj, "webp") {
      ConvertedPathInjective(img, outDir, si, "webp", sj, "webp");
    }
  }
}

# ImageConverter, modelled in Dafny

ImageConverter is a small incremental builder of image derivatives. One run of `main` does the following:

1. It lists the working directory and keeps the regular files that are not `jar` archives and whose outputs look stale.
2. For every configured size it converts each kept image into a jpg and a webp.
3. It collects the results per source image.
4. For each source image it writes an HTML fragment named after the image's logical key; sources sharing a key overwrite each other's fragment. The fragment's `div` carries the data a lazy loader needs: how many sizes exist, and, for each size whose jpg metadata could be read, a JSON object with both URLs and the dimensions.

This project models the decision and bookkeeping logic of that run as pure Dafny functions and proves what it guarantees. The external work is stripped off: the `magick` process, the thread pool, the metadata reader and the file system.

Modules, one per concern of the Kotlin source:

- `Wrappers`: `Option` and `Result`.
- `KotlinText`: the standard-library text operations the source relies on: `Int.toString()`, `lastIndexOf(Char)` and `endsWith(_, ignoreCase = true)`.
- `Utils`: the extension helpers of `Utils.kt`. These are the logical key of a file name (`filenameWithoutExtension`), `execute`, `peek`, and `toMapWithListValues`, which groups pairs into an insertion-ordered map of lists (`LinkedMap`).
- `OutIndex`: the output index `resolveOutFileDates` and the selection filter of `main`.
- `Jobs`: both `createJobs` overloads. The conversion is reduced to the output path it computes.
- `HtmlHelp`: the attribute map `createHtmlHelp` puts on each fragment's `div`.
- `Pipeline`: the whole of `main` (`Run`), from listing to fragments, and the grouping theorem behind it.

A directory entry is `(name, mtime, regular)`. Timestamps are integers. A missing output directory is `None`, and so is a working directory that cannot be listed. The metadata reader is a function parameter `meta: FilePath -> Option<Dims>`. In `Run` the conversion is `RunJob`, which returns the two computed paths. The grouping theorem `ResultsGroupedBySource` holds for any `run` function.

### A source's own outputs never make it fresh

A source is never skipped because of its own earlier outputs:

- The index is keyed by the logical keys of the files in `out/`.
- The outputs of a source with key `<key>` are named `<key>_<size>.<ext>` (Main.kt line 98), so their keys are `<key>_<size>`.
- The filter looks up the bare source key `<key>` (Main.kt line 43), which is never one of those keys.

`Pipeline.OwnOutputsNeverMakeFresh` proves this: with an output directory holding only the source's own outputs, the source is selected again.

A source can still be skipped because of another source's outputs. A source named `<key>_<size>.<ext>` shares its logical key with the outputs of `<key>` at `size`. For example, `b_100.png` shares its key with `b.png`'s outputs at size 100. `Pipeline.OtherSourceOutputsCanSkip` proves that such a source is skipped when neither of those outputs is older than it.

### Sources that share a logical key

Two sources whose names differ only in the extension, such as `a.png` and `a.jpg`, have the same logical key. `Pipeline.SameStemSharesOutputs` proves two things about such a pair:

- Every size and extension converts both into the same output file.
- Both fragments get the same file name, `a.embed.html`.

`Run` returns one fragment per selected source, so it can return two fragments with one file name. The source opens fragment files with `TRUNCATE_EXISTING` (Main.kt lines 79-81), so only the fragment written later stays on disk.

## Model

| member | source | states |
|---|---|---|
| Utils.FilenameWithoutExtension | src/main/kotlin/Utils.kt:15-16 | The logical key is a prefix of the file name. With no '.' in the name it is the whole name. Otherwise the name is the key, a '.', and a remainder that holds no '.', so the key stops at the last '.' |
| Utils.StripsLastExtension | src/main/kotlin/Utils.kt:15-16 | Appending "." and an extension without '.' and then taking the logical key gives back the base name |
| Utils.Execute | src/main/kotlin/Utils.kt:13 | Forcing the sequence into a list returns exactly the input elements, in order |
| Utils.Peek | src/main/kotlin/Utils.kt:8-11 | The output has the input's length and the input's element at every position |
| Utils.ToMapWithListValues | src/main/kotlin/Utils.kt:25-32 | The grouped map lists every key once, and its key set is exactly the set of keys occurring in the input |
| Utils.GroupedValues | src/main/kotlin/Utils.kt:27-29 | For every key of the input, its list is the input's values for that key, in input order, and is non-empty |
| Utils.GroupedKeyOrder | src/main/kotlin/Utils.kt:26-28 | Keys come out in the order of their first occurrence in the input (insertion order of the linked map) |
| Utils.GroupingIsPermutation | src/main/kotlin/Utils.kt:25-32 | Concatenating all groups, each value tagged with its key, is a permutation of the input: nothing is lost or duplicated |
| Utils.GroupAppendRun | src/main/kotlin/Utils.kt:27-29 | Appending a non-empty run of pairs with a fresh key adds exactly one group, at the end, holding the run's values |
| KotlinText.IntToStringRoundTrip | src/main/kotlin/Main.kt:86 | Parsing the decimal rendering of any integer (as written into `data-sizes` and into output names) gives the integer back |
| KotlinText.LastIndexOf | src/main/kotlin/Utils.kt:16 | The result is -1 exactly when the character is absent. Otherwise the character is at that position and at no later one |
| OutIndex.ResolveOutFileDates | src/main/kotlin/Main.kt:112-117 | A missing directory gives the empty map. Otherwise the keys are exactly the logical keys of the listed files, and each value is the oldest mtime among the files with that key (no newer than any of them, equal to one of them) |
| OutIndex.CollectOldest | src/main/kotlin/Main.kt:116 | Collecting with the merge `if (a < b) a else b`, in stream order, yields the oldest-time index of the key-time stream |
| OutIndex.OldestIndexUnique | src/main/kotlin/Main.kt:112-117 | Any two maps meeting the oldest-time description of the same listing are equal, so the contract of `ResolveOutFileDates` fixes its result |
| OutIndex.JarSuffixAnyCase | src/main/kotlin/Main.kt:42 | A name ends with "jar" ignoring case exactly when its last three characters are j/J, a/A, r/R |
| OutIndex.JarNeverSelected | src/main/kotlin/Main.kt:42 | A name ending in "jar" in any letter case is never a candidate, whatever its mtime and the index |
| OutIndex.SelectedIffOlderOutput | src/main/kotlin/Main.kt:41-48 | Against the index of an output listing, a non-archive file is selected exactly when no output has its key, or some output with its key is strictly older than it. Equal timestamps mean no rebuild |
| OutIndex.IndexLookupIffOlder | src/main/kotlin/Main.kt:43-47 | The lookup finds the key missing, or finds a time older than `mtime`, exactly when no pair has the key or some pair with the key is older |
| OutIndex.MissingOutputDirSelectsAll | src/main/kotlin/Main.kt:43-47 | With no output directory the index is empty, and every non-archive file is selected |
| Jobs.OutputNameKey | src/main/kotlin/Main.kt:98 | An output name is its logical key `<key>_<size>` followed by "." and the extension, and that key is never the source key |
| Jobs.OutputNameInjective | src/main/kotlin/Main.kt:98 | For a fixed source key, equal output names imply equal size and equal extension |
| Jobs.ConvertedPathInjective | src/main/kotlin/Main.kt:97-98 | For a fixed source and output directory, the output path determines size and extension |
| Jobs.RunJobOutputs | src/main/kotlin/Main.kt:70-73 | A job's two outputs are in the output directory and share the logical key `<source key>_<size>`. They end in ".jpg" and ".webp" respectively and are different files |
| Jobs.CreateJobs | src/main/kotlin/Main.kt:66-74 | One job per configuration entry, in configuration order, each tagged with the source image and carrying that entry's size and quality |
| Jobs.DistinctSizesDistinctOutputs | src/main/kotlin/Main.kt:66-74 | Jobs of one source for different sizes share no output file |
| Pipeline.MainConfigOutputsDisjoint | src/main/kotlin/Main.kt:21 | With the seven sizes `main` configures, no two conversions of one source write the same file |
| HtmlHelp.IndexedAttributes | src/main/kotlin/Main.kt:87-90 | `data-<idx>` is present exactly for the indices whose metadata is present, each holding that variant's JSON. No other name is written |
| HtmlHelp.Attributes | src/main/kotlin/Main.kt:84-90 | The `div` has class "lazy", the fixed alt text, and `data-sizes` equal to the number of variants (including those without metadata). `data-<idx>` exists exactly for the variants with metadata and holds both URLs under "/img/" with width and height. Nothing else is set |
| HtmlHelp.DataSizesReadsBack | src/main/kotlin/Main.kt:86 | Parsing `data-sizes` recovers the number of variants |
| HtmlHelp.DataKeyInjective | src/main/kotlin/Main.kt:89 | Different indices give different `data-<idx>` names, so no variant's entry overwrites another's |
| HtmlHelp.DataKeyNotFixed | src/main/kotlin/Main.kt:85-89 | No `data-<idx>` name collides with `class`, `data-alt` or `data-sizes` |
| Pipeline.SelectSources | src/main/kotlin/Main.kt:37-48 | Every listed entry that passes the filters yields its path. Every yielded path comes from such an entry, and there are no duplicates when the listing's names are distinct |
| Pipeline.JobCount | src/main/kotlin/Main.kt:49 | Expanding the selected sources gives `|sources| * |config|` jobs |
| Pipeline.ResultsGroupedBySource | src/main/kotlin/Main.kt:49-53 | For any non-empty configuration, regrouping the flat results gives one group per selected source, in selection order, holding exactly that source's outputs in configuration order, whatever each job returns |
| Pipeline.Run | src/main/kotlin/Main.kt:19-63 | An unlistable working directory fails with "Folder is not valid!". An empty configuration gives no fragments. Otherwise, when the listing's names are distinct, there is one fragment per selected source (two sources sharing a logical key give two fragments with the same file name), in the order `SelectSources` yields them, named `<key>.embed.html`, whose attributes describe that source's conversions in configuration order |
| Pipeline.OwnOutputsNeverMakeFresh | src/main/kotlin/Main.kt:41-48 | A non-archive source stays selected when the output directory holds only its own outputs (named as at line 98). The code never skips a source because of its own earlier outputs |
| Pipeline.OtherSourceOutputsCanSkip | src/main/kotlin/Main.kt:41-48 | A source named `<key>_<size>.<ext>` is not selected against the jpg and webp outputs of `<key>` at `size` when neither output is older than it: another source's outputs share its logical key (naming at line 98, lookup at line 43) |
| Pipeline.IndexNoOlderThan | src/main/kotlin/Main.kt:112-117 | When every listed output has the key `k` and none is older than `mtime`, the index holds `k` with a time no older than `mtime` |
| Pipeline.SameStemSharesOutputs | src/main/kotlin/Main.kt:77-81 | Two sources whose names differ only in the extension get the same output path for every size and extension (line 98) and the same fragment file name `<key>.embed.html` (line 80) |

## Left out

- The `magick` process and its exit code are not modelled (an external program). A job is reduced to the paths it computes, and the exit code is ignored by the source too.
- The quality-to-percent conversion `(quality * 100).toInt()` is not modelled (float arithmetic). The quality is carried as a `real` and never used.
- The metadata reader is a parameter `meta`. The exceptions the underlying library can throw for unreadable files are not modelled; only its `null` result (`None`) is.
- The fixed thread pool, `CompletableFuture.supplyAsync`/`join` and `ExecutorService.use` are modelled as running the jobs in order. Results are joined in submission order in the source as well, so the grouping is the same.
- Path resolution is not modelled: `makeAbsolute`, `normalize`, `toAbsolutePath` and `resolve`. A path is a (directory, name) pair.
- File-system effects are not modelled: `Files.createDirectories`, `Files.exists`, `Files.list`, `getLastModifiedTime` failures and the writing of fragment files. Listings and timestamps are inputs.
- The kotlinx.html serialization of the `div` is left out. Only its attribute map and the fragment's file name are modelled.
- The on-disk result of writing two fragments with the same name (the later one replaces the earlier) is not modelled, because file writing is not modelled. `Run` returns both fragments, and `SameStemSharesOutputs` shows when their names coincide. Concurrent conversions writing the same output file are left out for the same reason.
- The second call `resolveOutFileDates(basePath)` in `main` is left out, because its result is discarded and it has no other effect in the model.
- The `println` progress markers and the default working directory `"."` are left out.
- Peek: the peeker's side effect is not modelled; only the elements passed on are.
- OutIndex.IsCandidate: case-insensitive comparison folds ASCII letters only. Kotlin's folding is Unicode-wide, but no non-ASCII character folds to 'j', 'a' or 'r', so the "jar" test is unaffected.
- SelectSources: its contract states membership and distinctness of the selected paths, not that they keep the listing order, although the definition does keep it.
- Run: when the working-directory listing has two entries with the same name, the contract states only the failure and empty-configuration cases. A real directory listing never repeats a name.
- Run: `Int` overflow of sizes and indices is not modelled. The configured sizes and the number of variants are small.

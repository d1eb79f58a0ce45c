# BracketsExtensionGrabber — a Dafny model of `grabem.js`

`grabem.js` mirrors the Brackets extension registry onto local disk. It
fetches `registry.json` from the registry bucket, compares every package's
`metadata.version` with the registry saved by the previous run, and for each
package that is new or has a new version either downloads
`<name>-<version>.zip` into `downloads/zips` or, when that archive is already
cached, reuses it; it then erases the old `downloads/<name>` directory and
extracts the archive there. When the `async.parallelLimit` batch callback
fires, the fetched registry is written to `downloads/registry.json`.

The model has five modules:

- `Wrappers` — the `Option` type.
- `Naming` — the fixed locations and the derived names: the cache path
  `downloads/zips/<name>-<version>.zip`, the expansion directory
  `downloads/<name>`, and the download URL
  `https://s3.amazonaws.com/extend.brackets/<name>/<name>-<version>.zip`.
  Paths are plain `/`-joined strings.
- `Diff` — task selection. The fetched registry is a `seq<Entry>` in
  `Object.keys` order, the last registry a `map` from name to version, and the
  archive cache a `set` of zip paths. A package is selected when the last
  registry lacks it or lists another version. A selected package whose zip
  path is cached becomes a `DeleteAndExpand` task. Any other selected package
  becomes `DownloadAndExpand`.
- `Pipeline` — one task as a trace of `Step`s (download, erase, extract,
  completion-callback call). The outcome of every external operation is an
  input (`Env`).
- `Sync` — the top-level callback: how the registry fetch can fail, which
  tasks it selects, and which registry it hands to the final save.

A package whose version is unchanged gets no task even when its archive is
missing from the cache: grabem.js:124 compares versions only
(`Diff.UnchangedVersionGivesNoTask`, `Sync.UnchangedButUncachedIsSkipped`).
The snapshot is written only from the `async.parallelLimit` batch callback
(grabem.js:137-138), which a failed extraction alone never lets fire (see Findings); another
task's `complete(err)` can still trigger the library's early callback.
Expansion directories are `downloads/<name>` for any registry key, so a
package named `zips` whose directory exists makes the erase at grabem.js:60
remove the whole archive cache, and one named `registry.json` erases the
saved registry (`Naming.ExpansionDirReachesOwnFiles`).

## Model

| member | source | states |
|---|---|---|
| Naming.ZipPath | grabem.js:33-35 | the cache path is `downloads/zips/` followed by `<name>-<version>.zip`, with the exact length that implies |
| Naming.ExpansionDir | grabem.js:56 | a package expands into `downloads/` followed by its name |
| Naming.DownloadUrl | grabem.js:74 | the archive URL is the registry base, `/`, the name, `/`, then `<name>-<version>.zip` |
| Naming.ZipPathVersionInjective | grabem.js:33-35 | for one package name, different versions never share a cached archive |
| Naming.ZipPathInjective | grabem.js:33-35 | when neither name contains `-`, equal cache paths mean equal name and equal version |
| Naming.ZipPathInjectiveByVersion | grabem.js:33-35 | when neither version contains `-` (names may), equal cache paths mean equal name and equal version |
| Naming.ExpansionDirInjective | grabem.js:56 | different package names expand into different directories |
| Naming.ZipPathHyphenCollision | grabem.js:33-35 | without that precondition injectivity fails: `a-b` version `1` and `a` version `b-1` share a cache path |
| Naming.ExpansionDirReachesOwnFiles | grabem.js:54-60 | the packages `zips` and `registry.json` expand onto the archive cache and the saved registry |
| Naming.DownloadUrlInjective | grabem.js:74 | when neither name contains `/`, equal download URLs mean equal name and equal version |
| Naming.UrlAndZipPathShareArchiveName | grabem.js:74-75 | the download URL and its destination end in the same archive file name |
| Diff.Snapshot | grabem.js:26-29 | the saved registry, read back as name to version, holds exactly the names the registry lists, each with its listed version |
| Diff.Classify | grabem.js:125-131 | a selected package is re-expanded iff its zip path is in the archive cache, else downloaded; the task keeps the entry's name and version |
| Diff.ComputeTasks | grabem.js:123-133 | no more tasks than registry entries; every task comes from a registry entry that needs an update and is classified by cache presence |
| Diff.TasksAreSelectedEntries | grabem.js:123-133 | the k-th task is the classified entry at the k-th selected registry position |
| Diff.SelectedIncreasing | grabem.js:123 | selected positions strictly increase, so tasks follow registry key order |
| Diff.SelectedExactly | grabem.js:124 | a registry position is selected iff the last registry lacks its name or records another version |
| Diff.TasksFollowRegistry | grabem.js:123-133 | the tasks are exactly the entries needing an update, classified, in registry order |
| Diff.TaskNamesDistinct | grabem.js:123-133 | with distinct registry names, no two tasks share a name |
| Diff.TasksForName | grabem.js:123-133 | a name not in the registry gets no task; a listed name gets exactly its classified task if it needs an update, none otherwise |
| Diff.AbsentNameGivesOneTask | grabem.js:123-124 | a package missing from the last registry gets exactly one task |
| Diff.UnchangedVersionGivesNoTask | grabem.js:124 | a package whose last-registry version equals its new version gets no task, whatever the archive cache holds |
| Diff.NothingSelected | grabem.js:123-133 | when no entry needs an update, no task is produced |
| Diff.NoTasksAgainstOwnSnapshot | grabem.js:123-133 | a registry compared with its own saved form selects nothing |
| Diff.ComputeTasksLoop | grabem.js:107-133 | the forEach loop that pushes one task per selected key yields exactly the task list above |
| Pipeline.Expansion | grabem.js:37-52 | `doExpansion`: one extraction of the archive into the directory, followed only by a completion; `Done` after a successful extraction, and no completion at all after a failed one unless the error is reported |
| Pipeline.DeleteOldThenExpand | grabem.js:54-71 | `deleteOldAndExpand`: never downloads; an existing directory is erased first, and a failed erase ends in exactly the erase-error completion; a successful erase, or no directory, leads straight to extracting the cached archive into it |
| Pipeline.DownloadThenExpand | grabem.js:73-88 | `downloadAndExpand`: downloads the URL into the cache path first; a failed download ends in exactly the download-error completion, a successful one continues as `deleteOldAndExpand` |
| Pipeline.RunTask | grabem.js:127-130 | the dispatch as written: a task starts with a download iff it is a download task, and extraction happens iff the task reaches it |
| Pipeline.RunTaskCorrected | grabem.js:127-130 | the dispatch with the extraction error reported: same first step, and every task ends with a completion |
| Pipeline.StepsCompletions | grabem.js:37-88 | a task's callback calls: download error, else erase error, else `Done` on extraction success, else the extraction error only in the corrected pipeline and nothing as written |
| Pipeline.RunTaskCompletesAtMostOnce | grabem.js:37-88 | a task calls its completion callback at most once, and only as its last step |
| Pipeline.ReExpandNeverDownloads | grabem.js:127-128 | a task whose archive is cached performs no download |
| Pipeline.DownloadComesFirst | grabem.js:73-79 | a task whose archive is not cached starts by downloading it from its URL into the cache path the selection checked |
| Pipeline.DownloadFailureStops | grabem.js:79-85 | a failed download is followed only by an error completion: no erase, no extraction |
| Pipeline.EraseFailureSkipsExtraction | grabem.js:58-67 | a failed erase completes with the erase error and nothing is extracted |
| Pipeline.EraseBeforeExtract | grabem.js:58-70 | extraction happens iff the task reaches it. An existing directory is erased immediately before extraction; a missing one is never erased |
| Pipeline.ExtractionSignal | grabem.js:40-48 | once extraction runs, success completes the task once with `Done`, and an extraction error never completes it |
| Pipeline.RunTaskOutcome | grabem.js:37-88 | a task completes with `Done` iff extraction runs and succeeds, and never completes iff extraction runs and fails |
| Pipeline.PathsConsistent | grabem.js:54-88 | downloads go from the package URL to the cache path the task selection checked. Extraction reads that path and writes the expansion directory, the only directory ever erased; that directory is not kept apart from the grabber's own files |
| Pipeline.CorrectedCompletesExactlyOnce | grabem.js:40-43 | with the extraction error passed to the callback, every task completes exactly once, as its final step |
| Pipeline.CorrectionOnlyAddsExtractError | grabem.js:40-43 | the corrected pipeline differs only by the one error completion after a failed extraction |
| Sync.Run | grabem.js:95-133 | a transport error, then a non-200 status, then an unparsable body, then a parsed body the task selection throws on each abort the run with no tasks run and no save. Otherwise the tasks come from the fetched registry, and the fetched registry is what is handed to the save once the batch callback fires |
| Sync.SavedIsFetchedRegistry | grabem.js:137-138 | the saved registry depends neither on the last registry nor on the cache: it is never merged with the previous one |
| Sync.SecondRunHasNoTasks | grabem.js:123-138 | once the first run's save has happened, a second run against an unchanged remote registry selects nothing, whatever the archive cache holds |
| Sync.UnsavedRunReselects | grabem.js:123-138 | when the save has not happened, a second run re-selects the same packages at the same versions in the same order, whatever the cache holds |
| Sync.UnchangedButUncachedIsSkipped | grabem.js:124-131 | registry {A: v1, B: v1}, saved {A: v1}, empty cache: only B is selected, as a download |

## Findings

| source | as written | input that shows it | evidently intended | confidence | as-written member | corrected member |
|---|---|---|---|---|---|---|
| grabem.js:40-43 | the extractor's `error` handler only logs; it never calls `complete` | a `DeleteAndExpand` task with no existing directory whose archive fails to extract (`Env(false, true, true, false)`): its trace is one `Extract` step and no completion | call `complete(err)`, so the task reaches a terminal state and the batch callback, and with it the registry save, can follow | not executed; high | Pipeline.ExtractionSignal | Pipeline.CorrectedCompletesExactlyOnce |

The corrected pipeline is `Pipeline.RunTaskCorrected`. `Pipeline.RunTask`
keeps the behaviour as written, and
`Pipeline.CorrectionOnlyAddsExtractError` relates the two.

## Left out

- HTTP transport (`http-get`, grabem.js:79 and 95): represented only by its outcome, `Sync.Fetch` for the registry and `Env.downloadOk` for an archive.
- Archive extraction (`decompress-zip`), `rimraf` and `fs.existsSync`: library I/O, represented by the `Env` outcomes. An extractor that fires both `error` and `extract`, or neither, is not modelled.
- The archive cache is a set of paths fixed when tasks are selected. Downloads made during the run do not update it.
- Concurrency: `async.parallelLimit(tasks, 5, …)` (grabem.js:137) is not modelled. Its early-error behaviour lives in a library that is not part of this model. `Sync.Run` stops at the registry handed to the save and does not say when the batch callback fires.
- Writing the snapshot (`fs.writeFile`, grabem.js:92) and JSON parsing and serialisation: the parse result is an input and a write failure is not modelled.
- Startup (grabem.js:20-29): creating the download directories and loading the saved registry are file-system effects. The loaded registry is the `last` map, and `Diff.Snapshot` gives the form a saved registry is read back in.
- Logging.
- `path.join` normalisation: paths are plain concatenation, so names such as `..` are not resolved.
- Registry metadata other than `metadata.version`, and last-registry entries without `metadata`, which make the comparison at grabem.js:124 throw.
- Sync.Run: parsed bodies on which the selection throws (`null`, a non-empty string, a package value that is `null` or lacks `metadata`) are one abort, `RegistryMalformed`; parsed bodies that are not objects yet do not throw (numbers, booleans, the empty string, arrays) are not modelled.
- JavaScript object details: keys inherited from `Object.prototype` (such as `constructor`) in the last registry are not modelled, and `Object.keys` ordering, with integer-like keys first, is taken as the given order of the registry sequence.
- Diff.ComputeTasks: distinct registry names are required only by the lemmas that need them (a JSON object has distinct keys); the function itself accepts any sequence.

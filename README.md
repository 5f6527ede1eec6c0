# yt-sync reconciliation, modelled in Dafny

yt-sync keeps local directories in step with YouTube playlists. For each
configured playlist it asks `yt-dlp` for the flat list of the playlist's
items. It then takes a snapshot of the target directory's entry names and
runs `yt-dlp` once per item that is not yet on disk. Finally it prints how
many of those downloads succeeded.

The repository holds two near-duplicate programs, and each decides
"already on disk" its own way:

- **Title-aware** (`src/main.rs`): the listing yields ids and titles. Every
  directory name is sanitised. An item is present when the snapshot holds
  exactly `sanitize(title) + " [" + id + "].opus"`.
- **Id-only** (`yt-sync/src/main.rs`): the listing yields ids only. An item is
  present when some directory name contains both its id and the text
  `"opus"`.

The model covers:

- the file-name sanitiser and the composed name (module `Filenames`);
- both listing loops, which fail the whole listing on the first bad line
  (`ExactSync.GetVideoIds`, `ContainmentSync.GetVideoIds`);
- both filter-and-count loops, with the download as an oracle
  (`ExactSync.Reconcile`, `ContainmentSync.Reconcile`, and the
  `SyncPlaylist` method of each module, which orders the error checks);
- both `download_video` success tests.

The two loops share one specification, in module `Reconciliation`:

- it works over `present: seq<bool>`, which says whether each item is judged
  present;
- `Fetched` gives the positions the downloader is run for, in order;
- `Succeeded` gives the positions that are counted.

Module `Divergence` proves where the two programs disagree on the same
input.

Inputs the real program reads from the outside world are parameters here:

- the listing process's outcome is a `ListingRun`: spawn failure, or exit
  status plus UTF-8 output split into lines, with each line decoded or
  malformed;
- the directory snapshot is a set of names, or `None` when the directory
  cannot be read;
- whether the target directory could be created is a boolean;
- the downloader is `fetch: (nat, string) -> ProcessRun`: what spawning
  `yt-dlp` gives when it is run for the item at position `i` with id `id`.

Each `Reconcile` also returns `calls`, the positions the downloader was run
for. This is the trace the properties talk about.

Neither program filters directory entries by type. Both snapshots take
every readable entry's name, subdirectories included: `src/main.rs:114-116`
and `yt-sync/src/main.rs:115-118`. The model does the same.

## Model

| member | source | states |
|---|---|---|
| `Filenames.SanitizeFilename` | src/main.rs:100-105 | The output has the input's length. Each of the ten reserved characters becomes `_`, each other character is copied at the same position, and the result has no reserved character. |
| `Filenames.SanitizeFixesExactlyClean` | src/main.rs:100-105 | Sanitising leaves a name unchanged if and only if the name has no reserved character. |
| `Filenames.SanitizeIdempotent` | src/main.rs:100-105 | Sanitising an already sanitised name returns it unchanged. |
| `Filenames.SanitizeConcat` | src/main.rs:101-104 | Because the map is per character, sanitising a concatenation is concatenating the sanitised parts. |
| `Filenames.ExpectedName` | src/main.rs:119 | The composed name is 8 characters longer than the title and the id together. The sanitised title comes first, the id appears unchanged two positions after it, and the name ends in `].opus`. The two characters in between are `Filenames.ExpectedNameSeparator`. |
| `Filenames.ExpectedNameSeparator` | src/main.rs:119 | The two characters between the sanitised title and the id are `" ["`. With the facts of `Filenames.ExpectedName`, this fixes every character of the composed name. |
| `Filenames.ExpectedNameClean` | src/main.rs:119 | The composed name `sanitize(title) [id].opus` has no reserved character if and only if the id has none. |
| `Filenames.ExpectedNameOfSanitisedTitle` | src/main.rs:119 | Composing the name from the already sanitised listing title (line 76) gives the same name as composing it from the raw title. |
| `Filenames.ExpectedNameStable` | src/main.rs:115-119 | When the id is clean, a file saved under its composed name is unchanged by the snapshot's sanitising, so it is found again. |
| `Filenames.SanitizeCleanTail` | src/main.rs:100-105 | Sanitising a title followed by `" ["` and a clean part gives the sanitised title followed by the same `" ["` and part. |
| `Filenames.ExpectedNameCollision` | src/main.rs:119 | The composed name does not determine its title and id. With a clean `part`, the title `title + " [" + part` and the id `id` give the same name as the title `title` and the id `part + " [" + id`. |
| `Filenames.SampleCollision` | src/main.rs:119 | The pairs (`a [x`, `y`) and (`a`, `x [y`) compose the same name. |
| `Filenames.SampleCleanTitle` | src/main.rs:100-105 | The title `Song One` is left unchanged. |
| `Filenames.SampleReservedTitle` | src/main.rs:100-105 | `Song/Two` sanitises to `Song_Two`. |
| `Filenames.SampleNames` | src/main.rs:119 | The composed names are `Song One [a1].opus` and `Song_Two [a2].opus`, whether the title is raw or already sanitised. |
| `Text.StartsWith` | yt-sync/src/main.rs:97 | `starts_with` holds if and only if the string is the prefix followed by some string. |
| `Text.StartsWithContains` | yt-sync/src/main.rs:97 | A string contains every prefix it starts with. |
| `Text.Contains` | yt-sync/src/main.rs:125 | The scanning definition of `str::contains` holds if and only if the needle occurs at some index of the string. |
| `Text.ContainsTransitive` | yt-sync/src/main.rs:125 | A string that contains `m` contains everything `m` contains. |
| `Common.SucceedsMeansNoError` | src/main.rs:62-80 | A listing that spawned, exited successfully, was UTF-8 and decoded on every line reports no error. |
| `Common.ErrorIsUnique` | src/main.rs:62-80 | A failing listing fits at most one error. |
| `Common.FirstMalformedExists` | src/main.rs:74-78 | A line sequence that is not fully decoded has a first undecodable line. |
| `Common.SomeErrorWhenFailing` | src/main.rs:62-80 | A listing that does not yield records reports an error. The checks come in order: spawn, exit status, UTF-8, then the first bad line. |
| `Reconciliation.Fetched` | src/main.rs:118-120 | There are at most as many fetch calls as items, and every call is for an item judged absent. |
| `Reconciliation.Succeeded` | src/main.rs:118-121 | There are at most as many counted items as calls, and each counted item is absent and its fetch reported success. |
| `Reconciliation.FetchedExactly` | src/main.rs:118-120 | A position is fetched if and only if it is in range and judged absent. |
| `Reconciliation.FetchedIncreasing` | src/main.rs:118-120 | Calls follow list order with strictly increasing positions, so no position is fetched twice. |
| `Reconciliation.SucceededExactly` | src/main.rs:118-121 | A position is counted if and only if it is absent and its fetch succeeded. |
| `Reconciliation.SucceededCount` | src/main.rs:118-121 | The count equals the size of the set of absent positions whose fetch succeeded. |
| `Reconciliation.AllPresentFetchesNothing` | src/main.rs:118-121 | When every item is present, nothing is fetched and nothing is counted. |
| `Reconciliation.FetchedMonotone` | src/main.rs:118-120 | Judging more items present can only remove positions from the fetch list. |
| `ExactSync.GetVideoIds` | src/main.rs:62-81 | The call succeeds exactly when the process ran, exited successfully, wrote UTF-8 and every line decoded. It then returns the ids and the sanitised titles, one per line, in line order. Otherwise it returns only the error of the first failing check, including the index of the first bad line. |
| `ExactSync.ListedTitlesAreClean` | src/main.rs:76 | The ids and titles are index-aligned with the lines, and every listed title is free of reserved characters and unchanged by re-sanitising. |
| `ExactSync.Snapshot` | src/main.rs:114-116 | No name in the sanitised snapshot has a reserved character. |
| `ExactSync.Presence` | src/main.rs:120 | There is one presence flag per listed item. Against a sanitised snapshot, an item whose id has a reserved character is never present. That a flag is set exactly when the composed name is in the snapshot is `ExactSync.FetchesExactlyTheAbsent`. |
| `ExactSync.Reconcile` | src/main.rs:118-121 | The fetch is called exactly for the `Fetched` positions of the name-in-snapshot test, in order. The count equals the `Succeeded` positions and is at most the number of calls, which is at most the number of items. |
| `ExactSync.SyncPlaylist` | src/main.rs:107-125 | Errors come in order: directory, listing (with the listing's own error), scan. No fetch happens on any error. Otherwise the calls and the reported count are those of `Reconcile` on the listed ids and titles and the sanitised snapshot. |
| `ExactSync.FetchesExactlyTheAbsent` | src/main.rs:118-120 | An item is fetched if and only if its composed name is not in the snapshot, and calls are in list order. |
| `ExactSync.CountIsAbsentSuccesses` | src/main.rs:118-121 | The count is the number of items whose composed name is absent and whose download succeeded. |
| `ExactSync.AllPresentCountsZero` | src/main.rs:118-121 | When every composed name is in the snapshot, nothing is fetched and the count is 0. |
| `ExactSync.MoreNamesFetchLess` | src/main.rs:114-120 | More names in the directory can only shrink the set of fetched items. |
| `ExactSync.ReservedIdNeverPresent` | src/main.rs:114-120 | An item whose id has a reserved character is never judged present, because sanitised names never contain one. |
| `ExactSync.SecondRunFetchesOnlyFailures` | src/main.rs:114-121 | Suppose ids have no reserved characters, and every successful download saved its file under its composed name. Then a second run fetches only items whose first-run fetch failed, so after an all-successful run it fetches nothing. |
| `ExactSync.SnapshotOfCleanNames` | src/main.rs:114-116 | Sanitising a directory of names that have no reserved characters leaves the snapshot equal to those names. |
| `ExactSync.OnlyItselfInCleanSingleton` | src/main.rs:114-116 | A directory holding one clean name matches that name and no other. |
| `ExactSync.SkippedForAnotherIdsFile` | src/main.rs:114-120 | The exact-name test has false positives of its own. Take clean `part` and `id`, and let the only file be the one saved for the different id `part + " [" + id` under the title `title`. Then an item with the title `title + " [" + part` and the id `id` finds its composed name in the snapshot and is skipped. |
| `ExactSync.TwoSongPresence` | src/main.rs:119 | For the listing `a1` "Song One" and `a2` "Song_Two", an item is present when `Song One [a1].opus` or `Song_Two [a2].opus`, respectively, is in the snapshot. |
| `ExactSync.TwoSongPlan` | src/main.rs:114-121 | For that listing with every fetch succeeding, item `a1` is fetched and counted unless its name is on disk, and so is `a2`. An empty directory fetches `[0, 1]` and reports 2. |
| `ContainmentSync.GetVideoIds` | yt-sync/src/main.rs:62-83 | The call succeeds under the same conditions as the title-aware listing, returning one id per line in line order. Otherwise it returns only the error of the first failing check. |
| `ContainmentSync.Matches` | yt-sync/src/main.rs:125 | A name matches an id if and only if the id occurs at some index of the name and `"opus"` occurs at some index of it too, in either order. |
| `ContainmentSync.AlreadyDownloaded` | yt-sync/src/main.rs:123-129 | The flag is set if and only if some snapshot name contains both the id and `"opus"`, whatever order the set is visited in. |
| `ContainmentSync.DebugText` | yt-sync/src/main.rs:97 | The Debug rendering of the spawn result starts with `"Ok"` exactly when the process was spawned, and with `"Err"` exactly when it was not. Exit status and output play no part. |
| `ContainmentSync.DownloadVideo` | yt-sync/src/main.rs:85-102 | The Debug text starts with `"Ok"` if and only if the process was spawned, so that is when the download reports success. |
| `ContainmentSync.DownloadIgnoresExitStatus` | yt-sync/src/main.rs:97-101 | A spawned process that exits with failure still reports success, exactly as one that exits successfully. |
| `ContainmentSync.Reconcile` | yt-sync/src/main.rs:120-133 | The fetch is called exactly for the `Fetched` positions of the containment test, in order. `download_count` equals the `Succeeded` positions and is at most the number of calls, which is at most the number of ids. |
| `ContainmentSync.SyncPlaylist` | yt-sync/src/main.rs:104-139 | Errors come in order: directory, listing, scan. No fetch happens on any error. Otherwise the calls and the count are those of `Reconcile` on the listed ids and the unfiltered snapshot. |
| `ContainmentSync.FetchesExactlyTheMissing` | yt-sync/src/main.rs:122-133 | An id is fetched if and only if no snapshot name contains it together with `"opus"`, and calls are in list order. |
| `ContainmentSync.CountIsMissingSuccesses` | yt-sync/src/main.rs:120-133 | `download_count` is the number of missing items whose download reported success. |
| `ContainmentSync.DuplicateIdFetchedTwice` | yt-sync/src/main.rs:115-133 | The snapshot is taken once, so an id listed twice and missing on disk is fetched at both positions. |
| `ContainmentSync.MoreNamesFetchLess` | yt-sync/src/main.rs:123-130 | More directory names can only shrink the set of fetched items. |
| `ContainmentSync.SavedNameMatches` | yt-sync/src/main.rs:125 | A file named `{title} [{id}].opus` makes its id count as downloaded. |
| `ContainmentSync.ShorterIdMatchesLongerName` | yt-sync/src/main.rs:125 | A saved file for an id also makes every substring of that id count as downloaded. |
| `Divergence.ExitStatusDivergence` | src/main.rs:83-98 | For every process outcome, a success for the title-aware `download_video` is also a success for the id-only one (yt-sync/src/main.rs:97-101). The two disagree exactly when the process ran and exited with failure. |
| `Divergence.ExpectedNameSeparatesIds` | src/main.rs:119 | For one title, different ids give different composed names. |
| `Divergence.OtherIdsFileNotPresent` | src/main.rs:114-120 | When the only file on disk belongs to another clean id under the same title, the title-aware program judges this item absent. Across titles this fails: see `ExactSync.SkippedForAnotherIdsFile`. |
| `Divergence.SubstringIdDivergence` | yt-sync/src/main.rs:125 | Suppose the only saved file is that of a longer clean id that contains this one, saved under the same title. The id-only program then skips this item, while the title-aware program fetches it. |

## Left out

- Running `yt-dlp` (building its arguments, the URL, spawning it, waiting for it). This is a process call. Its outcome is an input: `ListingRun` for the listing, `ProcessRun` per download.
- JSON decoding with `serde_json` and UTF-8 decoding with `String::from_utf8`, because these are library calls. Each output line is given already decoded, or marked `Malformed`. Splitting stdout into lines (`str::lines`) is taken as done. The index that `ParseError` carries is a model addition: it names which line failed first, where the real error carries `serde_json`'s message.
- Filesystem work: `create_dir_all`, `read_dir`, `path.exists()`. The outcome of creating the directory and the snapshot of names are inputs. Entries that `read_dir` fails to yield, and names that `to_str` drops in `src/main.rs:115`, are simply absent from the given set. The lossy conversion at `yt-sync/src/main.rs:117` is not modelled: names are taken as valid strings.
- Configuration: `get_config_path`, `read_config`, `write_default_config`, `create_default_config`. These are home-directory and TOML I/O.
- The `main` loop over playlists (`src/main.rs:137-139`, `yt-sync/src/main.rs:151-153`). Its `?` makes the first failing playlist abort the rest of the run. This orchestration is not modelled.
- The progress bar (`indicatif`) and every `println!`. These are output only. The count `SyncPlaylist` returns is the number the final message prints.
- `ExactSync.Reconcile`: the count comes from `.count()` (`src/main.rs:121`), so it is a `usize`. Here it is a `nat`, and wrap-around past 2^64 − 1 is not modelled.
- `ContainmentSync.Reconcile`: `download_count` (`yt-sync/src/main.rs:120`) has no type annotation. It is only incremented (line 131) and printed (line 136), so Rust's integer fallback makes it an `i32`. Past 2^31 − 1 successes it would panic in a debug build and wrap in a release build. Here it is a `nat`, and neither bound is modelled, because no playlist has that many items.
- What `yt-dlp` writes to disk is not modelled. `ExactSync.SecondRunFetchesOnlyFailures` and `ContainmentSync.SavedNameMatches` take the saved file's name as a hypothesis: `{title} [{id}].opus`.

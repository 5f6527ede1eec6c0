/** The title-aware program (src/main.rs): the listing yields ids and
    sanitised titles, and an item is judged present when the sanitised
    directory snapshot holds exactly the name it would be saved under. */
module ExactSync {
  import opened Common
  import opened Filenames
  import Reconciliation

  /** One decoded listing line: `{ "id": ..., "title": ... }`. */
  datatype VideoInfo = VideoInfo(id: string, title: string)

  /** The listing's output: ids and sanitised titles, index for index. */
  datatype Listing = Listing(ids: seq<string>, titles: seq<string>)

  function Ids(infos: seq<VideoInfo>): seq<string> {
    seq(|infos|, i requires 0 <= i < |infos| => infos[i].id)
  }

  function Titles(infos: seq<VideoInfo>): seq<string> {
    seq(|infos|, i requires 0 <= i < |infos| => SanitizeFilename(infos[i].title))
  }

  /** `get_video_ids`: after the process checks, decode line by line, pushing
      each sanitised title and each id; the first bad line fails the call. */
  method GetVideoIds(run: ListingRun<VideoInfo>) returns (r: Result<Listing, ListError>)
    ensures r.Success? <==> ListingSucceeds(run)
    ensures ListingSucceeds(run) ==>
      r == Success(Listing(Ids(Records(run.stdout.lines)), Titles(Records(run.stdout.lines))))
    ensures r.Failure? ==> ReportsError(run, r.error)
  {
    if run.SpawnFailed? {
      return Failure(SpawnError);
    }
    if !run.success {
      return Failure(StatusError);
    }
    if run.stdout.NotUtf8? {
      return Failure(Utf8Error);
    }
    var lines := run.stdout.lines;
    var ids, titles := [], [];
    var i := 0;
    while i < |lines|
      invariant 0 <= i <= |lines|
      invariant |ids| == i && |titles| == i
      invariant forall j :: 0 <= j < i ==>
        lines[j].Parsed? && ids[j] == lines[j].record.id
        && titles[j] == SanitizeFilename(lines[j].record.title)
    {
      match lines[i]
      case Malformed =>
        assert IsFirstMalformed(lines, i);
        return Failure(ParseError(i));
      case Parsed(info) =>
        titles := titles + [SanitizeFilename(info.title)];
        ids := ids + [info.id];
      i := i + 1;
    }
    assert ids == Ids(Records(lines));
    assert titles == Titles(Records(lines));
    return Success(Listing(ids, titles));
  }

  /** Every title a listing yields is already free of reserved characters. */
  lemma ListedTitlesAreClean(infos: seq<VideoInfo>, i: nat)
    requires i < |infos|
    ensures |Titles(infos)| == |Ids(infos)| == |infos|
    ensures Clean(Titles(infos)[i])
    ensures SanitizeFilename(Titles(infos)[i]) == Titles(infos)[i]
  {
    SanitizeIdempotent(infos[i].title);
  }

  /** The directory snapshot: every readable entry's name, sanitised. */
  function Snapshot(names: set<string>): (snapshot: set<string>)
    ensures forall m :: m in snapshot ==> Clean(m)
  {
    set n | n in names :: SanitizeFilename(n)
  }

  /** Whether each listed item's expected name is in the snapshot: one flag
      per item, and an item whose id has a reserved character is never
      present in a sanitised snapshot. */
  function Presence(ids: seq<string>, titles: seq<string>, snapshot: set<string>): (present: seq<bool>)
    requires |titles| == |ids|
    ensures |present| == |ids|
    ensures (forall m :: m in snapshot ==> Clean(m)) ==>
      forall i :: 0 <= i < |ids| && !Clean(ids[i]) ==> !present[i]
  {
    assert forall i :: 0 <= i < |ids| && !Clean(ids[i]) ==> !Clean(ExpectedName(titles[i], ids[i])) by {
      forall i | 0 <= i < |ids| && !Clean(ids[i]) ensures !Clean(ExpectedName(titles[i], ids[i])) {
        ExpectedNameClean(titles[i], ids[i]);
      }
    }
    seq(|ids|, i requires 0 <= i < |ids| => ExpectedName(titles[i], ids[i]) in snapshot)
  }

  /** `download_video`: success only when the process was spawned and exited successfully. */
  function DownloadVideo(run: ProcessRun): (ok: bool)
    ensures ok <==> run.Spawned? && run.success
  {
    match run
    case Spawned(success, _) => success
    case NotSpawned(_) => false
  }

  /** What each item's fetch would report, given what the process gives per call. */
  function Outcomes(ids: seq<string>, fetch: (nat, string) -> ProcessRun): seq<bool> {
    seq(|ids|, i requires 0 <= i < |ids| => DownloadVideo(fetch(i, ids[i])))
  }

  /** The filter-and-count over the listing: for each item in order, compose
      its expected name; skip it when the snapshot holds that name, otherwise
      fetch it (the `&&` short-circuits) and count it when the fetch succeeds.
      `fetch(i, id)` is what spawning the downloader for item `i` gives;
      `calls` records the positions it is invoked for. */
  method Reconcile(ids: seq<string>, titles: seq<string>, snapshot: set<string>,
                   fetch: (nat, string) -> ProcessRun)
    returns (count: nat, calls: seq<nat>)
    requires |titles| == |ids|
    ensures calls == Reconciliation.Fetched(Presence(ids, titles, snapshot))
    ensures count == |Reconciliation.Succeeded(Presence(ids, titles, snapshot), Outcomes(ids, fetch))|
    ensures count <= |calls| <= |ids|
  {
    ghost var present := Presence(ids, titles, snapshot);
    ghost var ok := Outcomes(ids, fetch);
    count, calls := 0, [];
    var i := 0;
    while i < |ids|
      invariant 0 <= i <= |ids|
      invariant calls == Reconciliation.Fetched(present[..i])
      invariant count == |Reconciliation.Succeeded(present[..i], ok[..i])|
    {
      assert present[..i + 1][..i] == present[..i];
      assert ok[..i + 1][..i] == ok[..i];
      var fileName := ExpectedName(titles[i], ids[i]);
      if fileName !in snapshot {
        calls := calls + [i];
        if DownloadVideo(fetch(i, ids[i])) {
          count := count + 1;
        }
      }
      i := i + 1;
    }
    assert present[..i] == present;
    assert ok[..i] == ok;
  }

  /** `sync_playlist`: make sure the directory exists, list the playlist,
      snapshot the directory once (`names` holds the readable entries), then
      reconcile. The result is the reported count or the first error; no fetch
      happens unless the listing and the scan both succeed. */
  method SyncPlaylist(dirReady: bool, listing: ListingRun<VideoInfo>, scan: Option<set<string>>,
                      fetch: (nat, string) -> ProcessRun)
    returns (r: Result<nat, SyncError>, calls: seq<nat>)
    ensures !dirReady ==> r == Failure(DirError) && calls == []
    ensures dirReady && !ListingSucceeds(listing) ==>
      r.Failure? && r.error.ListingFailed? && ReportsError(listing, r.error.cause) && calls == []
    ensures dirReady && ListingSucceeds(listing) && scan.None? ==> r == Failure(ScanError) && calls == []
    ensures dirReady && ListingSucceeds(listing) && scan.Some? ==>
      var infos := Records(listing.stdout.lines);
      var present := Presence(Ids(infos), Titles(infos), Snapshot(scan.value));
      calls == Reconciliation.Fetched(present)
      && r == Success(|Reconciliation.Succeeded(present, Outcomes(Ids(infos), fetch))|)
  {
    calls := [];
    if !dirReady {
      return Failure(DirError), calls;
    }
    var listed := GetVideoIds(listing);
    if listed.Failure? {
      return Failure(ListingFailed(listed.error)), calls;
    }
    if scan.None? {
      return Failure(ScanError), calls;
    }
    var count;
    count, calls := Reconcile(listed.value.ids, listed.value.titles, Snapshot(scan.value), fetch);
    return Success(count), calls;
  }

  /** An item whose expected name is in the snapshot is never fetched; every
      other item is fetched, once, in list order. */
  lemma FetchesExactlyTheAbsent(ids: seq<string>, titles: seq<string>, snapshot: set<string>, p: nat)
    requires |titles| == |ids|
    ensures p in Reconciliation.Fetched(Presence(ids, titles, snapshot))
      <==> p < |ids| && ExpectedName(titles[p], ids[p]) !in snapshot
    ensures forall j, k :: 0 <= j < k < |Reconciliation.Fetched(Presence(ids, titles, snapshot))| ==>
      Reconciliation.Fetched(Presence(ids, titles, snapshot))[j] < Reconciliation.Fetched(Presence(ids, titles, snapshot))[k]
  {
    Reconciliation.FetchedExactly(Presence(ids, titles, snapshot), p);
    Reconciliation.FetchedIncreasing(Presence(ids, titles, snapshot));
  }

  /** The count is the number of absent items whose fetch succeeded. */
  lemma CountIsAbsentSuccesses(ids: seq<string>, titles: seq<string>, snapshot: set<string>,
                               fetch: (nat, string) -> ProcessRun)
    requires |titles| == |ids|
    ensures |Reconciliation.Succeeded(Presence(ids, titles, snapshot), Outcomes(ids, fetch))|
      == |set p: nat | p < |ids| && ExpectedName(titles[p], ids[p]) !in snapshot
                       && DownloadVideo(fetch(p, ids[p]))|
  {
    var present, ok := Presence(ids, titles, snapshot), Outcomes(ids, fetch);
    Reconciliation.SucceededCount(present, ok);
    assert Reconciliation.SucceededSet(present, ok)
      == set p: nat | p < |ids| && ExpectedName(titles[p], ids[p]) !in snapshot
                      && DownloadVideo(fetch(p, ids[p]));
  }

  /** When every expected name is already on disk, nothing is fetched and the count is 0. */
  lemma AllPresentCountsZero(ids: seq<string>, titles: seq<string>, snapshot: set<string>,
                             fetch: (nat, string) -> ProcessRun)
    requires |titles| == |ids|
    requires forall i :: 0 <= i < |ids| ==> ExpectedName(titles[i], ids[i]) in snapshot
    ensures Reconciliation.Fetched(Presence(ids, titles, snapshot)) == []
    ensures |Reconciliation.Succeeded(Presence(ids, titles, snapshot), Outcomes(ids, fetch))| == 0
  {
    Reconciliation.AllPresentFetchesNothing(Presence(ids, titles, snapshot), Outcomes(ids, fetch));
  }

  /** More names on disk can only shrink the set of fetched items. */
  lemma MoreNamesFetchLess(ids: seq<string>, titles: seq<string>, names: set<string>, more: set<string>)
    requires |titles| == |ids|
    requires names <= more
    ensures forall p ::
      p in Reconciliation.Fetched(Presence(ids, titles, Snapshot(more)))
      ==> p in Reconciliation.Fetched(Presence(ids, titles, Snapshot(names)))
  {
    Reconciliation.FetchedMonotone(Presence(ids, titles, Snapshot(names)), Presence(ids, titles, Snapshot(more)));
  }

  /** An item whose id holds a reserved character is never judged present:
      its expected name keeps that character, and sanitised names do not. */
  lemma ReservedIdNeverPresent(title: string, id: string, names: set<string>)
    requires !Clean(id)
    ensures ExpectedName(title, id) !in Snapshot(names)
  {
    ExpectedNameClean(title, id);
  }

  /** The names a run leaves on disk: one expected name per successful fetch. */
  function WrittenNames(ids: seq<string>, titles: seq<string>, wins: seq<nat>): set<string>
    requires |titles| == |ids|
  {
    set p | p in wins && p < |ids| :: ExpectedName(titles[p], ids[p])
  }

  /** Re-running after a pass whose successful fetches saved their files under
      their expected names fetches only items whose first fetch failed; so when
      every first fetch succeeded, the second pass fetches nothing. Ids must be
      free of reserved characters (so a saved name survives sanitising). */
  lemma SecondRunFetchesOnlyFailures(ids: seq<string>, titles: seq<string>, names: set<string>,
                                     fetch: (nat, string) -> ProcessRun)
    requires |titles| == |ids|
    requires forall i :: 0 <= i < |ids| ==> Clean(ids[i])
    ensures
      var first := Presence(ids, titles, Snapshot(names));
      var wins := Reconciliation.Succeeded(first, Outcomes(ids, fetch));
      var second := Presence(ids, titles, Snapshot(names + WrittenNames(ids, titles, wins)));
      forall q :: q in Reconciliation.Fetched(second) ==>
        q in Reconciliation.Fetched(first) && q !in wins
  {
    var first := Presence(ids, titles, Snapshot(names));
    var ok := Outcomes(ids, fetch);
    var wins := Reconciliation.Succeeded(first, ok);
    var after := names + WrittenNames(ids, titles, wins);
    var second := Presence(ids, titles, Snapshot(after));
    MoreNamesFetchLess(ids, titles, names, after);
    forall q | q in Reconciliation.Fetched(second) ensures q !in wins {
      Reconciliation.FetchedExactly(second, q);
      if q in wins {
        var name := ExpectedName(titles[q], ids[q]);
        assert name in after;
        ExpectedNameStable(titles[q], ids[q]);
        assert false;
      }
    }
  }

  /** A snapshot of names that need no sanitising is those names. */
  lemma SnapshotOfCleanNames(names: set<string>)
    requires forall n :: n in names ==> Clean(n)
    ensures Snapshot(names) == names
  {
    forall n | n in names ensures SanitizeFilename(n) == n {
      SanitizeFixesExactlyClean(n);
    }
  }

  /** A directory holding one name that needs no sanitising matches only that name. */
  lemma OnlyItselfInCleanSingleton(m: string, name: string)
    requires Clean(name)
    ensures m in Snapshot({name}) <==> m == name
  {
    SanitizeFixesExactlyClean(name);
    assert Snapshot({name}) == {name};
  }

  /** The exact-name test has false positives of its own: when the only file
      on disk was saved for a different clean id `part + " [" + id`, under a
      shorter title, an item whose title ends in `" [" + part` and whose id
      is `id` finds its expected name there and is skipped without a fetch. */
  lemma SkippedForAnotherIdsFile(title: string, part: string, id: string)
    requires Clean(part) && Clean(id)
    ensures part + " [" + id != id
    ensures ExpectedName(title + " [" + part, id)
      in Snapshot({ExpectedName(title, part + " [" + id)})
  {
    var other := part + " [" + id;
    assert |other| > |id|;
    forall i | 0 <= i < |other| ensures !IsReserved(other[i]) {
      if i < |part| {
        assert other[i] == part[i];
      } else if i >= |part| + 2 {
        assert other[i] == id[i - |part| - 2];
      }
    }
    ExpectedNameClean(title, other);
    ExpectedNameCollision(title, part, id);
    OnlyItselfInCleanSingleton(ExpectedName(title, other), ExpectedName(title, other));
  }

  /** The presence flags of a two-item playlist against a given snapshot. */
  lemma TwoSongPresence(snapshot: set<string>)
    ensures Presence(["a1", "a2"], ["Song One", "Song_Two"], snapshot)
      == ["Song One [a1].opus" in snapshot, "Song_Two [a2].opus" in snapshot]
  {
    SampleNames();
  }

  /** What that playlist fetches and counts against a given snapshot, every
      fetch succeeding: an empty directory fetches both items in order and
      reports 2; a directory already holding "Song One [a1].opus" fetches
      only the second item and reports 1. */
  lemma TwoSongPlan(snapshot: set<string>, fetch: (nat, string) -> ProcessRun)
    requires forall i, id :: fetch(i, id).Spawned? && fetch(i, id).success
    ensures Reconciliation.Fetched(Presence(["a1", "a2"], ["Song One", "Song_Two"], snapshot))
      == (if "Song One [a1].opus" in snapshot then [] else [0])
         + (if "Song_Two [a2].opus" in snapshot then [] else [1])
    ensures |Reconciliation.Succeeded(Presence(["a1", "a2"], ["Song One", "Song_Two"], snapshot),
                                      Outcomes(["a1", "a2"], fetch))|
      == (if "Song One [a1].opus" in snapshot then 0 else 1)
         + (if "Song_Two [a2].opus" in snapshot then 0 else 1)
  {
    var present := Presence(["a1", "a2"], ["Song One", "Song_Two"], snapshot);
    var ok := Outcomes(["a1", "a2"], fetch);
    TwoSongPresence(snapshot);
    assert ok == [true, true];
    Reconciliation.FetchedOfTwo(present);
    Reconciliation.SucceededOfTwo(present, ok);
  }
}

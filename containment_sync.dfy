/** The id-only program (yt-sync/src/main.rs): the listing yields ids, and an
    item is judged already downloaded when some directory entry's name
    contains both its id and the text "opus". */
module ContainmentSync {
  import opened Common
  import opened Text
  import Reconciliation

  /** One decoded listing line: `{ "id": ... }`. */
  datatype VideoInfo = VideoInfo(id: string)

  function Ids(infos: seq<VideoInfo>): seq<string> {
    seq(|infos|, i requires 0 <= i < |infos| => infos[i].id)
  }

  /** `get_video_ids`: after the process checks, decode line by line and push
      each id; the first bad line fails the call. */
  method GetVideoIds(run: ListingRun<VideoInfo>) returns (r: Result<seq<string>, ListError>)
    ensures r.Success? <==> ListingSucceeds(run)
    ensures ListingSucceeds(run) ==> r == Success(Ids(Records(run.stdout.lines)))
    ensures r.Failure? ==> ReportsError(run, r.error)
  {
    if run.SpawnFailed? {
      return Failure(SpawnError);
    }
    if !run.success {
      return Failure(StatusError);
    }
    if run.stdout.NotUtf8? {
      return Failure(Utf8Error);
    }
    var lines := run.stdout.lines;
    var ids := [];
    var i := 0;
    while i < |lines|
      invariant 0 <= i <= |lines|
      invariant |ids| == i
      invariant forall j :: 0 <= j < i ==> lines[j].Parsed? && ids[j] == lines[j].record.id
    {
      match lines[i]
      case Malformed =>
        assert IsFirstMalformed(lines, i);
        return Failure(ParseError(i));
      case Parsed(info) =>
        ids := ids + [info.id];
      i := i + 1;
    }
    assert ids == Ids(Records(lines));
    return Success(ids);
  }

  /** The test applied to one directory entry: the id occurs somewhere in the
      name, and so does "opus", in either order and possibly overlapping. */
  predicate Matches(name: string, id: string)
    ensures Matches(name, id)
      <==> (exists i :: OccursAt(name, id, i)) && (exists j :: OccursAt(name, "opus", j))
  {
    Contains(name, id) && Contains(name, "opus")
  }

  /** Some directory entry contains both the id and "opus". */
  ghost predicate Downloaded(snapshot: set<string>, id: string) {
    exists name :: name in snapshot && Matches(name, id)
  }

  /** The inner loop over the snapshot: set the flag and stop at the first
      matching entry. The snapshot is a hash set, so the order of the visit
      is unspecified; the outcome does not depend on it. */
  method AlreadyDownloaded(id: string, snapshot: set<string>) returns (found: bool)
    ensures found <==> Downloaded(snapshot, id)
  {
    found := false;
    var rest := snapshot;
    while rest != {}
      invariant rest <= snapshot
      invariant forall name :: name in snapshot - rest ==> !Matches(name, id)
      decreases rest
    {
      var name :| name in rest;
      if Matches(name, id) {
        found := true;
        assert Downloaded(snapshot, id);
        break;
      }
      rest := rest - {name};
    }
  }

  ghost function Presence(ids: seq<string>, snapshot: set<string>): seq<bool> {
    seq(|ids|, i requires 0 <= i < |ids| => Downloaded(snapshot, ids[i]))
  }

  /** The Debug text of the spawn's `Result`: `Ok(...)` when the process was
      spawned, `Err(...)` when it was not; only the first starts with "Ok". */
  function DebugText(run: ProcessRun): (text: string)
    ensures StartsWith(text, "Ok") <==> run.Spawned?
    ensures StartsWith(text, "Err") <==> run.NotSpawned?
  {
    var text := match run
      case Spawned(_, output) => "Ok(" + output + ")"
      case NotSpawned(error) => "Err(" + error + ")";
    assert text[0] == (if run.Spawned? then 'O' else 'E');
    assert text[1] == (if run.Spawned? then 'k' else 'r');
    text
  }

  /** `download_video`: success is read off the Debug text of the spawn's
      result, which starts with "Ok" exactly when the process was spawned. */
  function DownloadVideo(run: ProcessRun): (ok: bool)
    ensures ok <==> run.Spawned?
  {
    StartsWith(DebugText(run), "Ok")
  }

  /** A process that ran but exited with failure still counts as downloaded. */
  lemma DownloadIgnoresExitStatus(output: string)
    ensures DownloadVideo(Spawned(false, output))
    ensures DownloadVideo(Spawned(false, output)) == DownloadVideo(Spawned(true, output))
  {
  }

  function Outcomes(ids: seq<string>, fetch: (nat, string) -> ProcessRun): seq<bool> {
    seq(|ids|, i requires 0 <= i < |ids| => DownloadVideo(fetch(i, ids[i])))
  }

  /** The outer loop: for each id in order, scan the snapshot; when no entry
      matches, fetch the id and add one to `download_count` on success.
      `calls` records the positions the fetch is invoked for. */
  method Reconcile(ids: seq<string>, snapshot: set<string>, fetch: (nat, string) -> ProcessRun)
    returns (count: nat, calls: seq<nat>)
    ensures calls == Reconciliation.Fetched(Presence(ids, snapshot))
    ensures count == |Reconciliation.Succeeded(Presence(ids, snapshot), Outcomes(ids, fetch))|
    ensures count <= |calls| <= |ids|
  {
    ghost var present := Presence(ids, snapshot);
    ghost var ok := Outcomes(ids, fetch);
    count, calls := 0, [];
    var i := 0;
    while i < |ids|
      invariant 0 <= i <= |ids|
      invariant calls == Reconciliation.Fetched(present[..i])
      invariant count == |Reconciliation.Succeeded(present[..i], ok[..i])|
    {
      assert present[..i + 1][..i] == present[..i];
      assert ok[..i + 1][..i] == ok[..i];
      var downloaded := AlreadyDownloaded(ids[i], snapshot);
      if !downloaded {
        calls := calls + [i];
        if DownloadVideo(fetch(i, ids[i])) {
          count := count + 1;
        }
      }
      i := i + 1;
    }
    assert present[..i] == present;
    assert ok[..i] == ok;
  }

  /** `sync_playlist`: create the directory if it is missing, list the
      playlist, take every entry's name once (no filter on the entry's type),
      then reconcile. No fetch happens unless the listing and the scan succeed. */
  method SyncPlaylist(dirReady: bool, listing: ListingRun<VideoInfo>, scan: Option<set<string>>,
                      fetch: (nat, string) -> ProcessRun)
    returns (r: Result<nat, SyncError>, calls: seq<nat>)
    ensures !dirReady ==> r == Failure(DirError) && calls == []
    ensures dirReady && !ListingSucceeds(listing) ==>
      r.Failure? && r.error.ListingFailed? && ReportsError(listing, r.error.cause) && calls == []
    ensures dirReady && ListingSucceeds(listing) && scan.None? ==> r == Failure(ScanError) && calls == []
    ensures dirReady && ListingSucceeds(listing) && scan.Some? ==>
      var ids := Ids(Records(listing.stdout.lines));
      calls == Reconciliation.Fetched(Presence(ids, scan.value))
      && r == Success(|Reconciliation.Succeeded(Presence(ids, scan.value), Outcomes(ids, fetch))|)
  {
    calls := [];
    if !dirReady {
      return Failure(DirError), calls;
    }
    var listed := GetVideoIds(listing);
    if listed.Failure? {
      return Failure(ListingFailed(listed.error)), calls;
    }
    if scan.None? {
      return Failure(ScanError), calls;
    }
    var count;
    count, calls := Reconcile(listed.value, scan.value, fetch);
    return Success(count), calls;
  }

  /** An item judged downloaded is never fetched; every other item is
      fetched, once, in list order. */
  lemma FetchesExactlyTheMissing(ids: seq<string>, snapshot: set<string>, p: nat)
    ensures p in Reconciliation.Fetched(Presence(ids, snapshot))
      <==> p < |ids| && !(exists name :: name in snapshot && Matches(name, ids[p]))
    ensures forall j, k :: 0 <= j < k < |Reconciliation.Fetched(Presence(ids, snapshot))| ==>
      Reconciliation.Fetched(Presence(ids, snapshot))[j] < Reconciliation.Fetched(Presence(ids, snapshot))[k]
  {
    Reconciliation.FetchedExactly(Presence(ids, snapshot), p);
    Reconciliation.FetchedIncreasing(Presence(ids, snapshot));
  }

  /** `download_count` is the number of missing items whose fetch succeeded. */
  lemma CountIsMissingSuccesses(ids: seq<string>, snapshot: set<string>, fetch: (nat, string) -> ProcessRun)
    ensures |Reconciliation.Succeeded(Presence(ids, snapshot), Outcomes(ids, fetch))|
      == |set p: nat | p < |ids| && !Downloaded(snapshot, ids[p]) && DownloadVideo(fetch(p, ids[p]))|
  {
    var present, ok := Presence(ids, snapshot), Outcomes(ids, fetch);
    Reconciliation.SucceededCount(present, ok);
    assert Reconciliation.SucceededSet(present, ok)
      == set p: nat | p < |ids| && !Downloaded(snapshot, ids[p]) && DownloadVideo(fetch(p, ids[p]));
  }

  /** The snapshot is not updated while the loop runs, so an id listed twice
      and missing on disk is fetched at both positions. */
  lemma DuplicateIdFetchedTwice(ids: seq<string>, snapshot: set<string>, i: nat, j: nat)
    requires i < j < |ids| && ids[i] == ids[j]
    requires !Downloaded(snapshot, ids[i])
    ensures i in Reconciliation.Fetched(Presence(ids, snapshot))
    ensures j in Reconciliation.Fetched(Presence(ids, snapshot))
  {
    Reconciliation.FetchedExactly(Presence(ids, snapshot), i);
    Reconciliation.FetchedExactly(Presence(ids, snapshot), j);
  }

  /** More names in the directory can only shrink the set of fetched items. */
  lemma MoreNamesFetchLess(ids: seq<string>, snapshot: set<string>, more: set<string>)
    requires snapshot <= more
    ensures forall p ::
      p in Reconciliation.Fetched(Presence(ids, more))
      ==> p in Reconciliation.Fetched(Presence(ids, snapshot))
  {
    var present, larger := Presence(ids, snapshot), Presence(ids, more);
    forall i | 0 <= i < |ids| && present[i] ensures larger[i] {
      var name :| name in snapshot && Matches(name, ids[i]);
      assert name in more;
    }
    Reconciliation.FetchedMonotone(present, larger);
  }

  /** An entry named the way yt-dlp's default template names an audio file,
      `"{title} [{id}].opus"`, makes that id count as downloaded. */
  lemma SavedNameMatches(title: string, id: string)
    ensures Matches(title + " [" + id + "].opus", id)
  {
    var name := title + " [" + id + "].opus";
    assert name == (title + " [") + id + "].opus";
    ContainsMiddle(title + " [", id, "].opus");
    assert name == (title + " [" + id + "].") + "opus" + "";
    ContainsMiddle(title + " [" + id + "].", "opus", "");
  }

  /** The containment test also matches an id that is only part of a saved
      name's id: one saved item can hide another whose id is a substring of it. */
  lemma ShorterIdMatchesLongerName(title: string, id: string, longer: string)
    requires Contains(longer, id)
    ensures Downloaded({title + " [" + longer + "].opus"}, id)
  {
    var name := title + " [" + longer + "].opus";
    SavedNameMatches(title, longer);
    ContainsTransitive(name, longer, id);
    assert name in {name} && Matches(name, id);
  }
}

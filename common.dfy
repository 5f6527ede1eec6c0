/** Shared shapes of the two sync programs: the outcome of asking yt-dlp for a
    playlist listing, the outcome of spawning it for one download, and the
    errors a sync pass can end with. */
module Common {

  datatype Option<T> = None | Some(value: T)

  datatype Result<T, E> = Success(value: T) | Failure(error: E)

  /** One line of the listing's standard output, after JSON decoding:
      either the decoded record or a line the decoder rejected. */
  datatype Line<R> = Parsed(record: R) | Malformed

  /** The listing's standard output: valid UTF-8 split into lines, or not UTF-8. */
  datatype Stdout<R> = Utf8(lines: seq<Line<R>>) | NotUtf8

  /** What running `yt-dlp -j --flat-playlist <url>` gave: the process could not
      be spawned, or it exited with a success flag and an output. */
  datatype ListingRun<R> = SpawnFailed | Exited(success: bool, stdout: Stdout<R>)

  /** Why a listing failed; `line` is the index of the first undecodable line. */
  datatype ListError = SpawnError | StatusError | Utf8Error | ParseError(line: nat)

  /** What spawning yt-dlp for one download gave, with the text of the value
      (the captured output, or the spawn error) that a Debug format would show. */
  datatype ProcessRun = Spawned(success: bool, output: string) | NotSpawned(error: string)

  /** Why a sync pass ended without a report. */
  datatype SyncError = DirError | ListingFailed(cause: ListError) | ScanError

  predicate AllParsed<R>(lines: seq<Line<R>>) {
    forall i :: 0 <= i < |lines| ==> lines[i].Parsed?
  }

  predicate IsFirstMalformed<R>(lines: seq<Line<R>>, k: nat) {
    k < |lines| && lines[k].Malformed? && forall j :: 0 <= j < k ==> lines[j].Parsed?
  }

  /** The listing yields records: the process ran, exited successfully, wrote
      UTF-8, and every line decoded. */
  predicate ListingSucceeds<R>(run: ListingRun<R>) {
    run.Exited? && run.success && run.stdout.Utf8? && AllParsed(run.stdout.lines)
  }

  /** `e` is the error a failing listing reports: the first check that fails,
      in the order spawn, exit status, UTF-8, then line by line. */
  predicate ReportsError<R>(run: ListingRun<R>, e: ListError) {
    match run
    case SpawnFailed => e == SpawnError
    case Exited(success, stdout) =>
      if !success then e == StatusError
      else match stdout
        case NotUtf8 => e == Utf8Error
        case Utf8(lines) => e.ParseError? && IsFirstMalformed(lines, e.line)
  }

  /** The decoded records, in line order. */
  function Records<R>(lines: seq<Line<R>>): seq<R>
    requires AllParsed(lines)
  {
    seq(|lines|, i requires 0 <= i < |lines| => lines[i].record)
  }

  /** A listing that yields records reports no error. */
  lemma SucceedsMeansNoError<R>(run: ListingRun<R>, e: ListError)
    requires ListingSucceeds(run)
    ensures !ReportsError(run, e)
  {
  }

  /** At most one error fits a failing listing. */
  lemma {:induction false} ErrorIsUnique<R>(run: ListingRun<R>, e1: ListError, e2: ListError)
    requires ReportsError(run, e1) && ReportsError(run, e2)
    ensures e1 == e2
  {
  }

  /** In a sequence that is not all decoded, some line is the first undecodable one. */
  lemma {:induction false} FirstMalformedExists<R>(lines: seq<Line<R>>)
    requires !AllParsed(lines)
    ensures exists k: nat :: IsFirstMalformed(lines, k)
    decreases |lines|
  {
    var n := |lines| - 1;
    if AllParsed(lines[..n]) {
      assert lines[n].Malformed?;
      assert IsFirstMalformed(lines, n);
    } else {
      FirstMalformedExists(lines[..n]);
      var k: nat :| IsFirstMalformed(lines[..n], k);
      assert IsFirstMalformed(lines, k);
    }
  }

  /** Every listing either yields records or reports exactly one error. */
  lemma {:induction false} SomeErrorWhenFailing<R>(run: ListingRun<R>)
    requires !ListingSucceeds(run)
    ensures exists e :: ReportsError(run, e)
  {
    match run
    case SpawnFailed =>
      assert ReportsError(run, SpawnError);
    case Exited(success, stdout) =>
      if !success {
        assert ReportsError(run, StatusError);
      } else if stdout.NotUtf8? {
        assert ReportsError(run, Utf8Error);
      } else {
        FirstMalformedExists(stdout.lines);
        var k: nat :| IsFirstMalformed(stdout.lines, k);
        assert ReportsError(run, ParseError(k));
      }
  }
}

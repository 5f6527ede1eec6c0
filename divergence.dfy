/** Where the two programs disagree on the same inputs. */
module Divergence {
  import opened Common
  import opened Text
  import opened Filenames
  import ExactSync
  import ContainmentSync

  /** The title-aware download test is the stricter one: whatever the
      process gives, a success there is a success for the id-only program,
      and the two disagree exactly on a process that ran and exited with
      failure. */
  lemma ExitStatusDivergence(run: ProcessRun)
    ensures ExactSync.DownloadVideo(run) ==> ContainmentSync.DownloadVideo(run)
    ensures ExactSync.DownloadVideo(run) != ContainmentSync.DownloadVideo(run)
      <==> run.Spawned? && !run.success
  {
  }

  /** Two expected names for one title differ when the ids differ. */
  lemma ExpectedNameSeparatesIds(title: string, id: string, other: string)
    requires id != other
    ensures ExpectedName(title, id) != ExpectedName(title, other)
  {
    var head := SanitizeFilename(title) + " [";
    assert ExpectedName(title, id) == head + id + "].opus";
    assert ExpectedName(title, other) == head + other + "].opus";
    if |id| != |other| {
      assert |ExpectedName(title, id)| != |ExpectedName(title, other)|;
    } else {
      assert ExpectedName(title, id)[|head|..|head| + |id|] == id;
      assert ExpectedName(title, other)[|head|..|head| + |id|] == other;
    }
  }

  /** The title-aware program fetches an item when the only saved file is
      another clean id's under the same title, even when that id contains
      this one. Across titles this can fail:
      `ExactSync.SkippedForAnotherIdsFile`. */
  lemma OtherIdsFileNotPresent(title: string, id: string, longer: string)
    requires id != longer && Clean(longer)
    ensures ExpectedName(title, id) !in ExactSync.Snapshot({ExpectedName(title, longer)})
  {
    ExpectedNameClean(title, longer);
    ExpectedNameSeparatesIds(title, id, longer);
    ExactSync.OnlyItselfInCleanSingleton(ExpectedName(title, id), ExpectedName(title, longer));
  }

  /** With only a longer clean id's file on disk, saved under the same
      title, the id-only program takes an id that is a proper substring of it
      as downloaded and skips it, while the title-aware program fetches it. */
  lemma SubstringIdDivergence(title: string, id: string, longer: string)
    requires Contains(longer, id) && id != longer && Clean(longer)
    ensures ContainmentSync.Downloaded({ExpectedName(title, longer)}, id)
    ensures ExpectedName(title, id) !in ExactSync.Snapshot({ExpectedName(title, longer)})
  {
    ContainmentSync.ShorterIdMatchesLongerName(SanitizeFilename(title), id, longer);
    OtherIdsFileNotPresent(title, id, longer);
  }
}

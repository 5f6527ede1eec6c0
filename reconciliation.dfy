/** The decision both sync programs make over a remote list, stated once over
    the per-item facts they compute: `present[i]` says whether item `i` is
    judged already downloaded, `ok[i]` what fetching item `i` would report.
    Items are taken in list order; a present item is skipped without a fetch;
    an absent one is fetched, and counted when its fetch reports success. */
module Reconciliation {

  /** The positions handed to the fetch, in the order of the calls. */
  function Fetched(present: seq<bool>): (calls: seq<nat>)
    ensures |calls| <= |present|
    ensures forall k :: 0 <= k < |calls| ==> calls[k] < |present| && !present[calls[k]]
    decreases |present|
  {
    if |present| == 0 then []
    else
      var n := |present| - 1;
      Fetched(present[..n]) + (if present[n] then [] else [n])
  }

  /** The fetched positions whose fetch reported success, in call order. */
  function Succeeded(present: seq<bool>, ok: seq<bool>): (wins: seq<nat>)
    requires |ok| == |present|
    ensures |wins| <= |Fetched(present)|
    ensures forall k :: 0 <= k < |wins| ==> wins[k] < |present| && !present[wins[k]] && ok[wins[k]]
    decreases |present|
  {
    if |present| == 0 then []
    else
      var n := |present| - 1;
      Succeeded(present[..n], ok[..n]) + (if !present[n] && ok[n] then [n] else [])
  }

  /** The absent positions whose fetch succeeds, as a set. */
  function SucceededSet(present: seq<bool>, ok: seq<bool>): set<nat>
    requires |ok| == |present|
  {
    set p: nat | p < |present| && !present[p] && ok[p]
  }

  /** An item is fetched exactly when it is not present. */
  lemma {:induction false} FetchedExactly(present: seq<bool>, p: nat)
    ensures p in Fetched(present) <==> p < |present| && !present[p]
    decreases |present|
  {
    if |present| > 0 {
      var n := |present| - 1;
      FetchedExactly(present[..n], p);
    }
  }

  /** Calls follow list order, so no position is fetched twice. */
  lemma {:induction false} FetchedIncreasing(present: seq<bool>)
    ensures forall j, k :: 0 <= j < k < |Fetched(present)| ==> Fetched(present)[j] < Fetched(present)[k]
    decreases |present|
  {
    if |present| > 0 {
      FetchedIncreasing(present[..|present| - 1]);
    }
  }

  /** An item counts exactly when it is absent and its fetch succeeds. */
  lemma {:induction false} SucceededExactly(present: seq<bool>, ok: seq<bool>, p: nat)
    requires |ok| == |present|
    ensures p in Succeeded(present, ok) <==> p < |present| && !present[p] && ok[p]
    decreases |present|
  {
    if |present| > 0 {
      var n := |present| - 1;
      SucceededExactly(present[..n], ok[..n], p);
    }
  }

  /** The reported count is the number of absent items whose fetch succeeded. */
  lemma {:induction false} SucceededCount(present: seq<bool>, ok: seq<bool>)
    requires |ok| == |present|
    ensures |Succeeded(present, ok)| == |SucceededSet(present, ok)|
    decreases |present|
  {
    if |present| > 0 {
      var n := |present| - 1;
      SucceededCount(present[..n], ok[..n]);
      var before := SucceededSet(present[..n], ok[..n]);
      if !present[n] && ok[n] {
        assert SucceededSet(present, ok) == before + {n};
        assert n !in before;
      } else {
        assert SucceededSet(present, ok) == before;
      }
    }
  }

  /** When every item is present nothing is fetched and the count is zero. */
  lemma {:induction false} AllPresentFetchesNothing(present: seq<bool>, ok: seq<bool>)
    requires |ok| == |present|
    requires forall i :: 0 <= i < |present| ==> present[i]
    ensures Fetched(present) == []
    ensures Succeeded(present, ok) == []
    decreases |present|
  {
    if |present| > 0 {
      var n := |present| - 1;
      AllPresentFetchesNothing(present[..n], ok[..n]);
    }
  }

  /** Judging more items present can only remove items from the fetch list. */
  lemma FetchedMonotone(present: seq<bool>, more: seq<bool>)
    requires |more| == |present|
    requires forall i :: 0 <= i < |present| && present[i] ==> more[i]
    ensures forall p :: p in Fetched(more) ==> p in Fetched(present)
  {
    forall p | p in Fetched(more) ensures p in Fetched(present) {
      FetchedExactly(more, p);
      FetchedExactly(present, p);
    }
  }

  /** The fetch list of a two-item playlist, spelled out. */
  lemma FetchedOfTwo(present: seq<bool>)
    requires |present| == 2
    ensures Fetched(present) == (if present[0] then [] else [0]) + (if present[1] then [] else [1])
  {
    assert present[..1][..0] == [];
  }

  /** The successes of a two-item playlist, spelled out. */
  lemma SucceededOfTwo(present: seq<bool>, ok: seq<bool>)
    requires |present| == 2 && |ok| == 2
    ensures Succeeded(present, ok)
      == (if !present[0] && ok[0] then [0] else []) + (if !present[1] && ok[1] then [1] else [])
  {
    assert present[..1][..0] == [];
    assert ok[..1][..0] == [];
  }
}

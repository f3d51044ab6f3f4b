/**
 * The trial driver: keeps the best run of each batch and the best batch overall.
 * Detection counts are compared as integers.
 */
module Trials {
  import opened Arena

  /** What one path assembly returns. */
  datatype Run = Run(path: seq<Point>, detected: nat, ledger: seq<Entry>)

  /** The accumulator before any run has been seen. */
  const NoRun: Run := Run([], 0, [])

  /** The largest element of a non-empty sequence, as Python's max. */
  function Max(s: seq<int>): (m: int)
    requires |s| > 0
    ensures m in s
    ensures forall i :: 0 <= i < |s| ==> s[i] <= m
  {
    if |s| == 1 then s[0]
    else
      var rest := Max(s[..|s| - 1]);
      if s[|s| - 1] > rest then s[|s| - 1] else rest
  }

  /**
   * The run a batch retains: no run of the batch detected more, and it is the
   * last run detecting that much (the accumulator starts at 0 and is replaced on
   * greater-or-equal); an empty batch leaves the initial accumulator.
   */
  ghost predicate IsBatchBest(runs: seq<Run>, best: Run)
  {
    (forall i :: 0 <= i < |runs| ==> runs[i].detected <= best.detected) &&
    (|runs| == 0 ==> best == NoRun) &&
    (|runs| > 0 ==>
       exists k :: 0 <= k < |runs| && best == runs[k] &&
         forall i :: k < i < |runs| ==> runs[i].detected < best.detected)
  }

  /** The inner loop over the repeats of one batch. */
  method BestOfBatch(runs: seq<Run>) returns (best: Run)
    ensures IsBatchBest(runs, best)
  {
    best := NoRun;
    for n := 0 to |runs|
      invariant forall i :: 0 <= i < n ==> runs[i].detected <= best.detected
      invariant n == 0 ==> best == NoRun
      invariant n > 0 ==>
                  exists k :: 0 <= k < n && best == runs[k] &&
                    forall i :: k < i < n ==> runs[i].detected < best.detected
    {
      if runs[n].detected >= best.detected {
        best := runs[n];
      }
    }
  }

  /** Index k holds the maximum of s and no later element reaches it. */
  ghost predicate IsLastMax(s: seq<int>, k: int)
  {
    0 <= k < |s| && s[k] == Max(s) && forall i :: k < i < |s| ==> s[i] < s[k]
  }

  lemma {:induction false} LastMaxStep(s: seq<int>, k: int, v: int)
    requires IsLastMax(s, k)
    ensures Max(s + [v]) == if v > s[k] then v else s[k]
    ensures v == Max(s + [v]) ==> IsLastMax(s + [v], |s|)
    ensures v != Max(s + [v]) ==> IsLastMax(s + [v], k)
  {
    assert (s + [v])[..|s|] == s;
  }

  /** The last maximal batch's retained run detects at least as much as every run of every batch. */
  lemma HighestBoundsEveryRun(batches: seq<seq<Run>>, bests: seq<nat>, chosen: seq<Run>, last: int)
    requires |bests| == |batches| && |chosen| == |batches|
    requires forall m :: 0 <= m < |batches| ==> IsBatchBest(batches[m], chosen[m]) && bests[m] == chosen[m].detected
    requires IsLastMax(bests, last)
    ensures forall m, i :: 0 <= m < |batches| && 0 <= i < |batches[m]| ==> batches[m][i].detected <= chosen[last].detected
  {
    forall m, i | 0 <= m < |batches| && 0 <= i < |batches[m]|
      ensures batches[m][i].detected <= chosen[last].detected
    {
      assert batches[m][i].detected <= chosen[m].detected == bests[m] <= Max(bests);
    }
  }

  /**
   * The outer loop over batches: records each batch's best count and replaces the
   * overall best whenever the new count equals the maximum recorded so far. The
   * result is the best run of the last batch whose count is the overall maximum.
   */
  method SelectHighest(batches: seq<seq<Run>>) returns (highest: Run, bests: seq<nat>, ghost chosen: seq<Run>)
    ensures |bests| == |batches| && |chosen| == |batches|
    ensures forall m :: 0 <= m < |batches| ==> IsBatchBest(batches[m], chosen[m]) && bests[m] == chosen[m].detected
    ensures |batches| == 0 ==> highest == NoRun
    ensures |batches| > 0 ==>
              exists m :: 0 <= m < |batches| && highest == chosen[m] && bests[m] == Max(bests) &&
                forall m' :: m < m' < |batches| ==> bests[m'] < bests[m]
    ensures forall m, i :: 0 <= m < |batches| && 0 <= i < |batches[m]| ==> batches[m][i].detected <= highest.detected
  {
    highest, bests, chosen := NoRun, [], [];
    ghost var last := 0;
    for m := 0 to |batches|
      invariant |bests| == m && |chosen| == m
      invariant forall i :: 0 <= i < m ==> IsBatchBest(batches[i], chosen[i]) && bests[i] == chosen[i].detected
      invariant m == 0 ==> highest == NoRun
      invariant m > 0 ==> IsLastMax(bests, last) && highest == chosen[last]
    {
      var best := BestOfBatch(batches[m]);
      if m == 0 {
        assert Max([best.detected]) == best.detected;
      } else {
        LastMaxStep(bests, last, best.detected);
      }
      bests, chosen := bests + [best.detected], chosen + [best];
      if best.detected == Max(bests) {
        highest := best;
        last := m;
      }
    }
    if |batches| > 0 {
      HighestBoundsEveryRun(batches, bests, chosen, last);
    }
  }
}

/** What the six detectors have in common: a scan that ends at the first event that
    completes a candidate, or that has no identity. */
module DetectorOutcomes {
  import opened Prelude
  import opened TraceEvents
  import opened Progress
  import opened ReasonLogs
  import opened ProgressScan
  import opened ProgressTheorems

  /** `Match` lists the supporting positions in the window; `Fail` is an event whose
      payload identity cannot be computed. */
  datatype Outcome = Fail | Match(support: seq<nat>)

  /** The verdict on each event of a window; most events complete nothing. */
  type Verdicts = seq<Option<Outcome>>

  lemma {:induction false} SliceIsContiguous(s: Trace, from: nat, to: nat)
    requires Contiguous(s) && from <= to <= |s|
    ensures Contiguous(s[from..to])
  {
    var w := s[from..to];
    forall i | 0 <= i < |w| - 1
      ensures w[i + 1].sequence == w[i].sequence + 1 && w[i + 1].runId == w[i].runId
    {
      assert w[i] == s[from + i] && w[i + 1] == s[from + i + 1];
    }
  }

  /** The classifier's verdict on a window, as every detector asks for it: some
      reason was recorded. */
  ghost predicate ShowsProgress(w: Trace) {
    ClassifierLog(w, |w|, 0).reasons != []
  }

  /** It is the existence of evidence. */
  lemma {:induction false} ShowsProgressMeaning(w: Trace)
    ensures ShowsProgress(w) <==> Classification(w).madeProgress
    ensures ShowsProgress(w) <==> MadeProgress(w)
  {
    ClassificationMeaning(w);
  }

  /** A reference that only the second event carries is progress. */
  lemma {:induction false} EvidenceShows(w: Trace, x: string)
    requires |w| > 1 && EvidenceOf(w[0]) == [] && x in EvidenceOf(w[1])
    ensures ShowsProgress(w)
  {
    ShowsProgressMeaning(w);
    assert EvidenceAppears(w, 1);
    assert Witness(EvidenceAdded, w, 1);
  }

  /** The re-evaluation of a sub-window. In a contiguous window it cannot fail. */
  method ProgressBetween(s: Trace, from: nat, to: nat) returns (made: bool)
    requires Contiguous(s) && from <= to < |s|
    ensures made <==> ShowsProgress(s[from..to + 1])
  {
    SliceIsContiguous(s, from, to + 1);
    var r := ClassifyProgress(s[from..to + 1]);
    return r.value.madeProgress;
  }
}

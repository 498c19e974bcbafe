/** Which events of a trace a detector judges, and what the finding it makes of them
    holds, field by field. */
module DetectorWindows {
  import opened Prelude
  import opened TraceEvents
  import opened DetectorOutcomes
  import opened RunPolicies
  import opened Detectors

  lemma {:induction false} SuffixIsValidTrace(a: Trace, w: Trace)
    requires ValidTrace(a + w) && w != []
    ensures ValidTrace(w) && w[0].runId == (a + w)[0].runId
  {
    var s := a + w;
    ValidIsContiguous(s);
    assert s[|a|..] == w;
    SuffixIsValid(s, |a|);
    RunOfWindow(s, |a|);
    forall i | 0 <= i < |w|
      ensures w[i].runId == w[0].runId
    {
      RunOfWindow(w, i);
    }
  }

  lemma {:induction false} DetectsOnWindow(d: Detector, a: Trace, w: Trace, p: RunPolicy)
    requires WithinContract(p) && ValidTrace(a + w) && |w| == WindowSize(d, p)
    ensures DetectionOf(d, a + w, p) == DetectionOf(d, w, p)
  {
    SuffixIsValidTrace(a, w);
    assert WindowOf(a + w, |w|) == w == WindowOf(w, |w|);
  }

  /** The three repetition detectors judge the last events of a longer trace, as many as
      the policy's repetition window holds, and nothing before them. */
  lemma {:induction false} RepetitionWindow(d: Detector, a: Trace, w: Trace, p: RunPolicy)
    requires d.ExactRepetition? || d.Cycle? || d.RepeatedError?
    requires WithinContract(p) && ValidTrace(a + w) && |w| == p.repetitionEvents
    ensures ValidTrace(w) && DetectionOf(d, a + w, p) == DetectionOf(d, w, p)
  {
    SuffixIsValidTrace(a, w);
    DetectsOnWindow(d, a, w, p);
  }

  /** The other three judge as many as its no-progress window holds. */
  lemma {:induction false} NoProgressWindow(d: Detector, a: Trace, w: Trace, p: RunPolicy)
    requires d.UnchangedState? || d.AcceptanceStall? || d.BudgetBurn?
    requires WithinContract(p) && ValidTrace(a + w) && |w| == p.noProgressEvents
    ensures ValidTrace(w) && DetectionOf(d, a + w, p) == DetectionOf(d, w, p)
  {
    SuffixIsValidTrace(a, w);
    DetectsOnWindow(d, a, w, p);
  }

  // ---------------------------------------------------------------- the finding

  /** Who makes a finding, of which class and for which reason. */
  ghost predicate Signed(d: Detector, f: Finding) {
    f.id.Derived? &&
    match d
    case ExactRepetition =>
      f.id.detector == "exact-repetition" && f.findingClass == RepetitionClass && f.reason == RepetitionDetected
    case Cycle => f.id.detector == "cycle" && f.findingClass == RepetitionClass && f.reason == RepetitionDetected
    case RepeatedError =>
      f.id.detector == "repeated-error" && f.findingClass == RepetitionClass && f.reason == RepetitionDetected
    case UnchangedState =>
      f.id.detector == "unchanged-state" && f.findingClass == NoProgressClass && f.reason == NoProgressDetected
    case AcceptanceStall =>
      f.id.detector == "acceptance-stall" && f.findingClass == NoProgressClass && f.reason == NoProgressDetected
    case BudgetBurn => f.id.detector == "budget-burn" && f.findingClass == BudgetClass && f.reason == BudgetLimitReached
  }

  /** The ids of the events at these positions, each once, in the order of the positions;
      of more than a thousand, the first thousand. */
  ghost predicate Supports(s: Trace, positions: seq<nat>, ids: seq<string>)
    requires forall i | 0 <= i < |positions| :: positions[i] < |s|
  {
    && Distinct(ids) && |ids| <= 1000
    && (forall id | id in ids :: exists i :: 0 <= i < |positions| && s[positions[i]].eventId == id)
    && (|ids| < 1000 ==> forall i | 0 <= i < |positions| :: s[positions[i]].eventId in ids)
    && ids <= Dedup(IdsAt(s, positions))
  }

  lemma {:induction false} MadeFinding(d: Detector, runId: string, p: RunPolicy, ids: seq<string>, candidate: bool)
    requires WithinContract(p) && MakeFinding(d, runId, p, ids, candidate).Ok?
    ensures var f := MakeFinding(d, runId, p, ids, candidate).value;
      && Signed(d, f) && f.availability == Available
      && f.runId == f.id.runId == runId && f.id.eventIds == f.eventIds == Truncate(Dedup(ids))
      && f.matched == candidate && f.score == if candidate then 1.0 else 0.0
  {
    ThresholdIsFraction(p, ClassOf(d));
  }

  /** What a finding says about the outcome of a scan. */
  ghost predicate Tells(f: Finding, s: Trace, outcome: Option<Outcome>)
    requires s != [] && InWindow(s, outcome)
  {
    match outcome
    case None => !f.matched && f.score == 0.0 && f.eventIds == [s[|s| - 1].eventId]
    case Some(Fail) => false
    case Some(Match(support)) => f.matched && f.score == 1.0 && Supports(s, support, f.eventIds)
  }

  lemma {:induction false} ReportTells(d: Detector, s: Trace, p: RunPolicy, outcome: Option<Outcome>)
    requires WithinContract(p) && s != [] && InWindow(s, outcome) && Report(d, s, p, outcome).Ok?
    ensures var f := Report(d, s, p, outcome).value;
      && Signed(d, f) && f.availability == Available
      && f.runId == f.id.runId == s[0].runId && f.id.eventIds == f.eventIds && Tells(f, s, outcome)
  {
    match outcome
    case None =>
      var last := [s[|s| - 1].eventId];
      DedupOfDistinct(last);
      MadeFinding(d, s[0].runId, p, last, false);
    case Some(Match(support)) =>
      SupportsDedup(s, support);
      MadeFinding(d, s[0].runId, p, IdsAt(s, support), true);
    case Some(Fail) =>
  }

  /** The finding of a trace that fits the detector's window. Nothing completed: an
      unmatched finding with score 0 on the last event. A completed candidate: a matched
      one with score 1 on its events. */
  lemma {:induction false} FindingMeaning(d: Detector, s: Trace, p: RunPolicy)
    requires WithinContract(p) && ValidTrace(s) && DetectionOf(d, s, p).Ok?
    requires d.ExactRepetition? || d.Cycle? || d.RepeatedError? ==> |s| <= p.repetitionEvents
    requires d.UnchangedState? || d.AcceptanceStall? || d.BudgetBurn? ==> |s| <= p.noProgressEvents
    ensures s != [] && InWindow(s, OutcomeOf(d, s))
    ensures var f := DetectionOf(d, s, p).value;
      && Signed(d, f) && f.availability == Available
      && f.runId == f.id.runId == s[0].runId && f.id.eventIds == f.eventIds && Tells(f, s, OutcomeOf(d, s))
  {
    ValidIsContiguous(s);
    OutcomeInWindow(d, s);
    ReportTells(d, s, p, OutcomeOf(d, s));
  }

  lemma {:induction false} SupportsDedup(s: Trace, positions: seq<nat>)
    requires forall i | 0 <= i < |positions| :: positions[i] < |s|
    ensures Supports(s, positions, Truncate(Dedup(IdsAt(s, positions))))
  {
    var all := IdsAt(s, positions);
    DedupMeaning(all);
    var ids := Truncate(Dedup(all));
    forall id | id in ids
      ensures exists i :: 0 <= i < |positions| && s[positions[i]].eventId == id
    {
      assert id in all;
      var i :| 0 <= i < |all| && all[i] == id;
    }
    forall i | 0 <= i < |positions| && |ids| < 1000
      ensures s[positions[i]].eventId in ids
    {
      assert all[i] in all;
    }
  }
}

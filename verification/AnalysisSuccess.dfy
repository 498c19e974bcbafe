/** When an analysis succeeds: what the detectors hand over, and exactly when it becomes
    an envelope. */
module AnalysisSuccess {
  import opened Prelude
  import opened TraceEvents
  import opened RunPolicies
  import opened DetectorOutcomes
  import opened Detectors
  import opened HardStops
  import opened Envelopes
  import opened EnvelopeTheorems
  import opened Controller
  import opened AnalysisTheorems
  import Decisions
  import Diagnosis

  // --------------------------------------------------------------- one detector

  /** A finding carries its detector's name and the trace's run id. */
  ghost predicate MadeBy(d: Detector, s: Trace, f: Finding)
    requires s != []
  {
    ValidFinding(f) && f.runId == s[0].runId && f.id.Derived? && f.id.detector == NameOf(d)
  }

  lemma {:induction false} DetectionIsMadeBy(d: Detector, s: Trace, p: RunPolicy)
    requires WithinContract(p) && ValidTrace(s) && DetectionOf(d, s, p).Ok?
    ensures s != [] && MadeBy(d, s, DetectionOf(d, s, p).value)
  {
    ValidIsContiguous(s);
    WindowIsValid(s, WindowSize(d, p));
    OutcomeInWindow(d, WindowOf(s, WindowSize(d, p)));
  }

  /** A finding can be made exactly when the finding contract accepts every id in it. */
  lemma {:induction false} MakesFinding(d: Detector, runId: string, p: RunPolicy, ids: seq<string>, candidate: bool)
    requires WithinContract(p) && 0 < |ids| <= MAX_SUPPORT
    ensures MakeFinding(d, runId, p, ids, candidate).Ok? <==>
      SchemaIdentifier(runId) && forall id | id in ids :: SchemaIdentifier(id)
    ensures MakeFinding(d, runId, p, ids, candidate).Ok? ==>
      var f := MakeFinding(d, runId, p, ids, candidate).value; f.matched == candidate && f.eventIds == Dedup(ids)
  {
    DedupMeaning(ids);
    DedupIsShorter(ids);
    assert ids[0] in Dedup(ids);
    ThresholdIsFraction(p, ClassOf(d));
  }

  lemma {:induction false} NoCandidate(d: Detector, s: Trace, p: RunPolicy)
    requires WithinContract(p) && ValidTrace(s) && OutcomeOf(d, WindowOf(s, WindowSize(d, p))).None?
    ensures s != [] && DetectionOf(d, s, p) == MakeFinding(d, s[0].runId, p, [s[|s| - 1].eventId], false)
  {
    ValidIsContiguous(s);
    WindowIsValid(s, WindowSize(d, p));
  }

  lemma {:induction false} Candidate(d: Detector, s: Trace, p: RunPolicy, support: seq<nat>)
    requires WithinContract(p) && ValidTrace(s) && |s| <= WindowSize(d, p)
    requires forall i | 0 <= i < |support| :: support[i] < |s|
    requires OutcomeOf(d, s) == Some(Match(support))
    ensures s != [] && DetectionOf(d, s, p) == MakeFinding(d, s[0].runId, p, IdsAt(s, support), true)
  {
    ValidIsContiguous(s);
  }

  /** A detector that completed nothing reports the last event, if a finding may name it. */
  lemma {:induction false} UnmatchedDetection(d: Detector, s: Trace, p: RunPolicy)
    requires WithinContract(p) && ValidTrace(s) && OutcomeOf(d, WindowOf(s, WindowSize(d, p))).None?
    ensures s != []
    ensures DetectionOf(d, s, p).Ok? <==> SchemaIdentifier(s[0].runId) && SchemaIdentifier(s[|s| - 1].eventId)
    ensures DetectionOf(d, s, p).Ok? ==> !DetectionOf(d, s, p).value.matched
  {
    NoCandidate(d, s, p);
    MakesFinding(d, s[0].runId, p, [s[|s| - 1].eventId], false);
  }

  /** A detector that completed a candidate reports its events, first occurrences only. */
  lemma {:induction false} MatchedDetection(d: Detector, s: Trace, p: RunPolicy, support: seq<nat>)
    requires WithinContract(p) && ValidTrace(s) && |s| <= WindowSize(d, p)
    requires OutcomeOf(d, s) == Some(Match(support)) && 0 < |support| <= MAX_SUPPORT
    requires forall i | 0 <= i < |support| :: support[i] < |s|
    ensures s != []
    ensures DetectionOf(d, s, p).Ok? <==>
      SchemaIdentifier(s[0].runId) && forall id | id in IdsAt(s, support) :: SchemaIdentifier(id)
    ensures DetectionOf(d, s, p).Ok? ==>
      DetectionOf(d, s, p).value.matched && DetectionOf(d, s, p).value.eventIds == Dedup(IdsAt(s, support))
  {
    Candidate(d, s, p, support);
    MakesFinding(d, s[0].runId, p, IdsAt(s, support), true);
  }

  lemma {:induction false} DedupIsShorter<T>(xs: seq<T>)
    ensures |Dedup(xs)| <= |xs|
  {
    if xs != [] {
      DedupIsShorter(xs[..|xs| - 1]);
    }
  }

  // ---------------------------------------------------------------- all of them

  lemma {:induction false} NamesDiffer(i: nat, j: nat)
    requires i < j < |DETECTORS|
    ensures NameOf(DETECTORS[i]) != NameOf(DETECTORS[j])
  {
    assert |NameOf(ExactRepetition)| == 16 && |NameOf(Cycle)| == 5 && |NameOf(RepeatedError)| == 14;
    assert |NameOf(UnchangedState)| == 15 && |NameOf(AcceptanceStall)| == 16 && |NameOf(BudgetBurn)| == 11;
    assert NameOf(ExactRepetition)[0] == 'e' && NameOf(AcceptanceStall)[0] == 'a';
  }

  ghost predicate AllDetect(s: Trace, p: RunPolicy)
    requires WithinContract(p)
  {
    forall k | 0 <= k < |DETECTORS| :: DetectionOf(DETECTORS[k], s, p).Ok?
  }

  ghost predicate FindingsBy(s: Trace, p: RunPolicy, fs: seq<Finding>)
    requires WithinContract(p)
  {
    |fs| == |DETECTORS| && forall k | 0 <= k < |DETECTORS| :: DetectionOf(DETECTORS[k], s, p) == Ok(fs[k])
  }

  lemma {:induction false} FindsExactly(s: Trace, p: RunPolicy)
    requires WithinContract(p)
    ensures DetectorFindings(DETECTORS, s, p).Ok? <==> AllDetect(s, p)
    ensures AllDetect(s, p) ==> FindingsBy(s, p, DetectorFindings(DETECTORS, s, p).value)
  {
    var rs := Detections(DETECTORS, s, p, |DETECTORS|);
    forall k: nat | k < |DETECTORS|
      ensures rs[k] == DetectionOf(DETECTORS[k], s, p)
    {
      DetectionAt(DETECTORS, s, p, |DETECTORS|, k);
    }
    if AllDetect(s, p) {
      AllOkIfEach(rs, |DETECTORS|);
    }
    if AllOk(rs, |DETECTORS|).Ok? {
      AllOkMeaning(rs, |DETECTORS|);
    }
  }

  lemma {:induction false} FindingsAreAccepted(s: Trace, p: RunPolicy, fs: seq<Finding>)
    requires WithinContract(p) && ValidTrace(s) && FindingsBy(s, p, fs)
    ensures s != [] && FindingsError(fs, s[0].runId).None?
  {
    forall k | 0 <= k < |DETECTORS|
      ensures s != [] && MadeBy(DETECTORS[k], s, fs[k])
    {
      DetectionIsMadeBy(DETECTORS[k], s, p);
    }
    forall i, j | 0 <= i < j < |fs|
      ensures fs[i].id != fs[j].id
    {
      NamesDiffer(i, j);
    }
    forall f | f in fs
      ensures ValidFinding(f) && f.runId == s[0].runId
    {
      var k :| 0 <= k < |fs| && fs[k] == f;
    }
  }

  /** Without hard stops and without an injected finding, the detectors' findings are all
      there is. */
  lemma {:induction false} CollectsDetections(s: Trace, p: RunPolicy, answer: SemanticAnswer)
    requires WithinContract(p) && ValidTrace(s) && s != [] && Deterministic(p, answer, s[0].runId)
    requires HardBudgetOf(s, p.wholeRun).None? && HardRiskOf(s, p.repeatsNonIdempotent).None?
    ensures CollectedOf(s, p, answer).Ok? <==> AllDetect(s, p)
    ensures CollectedOf(s, p, answer).Ok? ==> FindingsBy(s, p, CollectedOf(s, p, answer).value.findings)
  {
    FindsExactly(s, p);
    if AllDetect(s, p) {
      var found := DetectorFindings(DETECTORS, s, p).value;
      FindingsAreAccepted(s, p, found);
      assert found + [] + [] + [] == found;
    }
  }

  // ---------------------------------------------------------- the whole analysis

  lemma {:induction false} FewCollected(s: Trace, p: RunPolicy, answer: SemanticAnswer)
    requires s != [] && WithinContract(p) && CollectedOf(s, p, answer).Ok?
    ensures |CollectedOf(s, p, answer).value.findings| <= 9
    ensures FindingsError(CollectedOf(s, p, answer).value.findings, s[0].runId).None?
  {
    FindsExactly(s, p);
  }

  /** Exactly when what was collected becomes a decision: the run id is safe, and so is
      every event id that is named by a matched finding or belongs to an event with a
      marker or a rejected hypothesis; and nothing is too much. Otherwise the assembly
      is invalid. */
  lemma {:induction false} AnalysisSucceedsExactly(s: Trace, p: RunPolicy, answer: SemanticAnswer)
    requires InputProblem(s, p).None? && CollectedOf(s, p, answer).Ok?
    ensures var fs := CollectedOf(s, p, answer).value.findings;
      Succeeds(s, p, answer) <==>
        && SafeIdentifier(s[0].runId) && SafelyNamed(s, fs)
        && !Diagnosis.TooMuch(Diagnosis.Readings(s, fs))
        && |Decisions.EvidenceOf(DiagnosisOf(s, fs), fs)| <= 1000
    ensures !Succeeds(s, p, answer) ==> AnalysisOf(s, p, answer) == Err(Assembly(InvalidControllerAssembly))
  {
    var c := CollectedOf(s, p, answer).value;
    FewCollected(s, p, answer);
    FewSucceedExactly(s, c.findings, p, c.notices, c.semanticIds);
  }

  lemma {:induction false} FewSucceedExactly(s: Trace, fs: seq<Finding>, p: RunPolicy, notices: seq<Notice>,
        ids: set<FindingId>)
    requires s != [] && ValidPolicy(p) && |fs| <= 9 && FindingsError(fs, s[0].runId).None?
    ensures EnvelopeOf(s, fs, p, notices, ids).Ok? <==>
      && SafeIdentifier(s[0].runId) && SafelyNamed(s, fs)
      && !Diagnosis.TooMuch(Diagnosis.Readings(s, fs))
      && |Decisions.EvidenceOf(DiagnosisOf(s, fs), fs)| <= 1000
    ensures EnvelopeOf(s, fs, p, notices, ids).Err? ==>
      EnvelopeOf(s, fs, p, notices, ids) == Err(InvalidControllerAssembly)
  {
    ContributionsAreFractions(fs, p, ids, |fs|);
    SucceedsExactly(s, fs, p, notices, ids);
  }

  /** The names in terms of the trace alone: when every matched finding quotes the trace. */
  lemma {:induction false} NamesAreOfTheTrace(s: Trace, fs: seq<Finding>)
    requires forall f | f in fs && f.matched :: Quotes(f.eventIds, s)
    ensures SafelyNamed(s, fs) <==>
      forall e | e in s && (Speaks(e) || Quoted(e, fs)) :: SafeIdentifier(e.eventId)
  {
    if forall e | e in s && (Speaks(e) || Quoted(e, fs)) :: SafeIdentifier(e.eventId) {
      forall f, id | f in fs && f.matched && id in f.eventIds
        ensures SafeIdentifier(id)
      {
        var e :| e in s && e.eventId == id;
        assert Quoted(e, fs);
      }
    }
  }

  ghost predicate Quoted(e: TraceEvent, fs: seq<Finding>) {
    exists f :: f in fs && f.matched && e.eventId in f.eventIds
  }

  // ------------------------------------------------------------ unremarkable runs

  const NOTHING_READ := Diagnosis.Reading(None, [], [])

  lemma {:induction false} NothingRead(xs: seq<Diagnosis.Reading>)
    requires forall x | x in xs :: x == NOTHING_READ
    ensures Diagnosis.AllSupport(xs) == [] && Diagnosis.AllRejected(xs) == []
  {
    if xs != [] {
      var front := xs[..|xs| - 1];
      assert forall x | x in front :: x in xs;
      NothingRead(front);
      assert xs[|xs| - 1] in xs;
    }
  }

  /** No event has a marker or rejects a hypothesis, and no finding is a hard one. */
  ghost predicate Unremarkable(s: Trace, fs: seq<Finding>) {
    && (forall e | e in s :: !Speaks(e))
    && (forall f | f in fs && f.matched :: f.findingClass in {RepetitionClass, NoProgressClass})
  }

  lemma {:induction false} UnremarkableReadings(s: Trace, fs: seq<Finding>)
    requires Unremarkable(s, fs)
    ensures forall x | x in Diagnosis.Readings(s, fs) :: x == NOTHING_READ
  {
    forall x | x in Diagnosis.Readings(s, fs)
      ensures x == NOTHING_READ
    {
      var e, f := Diagnosis.ReadFrom(s, fs, x);
    }
  }

  lemma {:induction false} UnremarkableDiagnosis(s: Trace, fs: seq<Finding>)
    requires s != [] && Unremarkable(s, fs)
    ensures !Diagnosis.TooMuch(Diagnosis.Readings(s, fs))
    ensures DiagnosisOf(s, fs).evidence == []
  {
    var xs := Diagnosis.Readings(s, fs);
    UnremarkableReadings(s, fs);
    NothingRead(xs);
    assert Dedup(Diagnosis.AllSupport(xs)) == [] && Dedup(Diagnosis.AllRejected(xs)) == [];
  }

  lemma {:induction false} SupportIsShort(fs: seq<Finding>, n: nat)
    requires n <= |fs| && forall f | f in fs && f.matched :: |f.eventIds| <= 100
    ensures |Decisions.MatchedSupport(fs, n)| <= 100 * n
  {
    if n > 0 {
      SupportIsShort(fs, n - 1);
      assert fs[n - 1] in fs;
    }
  }

  /** Short findings of an unremarkable run are never too much: only names can fail. */
  lemma {:induction false} UnremarkableSucceedsExactly(s: Trace, p: RunPolicy, answer: SemanticAnswer)
    requires InputProblem(s, p).None? && CollectedOf(s, p, answer).Ok?
    requires Unremarkable(s, CollectedOf(s, p, answer).value.findings)
    requires forall f | f in CollectedOf(s, p, answer).value.findings && f.matched :: |f.eventIds| <= 100
    ensures Succeeds(s, p, answer) <==>
      SafeIdentifier(s[0].runId) && SafelyNamed(s, CollectedOf(s, p, answer).value.findings)
    ensures !Succeeds(s, p, answer) ==> AnalysisOf(s, p, answer) == Err(Assembly(InvalidControllerAssembly))
  {
    var fs := CollectedOf(s, p, answer).value.findings;
    FewCollected(s, p, answer);
    UnremarkableDiagnosis(s, fs);
    SupportIsShort(fs, |fs|);
    DedupIsShorter(Decisions.Stream(DiagnosisOf(s, fs).evidence, fs, |fs|));
    AnalysisSucceedsExactly(s, p, answer);
  }
}

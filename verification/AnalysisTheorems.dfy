/** The guarantees of a whole analysis, over every trace, policy and injected answer. */
module AnalysisTheorems {
  import opened Prelude
  import opened TraceEvents
  import opened RunPolicies
  import opened DetectorOutcomes
  import opened Detectors
  import opened HardStops
  import opened Envelopes
  import opened EnvelopeTheorems
  import opened Controller
  import Decisions
  import Diagnosis

  ghost predicate Succeeds(s: Trace, p: RunPolicy, answer: SemanticAnswer) {
    AnalysisOf(s, p, answer).Ok?
  }

  ghost function DecisionOf(s: Trace, p: RunPolicy, answer: SemanticAnswer): Basis
    requires Succeeds(s, p, answer)
  {
    AnalysisOf(s, p, answer).value.basis
  }

  /** What a successful analysis passed through. */
  ghost predicate PassedThrough(s: Trace, p: RunPolicy, answer: SemanticAnswer, found: seq<Finding>,
        semantic: SemanticResult, c: Collected)
    requires s != [] && WithinContract(p)
  {
    var budget, risk := HardBudgetOf(s, p.wholeRun), HardRiskOf(s, p.repeatsNonIdempotent);
    && SemanticOf(p, answer, s[0].runId) == Ok(semantic)
    && DetectorFindings(DETECTORS, s, p) == Ok(found)
    && !Failed(budget) && !Failed(risk)
    && c == Combine(found, budget, risk, semantic)
    && FindingsError(c.findings, s[0].runId).None?
  }

  lemma {:induction false} Passage(s: Trace, p: RunPolicy, answer: SemanticAnswer)
    returns (found: seq<Finding>, semantic: SemanticResult, c: Collected)
    requires Succeeds(s, p, answer)
    ensures s != [] && ValidTrace(s) && ValidPolicy(p)
    ensures PassedThrough(s, p, answer, found, semantic, c)
    ensures EnvelopeOf(s, c.findings, p, c.notices, c.semanticIds) == Ok(AnalysisOf(s, p, answer).value)
  {
    found := DetectorFindings(DETECTORS, s, p).value;
    semantic := SemanticOf(p, answer, s[0].runId).value;
    c := CollectedOf(s, p, answer).value;
  }

  // ------------------------------------------------------------------ hard stops

  ghost predicate HardStopped(s: Trace, limit: BudgetCounters, mayRepeat: bool) {
    || (HardBudgetOf(s, limit).Some? && HardBudgetOf(s, limit).value.Ok?)
    || (HardRiskOf(s, mayRepeat).Some? && HardRiskOf(s, mayRepeat).value.Ok?)
  }

  lemma {:induction false} BudgetFindingIsHard(s: Trace, limit: BudgetCounters)
    requires HardBudgetOf(s, limit).Some? && HardBudgetOf(s, limit).value.Ok?
    ensures var f := HardBudgetOf(s, limit).value.value;
      f.matched && f.findingClass == BudgetClass && f.score == 1.0 && f.reason == BudgetLimitReached &&
        Quotes(f.eventIds, s)
  {
    BudgetMeaning(s, limit);
  }

  lemma {:induction false} RiskFindingIsHard(s: Trace, mayRepeat: bool)
    requires HardRiskOf(s, mayRepeat).Some? && HardRiskOf(s, mayRepeat).value.Ok?
    ensures var f := HardRiskOf(s, mayRepeat).value.value;
      f.matched && f.findingClass == RiskClass && f.score == 1.0 && f.reason == RiskDetected && Quotes(f.eventIds, s)
  {
    RiskMeaning(s, mayRepeat);
  }

  /** A hard stop decides every successful analysis: stop, with full confidence. */
  lemma {:induction false} HardStopDecides(s: Trace, p: RunPolicy, answer: SemanticAnswer)
    requires Succeeds(s, p, answer) && HardStopped(s, p.wholeRun, p.repeatsNonIdempotent)
    ensures DecisionOf(s, p, answer).decision.Stop? && DecisionOf(s, p, answer).confidence == 1.0
  {
    var found, semantic, c := Passage(s, p, answer);
    var budget, risk := HardBudgetOf(s, p.wholeRun), HardRiskOf(s, p.repeatsNonIdempotent);
    if Stopped(budget) != [] {
      BudgetFindingIsHard(s, p.wholeRun);
      HardFindingDecides(s, c.findings, p, c.notices, c.semanticIds, budget.value.value);
    } else {
      RiskFindingIsHard(s, p.repeatsNonIdempotent);
      HardFindingDecides(s, c.findings, p, c.notices, c.semanticIds, risk.value.value);
    }
  }

  /** A hard-stopped run stays stopped. However it goes on, and under any other ladder,
      window, weight, threshold or injected detector, every later analysis that succeeds
      stops on the same finding. */
  lemma {:induction false} HardStopPersists(s: Trace, t: Trace, p: RunPolicy, q: RunPolicy, answer: SemanticAnswer)
    requires HardStopped(s, p.wholeRun, p.repeatsNonIdempotent)
    requires q.wholeRun == p.wholeRun && q.repeatsNonIdempotent == p.repeatsNonIdempotent
    requires Succeeds(s + t, q, answer)
    ensures DecisionOf(s + t, q, answer).decision.Stop? && DecisionOf(s + t, q, answer).confidence == 1.0
    ensures HardBudgetOf(s, p.wholeRun).Some? ==> HardBudgetOf(s + t, q.wholeRun) == HardBudgetOf(s, p.wholeRun)
    ensures HardRiskOf(s, p.repeatsNonIdempotent).Some? ==>
      HardRiskOf(s + t, q.repeatsNonIdempotent) == HardRiskOf(s, p.repeatsNonIdempotent)
  {
    if HardBudgetOf(s, p.wholeRun).Some? {
      HardBudgetStays(s, t, p.wholeRun);
    }
    if HardRiskOf(s, p.repeatsNonIdempotent).Some? {
      HardRiskStays(s, t, p.repeatsNonIdempotent);
    }
    HardStopDecides(s + t, q, answer);
  }

  // ----------------------------------------------------------- where findings come from

  /** The injected detector contributed nothing. */
  predicate Deterministic(p: RunPolicy, answer: SemanticAnswer, runId: string) {
    var semantic := SemanticOf(p, answer, runId);
    semantic.Ok? && semantic.value.finding.None?
  }

  lemma {:induction false} FoundBy(s: Trace, p: RunPolicy, found: seq<Finding>, f: Finding) returns (d: Detector)
    requires WithinContract(p) && DetectorFindings(DETECTORS, s, p) == Ok(found) && f in found
    ensures d in DETECTORS && DetectionOf(d, s, p) == Ok(f)
  {
    var rs := Detections(DETECTORS, s, p, |DETECTORS|);
    AllOkMeaning(rs, |DETECTORS|);
    var k :| 0 <= k < |found| && found[k] == f;
    DetectionAt(DETECTORS, s, p, |DETECTORS|, k);
    d := DETECTORS[k];
  }

  lemma {:induction false} FindsAll(s: Trace, p: RunPolicy, found: seq<Finding>, k: nat)
    requires WithinContract(p) && DetectorFindings(DETECTORS, s, p) == Ok(found) && k < |DETECTORS|
    ensures |found| == |DETECTORS| && DetectionOf(DETECTORS[k], s, p) == Ok(found[k])
  {
    var rs := Detections(DETECTORS, s, p, |DETECTORS|);
    AllOkMeaning(rs, |DETECTORS|);
    DetectionAt(DETECTORS, s, p, |DETECTORS|, k);
  }

  /** A detector matched on its window. */
  ghost predicate MatchedBy(d: Detector, s: Trace, p: RunPolicy) {
    var outcome := OutcomeOf(d, WindowOf(s, WindowSize(d, p)));
    outcome.Some? && outcome.value.Match?
  }

  /** Without an injected finding, repetition and no-progress findings are detectors'. */
  lemma {:induction false} SignalIsDetected(s: Trace, p: RunPolicy, answer: SemanticAnswer, found: seq<Finding>,
        semantic: SemanticResult, c: Collected, f: Finding)
    returns (d: Detector)
    requires s != [] && ValidTrace(s) && WithinContract(p) && PassedThrough(s, p, answer, found, semantic, c)
    requires semantic.finding.None? && f in c.findings && f.matched &&
      f.findingClass in {RepetitionClass, NoProgressClass}
    ensures d in DETECTORS && ClassOf(d) == f.findingClass && MatchedBy(d, s, p) && DetectionOf(d, s, p) == Ok(f)
  {
    var budget, risk := HardBudgetOf(s, p.wholeRun), HardRiskOf(s, p.repeatsNonIdempotent);
    if f in Stopped(budget) {
      BudgetFindingIsHard(s, p.wholeRun);
    }
    if f in Stopped(risk) {
      RiskFindingIsHard(s, p.repeatsNonIdempotent);
    }
    assert f in found;
    d := FoundBy(s, p, found, f);
    DetectionMeaning(d, s, p);
  }

  ghost predicate IsStalledSpan(w: Trace, from: nat, to: nat) {
    from < to < |w| && !ShowsProgress(w[from..to + 1])
  }

  lemma {:induction false} StalledSpan(d: Detector, s: Trace, p: RunPolicy) returns (from: nat, to: nat)
    requires ClassOf(d) == NoProgressClass && MatchedBy(d, s, p)
    ensures IsStalledSpan(WindowOf(s, WindowSize(d, p)), from, to)
  {
    var w := WindowOf(s, WindowSize(d, p));
    NoProgressMatch(d, w);
    var support := OutcomeOf(d, w).value.support;
    from, to := support[0], support[|support| - 1];
  }

  lemma {:induction false} LadderDetectors(s: Trace, p: RunPolicy, answer: SemanticAnswer)
    returns (repetition: Detector, noProgress: Detector)
    requires Succeeds(s, p, answer) && s != [] && Deterministic(p, answer, s[0].runId)
    requires IsRung(DecisionOf(s, p, answer).decision)
    ensures ClassOf(repetition) == RepetitionClass && MatchedBy(repetition, s, p)
    ensures ClassOf(noProgress) == NoProgressClass && MatchedBy(noProgress, s, p)
  {
    var found, semantic, c := Passage(s, p, answer);
    var f, g := RungsRestOnBothSignals(s, c.findings, p, c.notices, c.semanticIds);
    repetition := SignalIsDetected(s, p, answer, found, semantic, c, f);
    noProgress := SignalIsDetected(s, p, answer, found, semantic, c, g);
  }

  /** Every ladder intervention is justified: a repetition detector matched, and a
      no-progress detector matched on a span in which the classifier finds no progress. */
  lemma {:induction false} LadderIsJustified(s: Trace, p: RunPolicy, answer: SemanticAnswer)
    returns (repetition: Detector, noProgress: Detector, from: nat, to: nat)
    requires Succeeds(s, p, answer) && s != [] && Deterministic(p, answer, s[0].runId)
    requires IsRung(DecisionOf(s, p, answer).decision)
    ensures ClassOf(repetition) == RepetitionClass && MatchedBy(repetition, s, p)
    ensures ClassOf(noProgress) == NoProgressClass && MatchedBy(noProgress, s, p)
    ensures IsStalledSpan(WindowOf(s, WindowSize(noProgress, p)), from, to)
  {
    repetition, noProgress := LadderDetectors(s, p, answer);
    from, to := StalledSpan(noProgress, s, p);
  }

  // ------------------------------------------------------------------- stopping

  /** One of the deterministic findings. */
  lemma {:induction false} Origins(s: Trace, p: RunPolicy, answer: SemanticAnswer, found: seq<Finding>,
        semantic: SemanticResult,
        c: Collected, f: Finding)
    requires s != [] && ValidTrace(s) && WithinContract(p) && PassedThrough(s, p, answer, found, semantic, c)
    requires semantic.finding.None? && f in c.findings && f.matched
    ensures f.score == 1.0 && f.reason == ReasonOf(f.findingClass) && Quotes(f.eventIds, s)
    ensures f.findingClass.RiskClass? ==> HardRiskOf(s, p.repeatsNonIdempotent).Some?
    ensures f.findingClass.BudgetClass? ==> HardBudgetOf(s, p.wholeRun).Some? || MatchedBy(BudgetBurn, s, p)
  {
    var budget, risk := HardBudgetOf(s, p.wholeRun), HardRiskOf(s, p.repeatsNonIdempotent);
    if f in Stopped(budget) {
      BudgetFindingIsHard(s, p.wholeRun);
    } else if f in Stopped(risk) {
      RiskFindingIsHard(s, p.repeatsNonIdempotent);
    } else {
      var d := FoundBy(s, p, found, f);
      DetectedOrigin(d, s, p, f);
    }
  }

  lemma {:induction false} DetectedOrigin(d: Detector, s: Trace, p: RunPolicy, f: Finding)
    requires WithinContract(p) && ValidTrace(s) && DetectionOf(d, s, p) == Ok(f) && f.matched
    ensures f.score == 1.0 && f.reason == ReasonOf(f.findingClass) && Quotes(f.eventIds, s)
    ensures !f.findingClass.RiskClass? && (f.findingClass.BudgetClass? ==> MatchedBy(BudgetBurn, s, p))
  {
    DetectionMeaning(d, s, p);
    DetectionQuotesTrace(d, s, p);
  }

  lemma {:induction false} EvidenceIsOfItsClass(fs: seq<Finding>, k: FindingClass) returns (f: Finding)
    requires Decisions.Evidence(fs, k) && forall g | g in fs && g.matched :: g.reason == ReasonOf(g.findingClass)
    ensures f in fs && f.matched && f.findingClass == k
  {
    f :| f in fs && f.matched && (f.findingClass == k || f.reason == ReasonOf(k));
  }

  lemma {:induction false} HardEvidence(s: Trace, p: RunPolicy, answer: SemanticAnswer, found: seq<Finding>,
        semantic: SemanticResult, c: Collected)
    requires s != [] && ValidTrace(s) && WithinContract(p) && PassedThrough(s, p, answer, found, semantic, c)
    requires semantic.finding.None?
    ensures Decisions.Evidence(c.findings, RiskClass) ==> HardRiskOf(s, p.repeatsNonIdempotent).Some?
    ensures Decisions.Evidence(c.findings, BudgetClass) ==>
      HardBudgetOf(s, p.wholeRun).Some? || MatchedBy(BudgetBurn, s, p)
  {
    forall f | f in c.findings && f.matched
      ensures f.reason == ReasonOf(f.findingClass)
      ensures f.findingClass.RiskClass? ==> HardRiskOf(s, p.repeatsNonIdempotent).Some?
      ensures f.findingClass.BudgetClass? ==> HardBudgetOf(s, p.wholeRun).Some? || MatchedBy(BudgetBurn, s, p)
    {
      Origins(s, p, answer, found, semantic, c, f);
    }
    if Decisions.Evidence(c.findings, RiskClass) {
      var f := EvidenceIsOfItsClass(c.findings, RiskClass);
    }
    if Decisions.Evidence(c.findings, BudgetClass) {
      var f := EvidenceIsOfItsClass(c.findings, BudgetClass);
    }
  }

  lemma {:induction false} HardSourcesAreEvidence(s: Trace, p: RunPolicy, answer: SemanticAnswer, found: seq<Finding>,
        semantic: SemanticResult, c: Collected)
    requires s != [] && ValidTrace(s) && WithinContract(p) && PassedThrough(s, p, answer, found, semantic, c)
    ensures HardRiskOf(s, p.repeatsNonIdempotent).Some? ==> Decisions.Evidence(c.findings, RiskClass)
    ensures HardBudgetOf(s, p.wholeRun).Some? || MatchedBy(BudgetBurn, s, p) ==>
      Decisions.Evidence(c.findings, BudgetClass)
  {
    var budget, risk := HardBudgetOf(s, p.wholeRun), HardRiskOf(s, p.repeatsNonIdempotent);
    if risk.Some? {
      RiskFindingIsHard(s, p.repeatsNonIdempotent);
      assert risk.value.value in c.findings;
    }
    if budget.Some? {
      BudgetFindingIsHard(s, p.wholeRun);
      assert budget.value.value in c.findings;
    }
    if MatchedBy(BudgetBurn, s, p) {
      FindsAll(s, p, found, 5);
      DetectionMeaning(BudgetBurn, s, p);
      assert found[5] in c.findings;
    }
  }

  /** What stops a run, event by event: a whole-run limit was reached, a call alarms, the
      budget burns without progress, or a hard cause is marked. */
  ghost predicate HardInTrace(s: Trace, p: RunPolicy) {
    || (exists j :: 0 <= j < |s| && Reaches(s[j], p.wholeRun))
    || (exists j :: 0 <= j < |s| && Alarming(s, p.repeatsNonIdempotent, j))
    || MatchedBy(BudgetBurn, s, p)
    || Marked(s, Diagnosis.UnsafeSideEffect) || Marked(s, Diagnosis.ExhaustedBudget)
  }

  lemma {:induction false} HardFindings(s: Trace, p: RunPolicy, answer: SemanticAnswer, found: seq<Finding>,
        semantic: SemanticResult, c: Collected)
    requires s != [] && ValidTrace(s) && WithinContract(p) && PassedThrough(s, p, answer, found, semantic, c)
    requires semantic.finding.None?
    ensures Hard(s, c.findings) <==> HardInTrace(s, p)
  {
    HardEvidence(s, p, answer, found, semantic, c);
    HardSourcesAreEvidence(s, p, answer, found, semantic, c);
    BudgetMeaning(s, p.wholeRun);
    RiskMeaning(s, p.repeatsNonIdempotent);
  }

  /** Exactly when a run is stopped. */
  lemma {:induction false} StopsExactly(s: Trace, p: RunPolicy, answer: SemanticAnswer)
    requires Succeeds(s, p, answer) && s != [] && Deterministic(p, answer, s[0].runId)
    ensures DecisionOf(s, p, answer).decision.Stop? <==> HardInTrace(s, p)
  {
    var found, semantic, c := Passage(s, p, answer);
    HardFindings(s, p, answer, found, semantic, c);
    StopsOnHardEvidence(s, c.findings, p, c.notices, c.semanticIds);
  }

  // ----------------------------------------------------------------- not stopping

  /** Some detector of the class matched. */
  ghost predicate Signalled(k: FindingClass, s: Trace, p: RunPolicy) {
    exists d: Detector :: ClassOf(d) == k && MatchedBy(d, s, p)
  }

  lemma {:induction false} MatchIsFound(s: Trace, p: RunPolicy, found: seq<Finding>, d: Detector)
    requires s != [] && ValidTrace(s) && WithinContract(p) && DetectorFindings(DETECTORS, s, p) == Ok(found)
    requires MatchedBy(d, s, p)
    ensures exists f :: f in found && f.matched && f.findingClass == ClassOf(d)
  {
    var k := PositionOf(d);
    FindsAll(s, p, found, k);
    DetectionMeaning(d, s, p);
    assert found[k] in found;
  }

  function PositionOf(d: Detector): (k: nat)
    ensures k < |DETECTORS| && DETECTORS[k] == d
  {
    match d
    case ExactRepetition => 0
    case Cycle => 1
    case RepeatedError => 2
    case UnchangedState => 3
    case AcceptanceStall => 4
    case BudgetBurn => 5
  }

  lemma {:induction false} SignalExactly(s: Trace, p: RunPolicy, answer: SemanticAnswer, found: seq<Finding>,
        semantic: SemanticResult, c: Collected, k: FindingClass)
    requires s != [] && ValidTrace(s) && WithinContract(p) && PassedThrough(s, p, answer, found, semantic, c)
    requires semantic.finding.None? && k in {RepetitionClass, NoProgressClass}
    ensures Decisions.Observed(c.findings, k) <==> Signalled(k, s, p)
  {
    if Decisions.Observed(c.findings, k) {
      var f :| f in c.findings && f.matched && f.findingClass == k;
      var d := SignalIsDetected(s, p, answer, found, semantic, c, f);
    }
    if d: Detector :| ClassOf(d) == k && MatchedBy(d, s, p) {
      MatchIsFound(s, p, found, d);
      var f :| f in found && f.matched && f.findingClass == k;
      assert f in c.findings;
    }
  }

  ghost predicate BothSignalled(s: Trace, p: RunPolicy) {
    Signalled(RepetitionClass, s, p) && Signalled(NoProgressClass, s, p)
  }

  /** And exactly what else is decided: the least permitted rung when both signals are
      detected and no authority is missing, escalation when some is missing or no rung is
      permitted, and to continue otherwise. */
  lemma {:induction false} DecidesExactly(s: Trace, p: RunPolicy, answer: SemanticAnswer, k: nat)
    requires Succeeds(s, p, answer) && s != [] && Deterministic(p, answer, s[0].runId) && k < |Decisions.RUNGS|
    ensures var decision := DecisionOf(s, p, answer).decision;
      && (decision == Decisions.RUNGS[k] <==>
          && !HardInTrace(s, p) && !Marked(s, Diagnosis.MissingAuthority) && BothSignalled(s, p)
          && Decisions.Permitted(Decisions.RUNGS[k], p)
          && forall i | 0 <= i < k :: !Decisions.Permitted(Decisions.RUNGS[i], p))
      && (decision.Continue? <==> !HardInTrace(s, p) && !Marked(s, Diagnosis.MissingAuthority) && !BothSignalled(s, p))
      && (decision.Escalate? <==>
          !HardInTrace(s, p) && (Marked(s, Diagnosis.MissingAuthority) || (BothSignalled(s, p) && NoRung(p))))
  {
    var found, semantic, c := Passage(s, p, answer);
    HardFindings(s, p, answer, found, semantic, c);
    SignalExactly(s, p, answer, found, semantic, c, RepetitionClass);
    SignalExactly(s, p, answer, found, semantic, c, NoProgressClass);
    EnvelopeTheorems.DecidesExactly(s, c.findings, p, c.notices, c.semanticIds, k);
  }

  // ---------------------------------------------------------- the injected finding

  lemma {:induction false} DetectionsDependOn(ds: seq<Detector>, s: Trace, p: RunPolicy, q: RunPolicy, n: nat)
    requires n <= |ds| && WithinContract(p) && WithinContract(q) && SameDetection(p, q)
    ensures Detections(ds, s, p, n) == Detections(ds, s, q, n)
  {
    if n > 0 {
      DetectionsDependOn(ds, s, p, q, n - 1);
      DetectionDependsOn(ds[n - 1], s, p, q);
    }
  }

  /** The policy without its semantic detector. */
  function WithoutSemantic(p: RunPolicy): RunPolicy {
    p.(semantic := None)
  }

  lemma {:induction false} FewerErrors(fs: seq<Finding>, more: seq<Finding>, runId: string)
    requires FindingsError(fs + more, runId).None?
    ensures FindingsError(fs, runId).None?
  {
    forall f | f in fs
      ensures f in fs + more
    {
    }
    forall i, j | 0 <= i < j < |fs|
      ensures fs[i].id != fs[j].id
    {
      assert (fs + more)[i] == fs[i] && (fs + more)[j] == fs[j];
    }
  }

  /** The deterministic findings and the hard stops. */
  ghost function Core(s: Trace, p: RunPolicy, found: seq<Finding>): seq<Finding> {
    found + Stopped(HardBudgetOf(s, p.wholeRun)) + Stopped(HardRiskOf(s, p.repeatsNonIdempotent))
  }

  lemma {:induction false} CoreIsAccepted(s: Trace, p: RunPolicy, answer: SemanticAnswer, found: seq<Finding>,
        semantic: SemanticResult, c: Collected)
    requires s != [] && WithinContract(p) && PassedThrough(s, p, answer, found, semantic, c)
    ensures c.findings == Core(s, p, found) + Listed(semantic.finding)
    ensures |Core(s, p, found)| <= MAX_CONTRIBUTIONS
    ensures FindingsError(found, s[0].runId).None? && FindingsError(Core(s, p, found), s[0].runId).None?
  {
    var core := Core(s, p, found);
    FindsAll(s, p, found, 0);
    FewerErrors(core, Listed(semantic.finding), s[0].runId);
    var hard := Stopped(HardBudgetOf(s, p.wholeRun)) + Stopped(HardRiskOf(s, p.repeatsNonIdempotent));
    assert core == found + hard;
    FewerErrors(found, hard, s[0].runId);
  }

  lemma {:induction false} FoundWithout(s: Trace, p: RunPolicy, found: seq<Finding>)
    requires s != [] && WithinContract(p) && DetectorFindings(DETECTORS, s, p) == Ok(found)
    requires FindingsError(found, s[0].runId).None?
    ensures CollectedOf(s, WithoutSemantic(p), Absent) ==
      WithHardStops(s, WithoutSemantic(p), found, SemanticResult(None, []))
  {
    DetectionsDependOn(DETECTORS, s, p, WithoutSemantic(p), |DETECTORS|);
  }

  lemma {:induction false} HardStopsWithout(s: Trace, p: RunPolicy, found: seq<Finding>)
    requires s != [] && FindingsError(Core(s, p, found), s[0].runId).None?
    requires !Failed(HardBudgetOf(s, p.wholeRun)) && !Failed(HardRiskOf(s, p.repeatsNonIdempotent))
    ensures WithHardStops(s, WithoutSemantic(p), found, SemanticResult(None, [])) ==
      Ok(Collected(Core(s, p, found), [], {}))
  {
    assert Core(s, p, found) + [] == Core(s, p, found);
  }

  lemma {:induction false} AnalysisFrom(s: Trace, p: RunPolicy, answer: SemanticAnswer, c: Collected)
    requires InputProblem(s, p).None? && CollectedOf(s, p, answer) == Ok(c)
    requires EnvelopeOf(s, c.findings, p, c.notices, c.semanticIds).Ok?
    ensures AnalysisOf(s, p, answer) == Ok(EnvelopeOf(s, c.findings, p, c.notices, c.semanticIds).value)
  {
  }

  lemma {:induction false} InputsWithout(s: Trace, p: RunPolicy, answer: SemanticAnswer)
    requires Succeeds(s, p, answer)
    ensures InputProblem(s, WithoutSemantic(p)).None? && ValidPolicy(WithoutSemantic(p))
  {
  }

  /** What the core alone decides, compared with the core and a soft finding. */
  lemma {:induction false} CoreDecides(s: Trace, p: RunPolicy, core: seq<Finding>, semantic: Option<Finding>,
        notices: seq<Notice>, ids: set<FindingId>)
    requires s != [] && |core| <= MAX_CONTRIBUTIONS && ValidPolicy(WithoutSemantic(p))
    requires EnvelopeOf(s, core + Listed(semantic), p, notices, ids).Ok? && (semantic.Some? ==> IsSoft(semantic.value))
    ensures EnvelopeOf(s, core, WithoutSemantic(p), [], {}).Ok?
    ensures NotRelaxed(EnvelopeOf(s, core, WithoutSemantic(p), [], {}).value.basis.decision,
                       EnvelopeOf(s, core + Listed(semantic), p, notices, ids).value.basis.decision)
  {
    if semantic.Some? {
      SoftFindingNeverRelaxes(s, core, semantic.value, p, WithoutSemantic(p), notices, ids);
    } else {
      assert core + [] == core;
      FindingsDecide(s, core, p, WithoutSemantic(p), notices, ids);
    }
  }

  lemma {:induction false} SoftAnswer(p: RunPolicy, answer: SemanticAnswer, runId: string)
    requires SemanticOf(p, answer, runId).Ok? && SemanticOf(p, answer, runId).value.finding.Some?
    ensures IsSoft(SemanticOf(p, answer, runId).value.finding.value)
  {
    var f := answer.finding;
    assert f.findingClass.RepetitionClass? || f.findingClass.NoProgressClass?;
  }

  lemma {:induction false} CollectedWithout(s: Trace, p: RunPolicy, answer: SemanticAnswer, found: seq<Finding>,
        semantic: SemanticResult, c: Collected)
    requires s != [] && WithinContract(p) && PassedThrough(s, p, answer, found, semantic, c)
    ensures CollectedOf(s, WithoutSemantic(p), Absent) == Ok(Collected(Core(s, p, found), [], {}))
  {
    CoreIsAccepted(s, p, answer, found, semantic, c);
    FoundWithout(s, p, found);
    HardStopsWithout(s, p, found);
  }

  /** The semantic detector never relaxes a decision. Whatever it answers, the analysis
      without it succeeds too, and its decision is kept, or raised to a stop, or was
      mere monitoring. */
  lemma {:induction false} SemanticNeverRelaxes(s: Trace, p: RunPolicy, answer: SemanticAnswer)
    requires Succeeds(s, p, answer)
    ensures Succeeds(s, WithoutSemantic(p), Absent)
    ensures NotRelaxed(DecisionOf(s, WithoutSemantic(p), Absent).decision, DecisionOf(s, p, answer).decision)
  {
    var found, semantic, c := Passage(s, p, answer);
    CoreIsAccepted(s, p, answer, found, semantic, c);
    CollectedWithout(s, p, answer, found, semantic, c);
    if semantic.finding.Some? {
      SoftAnswer(p, answer, s[0].runId);
    }
    InputsWithout(s, p, answer);
    CoreDecides(s, p, Core(s, p, found), semantic.finding, c.notices, c.semanticIds);
    AnalysisFrom(s, WithoutSemantic(p), Absent, Collected(Core(s, p, found), [], {}));
  }

  // -------------------------------------------------------- confidence and recovery

  /** Without an injected finding, the confidence in an intervention is the smaller of
      the two class weights. */
  lemma {:induction false} LadderConfidence(s: Trace, p: RunPolicy, answer: SemanticAnswer)
    requires Succeeds(s, p, answer) && s != [] && Deterministic(p, answer, s[0].runId)
    requires IsRung(DecisionOf(s, p, answer).decision)
    ensures DecisionOf(s, p, answer).confidence == Least(p.weights.repetition, p.weights.noProgress)
  {
    var found, semantic, c := Passage(s, p, answer);
    var f, g := RungsRestOnBothSignals(s, c.findings, p, c.notices, c.semanticIds);
    ScoresAreWeights(s, p, answer, found, semantic, c);
    assert ScoresItsWeight(c.findings, p, RepetitionClass) && ScoresItsWeight(c.findings, p, NoProgressClass);
    assert Decisions.Observed(c.findings, RepetitionClass) && Decisions.Observed(c.findings, NoProgressClass);
  }

  ghost predicate ScoresItsWeight(fs: seq<Finding>, p: RunPolicy, k: FindingClass) {
    Score(Contributions(fs, p, {}, |fs|), k) == if Decisions.Observed(fs, k) then p.weights.Of(k) else 0.0
  }

  lemma {:induction false} ScoresAreWeights(s: Trace, p: RunPolicy, answer: SemanticAnswer, found: seq<Finding>,
        semantic: SemanticResult, c: Collected)
    requires s != [] && ValidTrace(s) && WithinContract(p) && PassedThrough(s, p, answer, found, semantic, c)
    requires semantic.finding.None?
    ensures c.semanticIds == {}
    ensures forall k: FindingClass :: ScoresItsWeight(c.findings, p, k)
  {
    forall f | f in c.findings && f.matched
      ensures f.score == 1.0
    {
      Origins(s, p, answer, found, semantic, c, f);
    }
    forall k: FindingClass {
      ScoreIsWeight(c.findings, p, k);
    }
  }

  /** When the two boundaries agree, for a host that checks before it calls: a reheat is
      accepted for recovery exactly when read-only actions may be repeated and neither
      signal has weight 0. */
  lemma {:induction false} ReheatIsAcceptedExactly(s: Trace, p: RunPolicy, answer: SemanticAnswer)
    requires Succeeds(s, p, answer) && s != [] && Deterministic(p, answer, s[0].runId)
    requires DecisionOf(s, p, answer).decision.Reheat?
    ensures Recoverable(AnalysisOf(s, p, answer).value) <==>
      ReadOnly in p.repeatableEffects && p.weights.repetition > 0.0 && p.weights.noProgress > 0.0
  {
    var found, semantic, c := Passage(s, p, answer);
    var f, g := RungsRestOnBothSignals(s, c.findings, p, c.notices, c.semanticIds);
    ScoresAreWeights(s, p, answer, found, semantic, c);
    assert ScoresItsWeight(c.findings, p, RepetitionClass) && ScoresItsWeight(c.findings, p, NoProgressClass);
    assert Decisions.Observed(c.findings, RepetitionClass) && Decisions.Observed(c.findings, NoProgressClass);
    ReheatIsRecoverableExactly(s, c.findings, p, c.notices, c.semanticIds);
  }

  /** With an injected finding: when each signal has a finding that carries weight. */
  lemma {:induction false} AnyReheatIsAcceptedExactly(s: Trace, p: RunPolicy, answer: SemanticAnswer)
    returns (fs: seq<Finding>, semanticIds: set<FindingId>)
    requires Succeeds(s, p, answer) && DecisionOf(s, p, answer).decision.Reheat?
    ensures CollectedOf(s, p, answer).Ok?
    ensures CollectedOf(s, p, answer).value.findings == fs && CollectedOf(s, p, answer).value.semanticIds == semanticIds
    ensures DecisionOf(s, p, answer).contributions == Contributions(fs, p, semanticIds, |fs|)
    ensures Recoverable(AnalysisOf(s, p, answer).value) <==>
      && ReadOnly in p.repeatableEffects
      && CarriesWeight(fs, p, semanticIds, RepetitionClass) && CarriesWeight(fs, p, semanticIds, NoProgressClass)
  {
    var found, semantic, c := Passage(s, p, answer);
    fs, semanticIds := c.findings, c.semanticIds;
    EnvelopeParts(s, fs, p, c.notices, semanticIds);
    ReheatIsRecoverableExactly(s, fs, p, c.notices, semanticIds);
    ScoreIsPositive(fs, p, semanticIds, RepetitionClass);
    ScoreIsPositive(fs, p, semanticIds, NoProgressClass);
  }

  // ------------------------------------------------------------------- evidence

  /** Every event a deterministic decision quotes is an event of the trace. */
  lemma {:induction false} EvidenceIsFromTheTrace(s: Trace, p: RunPolicy, answer: SemanticAnswer)
    requires Succeeds(s, p, answer) && s != [] && Deterministic(p, answer, s[0].runId)
    ensures Quotes(DecisionOf(s, p, answer).evidence, s)
  {
    var found, semantic, c := Passage(s, p, answer);
    forall f | f in c.findings && f.matched
      ensures Quotes(f.eventIds, s)
    {
      Origins(s, p, answer, found, semantic, c, f);
    }
    EvidenceIsQuoted(s, c.findings, p, c.notices, c.semanticIds);
  }

  lemma {:induction false} EvidenceIsQuoted(s: Trace, fs: seq<Finding>, p: RunPolicy, notices: seq<Notice>,
        semanticIds: set<FindingId>)
    requires s != [] && EnvelopeOf(s, fs, p, notices, semanticIds).Ok?
    requires forall f | f in fs && f.matched :: Quotes(f.eventIds, s)
    ensures Quotes(EnvelopeOf(s, fs, p, notices, semanticIds).value.basis.evidence, s)
  {
    var d := DiagnosisOf(s, fs);
    EnvelopeParts(s, fs, p, notices, semanticIds);
    QuotesEvidence(d, fs, p);
    Decisions.EvidenceMeaning(d, fs);
    DiagnosisQuotes(s, fs);
  }

  /** What a diagnosis supports itself with: marked or hypothesis-rejecting events, and
      the findings it takes causes from. */
  lemma {:induction false} DiagnosisQuotes(s: Trace, fs: seq<Finding>)
    requires s != [] && forall f | f in fs && f.matched :: Quotes(f.eventIds, s)
    ensures Quotes(DiagnosisOf(s, fs).evidence, s)
  {
    var xs := Diagnosis.Readings(s, fs);
    DedupMeaning(Diagnosis.AllSupport(xs));
    forall id | id in Diagnosis.AllSupport(xs)
      ensures exists e :: e in s && e.eventId == id
    {
      var x := Diagnosis.SupportedBy(xs, id);
      var e, f := Diagnosis.ReadFrom(s, fs, x);
    }
  }
}

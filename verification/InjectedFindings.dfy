/** What becomes of the answer of the injected detector: a finding that is collected,
    weighed and counted as a signal, a notice, or an error. */
module InjectedFindings {
  import opened Prelude
  import opened TraceEvents
  import opened RunPolicies
  import opened Detectors
  import opened HardStops
  import opened Envelopes
  import opened EnvelopeTheorems
  import opened Controller
  import opened AnalysisTheorems
  import opened AnalysisSuccess
  import Decisions
  import Diagnosis

  ghost predicate Enabled(p: RunPolicy) {
    p.semantic.Some? && p.semantic.value.enabled
  }

  /** A conforming finding of this run, in one of the two classes that cannot stop it. */
  ghost predicate Conforming(f: Finding, runId: string) {
    Wellformed(f) && f.runId == runId && (f.findingClass == RepetitionClass || f.findingClass == NoProgressClass)
  }

  /** A score from 0 to 1, and 1 to 1000 events, none of them twice, whose ids and run id
      match the identifier pattern of the schema. */
  ghost predicate Wellformed(f: Finding) {
    && 0.0 <= f.score <= 1.0 && 1 <= |f.eventIds| <= 1000
    && (forall i, j | 0 <= i < j < |f.eventIds| :: f.eventIds[i] != f.eventIds[j])
    && SchemaIdentifier(f.runId) && forall i | 0 <= i < |f.eventIds| :: SchemaIdentifier(f.eventIds[i])
  }

  lemma {:induction false} WellformedIs(f: Finding)
    ensures ValidFinding(f) <==> Wellformed(f)
  {
    assert forall i | 0 <= i < |f.eventIds| :: f.eventIds[i] in f.eventIds;
  }

  /** The collection without the injected detector. */
  ghost function Alone(s: Trace, p: RunPolicy): Result<Collected, AnalysisError>
    requires s != [] && WithinContract(p)
  {
    CollectedOf(s, WithoutSemantic(p), Absent)
  }

  // ------------------------------------------------------------------ collection

  lemma {:induction false} SameCore(s: Trace, p: RunPolicy)
    requires WithinContract(p)
    ensures DetectorFindings(DETECTORS, s, WithoutSemantic(p)) == DetectorFindings(DETECTORS, s, p)
  {
    DetectionsDependOn(DETECTORS, s, p, WithoutSemantic(p), |DETECTORS|);
  }

  ghost predicate HasId(fs: seq<Finding>, id: FindingId) {
    exists f :: f in fs && f.id == id
  }

  lemma {:induction false} OneMoreFinding(fs: seq<Finding>, f: Finding, runId: string)
    requires ValidFinding(f) && f.runId == runId && |fs| < MAX_ITEMS
    ensures FindingsError(fs, runId).Some? ==> FindingsError(fs + [f], runId) == FindingsError(fs, runId)
    ensures FindingsError(fs, runId).None? ==>
      FindingsError(fs + [f], runId) ==
        if HasId(fs, f.id) then Some(AnalysisError.DuplicateFindingId) else None
  {
    var all := fs + [f];
    assert forall g :: g in all <==> g in fs || g == f;
    assert forall i | 0 <= i < |fs| :: all[i] == fs[i];
    if Decisions.DistinctIds(fs) {
      if g :| g in fs && g.id == f.id {
        var i :| 0 <= i < |fs| && fs[i] == g;
        assert all[i].id == all[|fs|].id;
      }
    } else {
      var i, j :| 0 <= i < j < |fs| && fs[i].id == fs[j].id;
      assert all[i].id == all[j].id;
    }
  }

  lemma {:induction false} FewFound(s: Trace, p: RunPolicy, found: seq<Finding>)
    requires s != [] && WithinContract(p) && DetectorFindings(DETECTORS, s, p) == Ok(found)
    ensures |Core(s, p, found)| <= 8
  {
    FindsAll(s, p, found, 0);
  }

  lemma {:induction false} CollectedAlone(s: Trace, p: RunPolicy)
    requires s != [] && WithinContract(p) && Alone(s, p).Ok?
    ensures DetectorFindings(DETECTORS, s, p).Ok?
    ensures !Failed(HardBudgetOf(s, p.wholeRun)) && !Failed(HardRiskOf(s, p.repeatsNonIdempotent))
    ensures var core := Core(s, p, DetectorFindings(DETECTORS, s, p).value);
      Alone(s, p) == Ok(Collected(core, [], {})) && FindingsError(core, s[0].runId).None? && |core| <= 8
  {
    SameCore(s, p);
    var found := DetectorFindings(DETECTORS, s, p).value;
    FewFound(s, p, found);
    assert Core(s, p, found) + [] == Core(s, p, found);
  }

  lemma {:induction false} StopsWithNotices(s: Trace, p: RunPolicy, found: seq<Finding>, notices: seq<Notice>)
    requires s != []
    ensures var alone := WithHardStops(s, WithoutSemantic(p), found, SemanticResult(None, []));
      WithHardStops(s, p, found, SemanticResult(None, notices)) ==
        if alone.Ok? then Ok(Collected(alone.value.findings, notices, {})) else alone
  {
  }

  lemma {:induction false} StopsWithFinding(s: Trace, p: RunPolicy, found: seq<Finding>, f: Finding)
    requires s != [] && |found| <= 6 && ValidFinding(f) && f.runId == s[0].runId
    ensures var alone := WithHardStops(s, WithoutSemantic(p), found, SemanticResult(None, []));
      WithHardStops(s, p, found, SemanticResult(Some(f), [])) ==
        if alone.Err? then alone
        else if HasId(alone.value.findings, f.id) then Err(AnalysisError.DuplicateFindingId)
        else Ok(Collected(alone.value.findings + [f], [], {f.id}))
  {
    var core := Core(s, p, found);
    OneMoreFinding(core, f, s[0].runId);
    assert core + [] == core;
  }

  /** An answer that is used as nothing but notices. */
  lemma {:induction false} CollectedWithNotices(s: Trace, p: RunPolicy, answer: SemanticAnswer, notices: seq<Notice>)
    requires s != [] && WithinContract(p)
    requires SemanticOf(p, answer, s[0].runId) == Ok(SemanticResult(None, notices))
    ensures CollectedOf(s, p, answer) ==
      if Alone(s, p).Ok? then Ok(Collected(Alone(s, p).value.findings, notices, {})) else Alone(s, p)
  {
    SameCore(s, p);
    if DetectorFindings(DETECTORS, s, p).Ok? {
      StopsWithNotices(s, p, DetectorFindings(DETECTORS, s, p).value, notices);
    }
  }

  lemma {:induction false} CollectedWithFinding(s: Trace, p: RunPolicy, answer: SemanticAnswer, f: Finding)
    requires s != [] && WithinContract(p) && ValidFinding(f) && f.runId == s[0].runId
    requires SemanticOf(p, answer, s[0].runId) == Ok(SemanticResult(Some(f), []))
    ensures CollectedOf(s, p, answer) ==
      if Alone(s, p).Err? then Alone(s, p)
      else if HasId(Alone(s, p).value.findings, f.id) then Err(AnalysisError.DuplicateFindingId)
      else Ok(Collected(Alone(s, p).value.findings + [f], [], {f.id}))
  {
    SameCore(s, p);
    if DetectorFindings(DETECTORS, s, p).Ok? {
      var found := DetectorFindings(DETECTORS, s, p).value;
      FindsAll(s, p, found, 0);
      StopsWithFinding(s, p, found, f);
    }
  }

  /** A conforming, available finding of an enabled detector is collected as it is, after
      everything else and marked as injected; only an id that is taken already refuses it. */
  lemma {:induction false} InjectedFindingIsCollected(s: Trace, p: RunPolicy, f: Finding, name: string)
    requires s != [] && WithinContract(p) && Enabled(p) && Conforming(f, s[0].runId) && f.availability == Available
    ensures CollectedOf(s, p, Returned(f, name)) ==
      if Alone(s, p).Err? then Alone(s, p)
      else if HasId(Alone(s, p).value.findings, f.id) then Err(AnalysisError.DuplicateFindingId)
      else Ok(Collected(Alone(s, p).value.findings + [f], [], {f.id}))
  {
    WellformedIs(f);
    CollectedWithFinding(s, p, Returned(f, name), f);
  }

  /** The notice that an answer is worth when it brings no finding but may be excused. */
  ghost function NoticeFor(answer: SemanticAnswer, runId: string): Option<Notice> {
    match answer
    case Absent => Some(Notice("semantic_detector", Unavailable))
    case Raised => Some(Notice("semantic_detector", Degraded))
    case Returned(f, name) =>
      if Conforming(f, runId) && f.availability != Available then Some(Notice(name, f.availability)) else None
    case _ => None
  }

  /** An absent or failing detector, or one that says it is not available: an error exactly
      when the policy requires it, and otherwise one notice beside the other findings. */
  lemma {:induction false} UnavailableDetector(s: Trace, p: RunPolicy, answer: SemanticAnswer)
    requires s != [] && WithinContract(p) && Enabled(p) && NoticeFor(answer, s[0].runId).Some?
    ensures CollectedOf(s, p, answer) ==
      if p.semantic.value.required then Err(RequiredDetectorUnavailable)
      else if Alone(s, p).Err? then Alone(s, p)
      else Ok(Collected(Alone(s, p).value.findings, [NoticeFor(answer, s[0].runId).value], {}))
  {
    if answer.Returned? {
      WellformedIs(answer.finding);
    }
    if !p.semantic.value.required {
      CollectedWithNotices(s, p, answer, [NoticeFor(answer, s[0].runId).value]);
    }
  }

  /** And that notice is the one that the decision carries. */
  lemma {:induction false} NoticeIsHandedOn(s: Trace, p: RunPolicy, answer: SemanticAnswer)
    requires Succeeds(s, p, answer) && s != [] && Enabled(p) && NoticeFor(answer, s[0].runId).Some?
    ensures DecisionOf(s, p, answer).notices == [NoticeFor(answer, s[0].runId).value]
  {
    UnavailableDetector(s, p, answer);
    var c := CollectedOf(s, p, answer).value;
    EnvelopeCarries(s, c.findings, p, c.notices, c.semanticIds);
  }

  /** Any other answer is an error, required or not: one that is no record or is of a class
      that could stop the run, and one that breaks the finding contract or is of another run. */
  lemma {:induction false} RefusedAnswer(s: Trace, p: RunPolicy, answer: SemanticAnswer)
    requires s != [] && WithinContract(p) && Enabled(p)
    requires answer.NotARecord? || answer.NonConforming? ||
      (answer.Returned? && !Conforming(answer.finding, s[0].runId))
    ensures CollectedOf(s, p, answer) == Err(
      if answer.NotARecord? || (answer.Returned? && Wellformed(answer.finding) && answer.finding.runId == s[0].runId)
      then InvalidSemanticFinding else AnalysisError.InvalidDetectorFinding)
  {
    if answer.Returned? {
      WellformedIs(answer.finding);
    }
  }

  /** A detector that the policy does not enable is never heard. */
  lemma {:induction false} DisabledDetector(s: Trace, p: RunPolicy, answer: SemanticAnswer)
    requires s != [] && WithinContract(p) && !Enabled(p)
    ensures CollectedOf(s, p, answer) == Alone(s, p)
  {
    CollectedWithNotices(s, p, answer, []);
    if Alone(s, p).Ok? {
      CollectedAlone(s, p);
    }
  }

  // -------------------------------------------------------------------- decisions

  /** An analysis into which `f` was injected. */
  ghost predicate Injected(s: Trace, p: RunPolicy, f: Finding, name: string) {
    && Succeeds(s, p, Returned(f, name)) && Enabled(p)
    && s != [] && Conforming(f, s[0].runId) && f.availability == Available
  }

  lemma {:induction false} InjectedPassage(s: Trace, p: RunPolicy, f: Finding, name: string)
    requires Injected(s, p, f, name)
    ensures ValidTrace(s) && ValidPolicy(p) && InputProblem(s, p).None?
    ensures CollectedOf(s, p, Returned(f, name)).Ok? && Alone(s, p).Ok?
    ensures EnvelopeOf(s, Alone(s, p).value.findings + [f], p, [], {f.id}) ==
      Ok(AnalysisOf(s, p, Returned(f, name)).value)
    ensures Succeeds(s, WithoutSemantic(p), Absent)
  {
    InjectedFindingIsCollected(s, p, f, name);
    SemanticNeverRelaxes(s, p, Returned(f, name));
  }

  lemma {:induction false} SameWithout(s: Trace, p: RunPolicy)
    ensures HardInTrace(s, WithoutSemantic(p)) == HardInTrace(s, p)
    ensures forall d: Detector :: MatchedBy(d, s, WithoutSemantic(p)) == MatchedBy(d, s, p)
    ensures forall k: FindingClass :: Signalled(k, s, WithoutSemantic(p)) == Signalled(k, s, p)
  {
    forall d: Detector
      ensures WindowSize(d, WithoutSemantic(p)) == WindowSize(d, p)
    {
    }
  }

  /** What the findings of the core amount to. */
  lemma {:induction false} CoreMeaning(s: Trace, p: RunPolicy)
    requires Succeeds(s, WithoutSemantic(p), Absent) && s != [] && WithinContract(p) && Alone(s, p).Ok?
    ensures Hard(s, Alone(s, p).value.findings) <==> HardInTrace(s, p)
    ensures forall k | k in {RepetitionClass, NoProgressClass} ::
      Decisions.Observed(Alone(s, p).value.findings, k) <==> Signalled(k, s, p)
  {
    var q := WithoutSemantic(p);
    var found, semantic, c := Passage(s, q, Absent);
    assert Alone(s, p) == Ok(c);
    HardFindings(s, q, Absent, found, semantic, c);
    SignalExactly(s, q, Absent, found, semantic, c, RepetitionClass);
    SignalExactly(s, q, Absent, found, semantic, c, NoProgressClass);
    SameWithout(s, p);
  }

  lemma {:induction false} WithSoftFinding(s: Trace, core: seq<Finding>, f: Finding)
    requires f.findingClass in {RepetitionClass, NoProgressClass}
    ensures Hard(s, core + [f]) <==> Hard(s, core) || (f.matched && f.reason in {RiskDetected, BudgetLimitReached})
    ensures forall k :: Decisions.Observed(core + [f], k) <==>
      Decisions.Observed(core, k) || (f.matched && f.findingClass == k)
  {
    assert forall g :: g in core + [f] <==> g in core || g == f;
  }

  /** The signal is there: a detector of the class matched, or the injected finding did. */
  ghost predicate SignalledWith(k: FindingClass, s: Trace, p: RunPolicy, f: Finding) {
    Signalled(k, s, p) || (f.matched && f.findingClass == k)
  }

  ghost predicate BothWith(s: Trace, p: RunPolicy, f: Finding) {
    SignalledWith(RepetitionClass, s, p, f) && SignalledWith(NoProgressClass, s, p, f)
  }

  /** Something hard is in the trace, or the injected finding calls itself a risk or an
      exhausted budget. */
  ghost predicate HardWith(s: Trace, p: RunPolicy, f: Finding) {
    HardInTrace(s, p) || (f.matched && (f.reason == RiskDetected || f.reason == BudgetLimitReached))
  }

  /** What an envelope decides, from what is hard and whether both signals are there. */
  ghost predicate DecidedBy(decision: Decisions.Decision, s: Trace, p: RunPolicy, hard: bool, both: bool, k: nat)
    requires k < |Decisions.RUNGS|
  {
    && (decision.Stop? <==> hard)
    && (decision == Decisions.RUNGS[k] <==>
        && !hard && !Marked(s, Diagnosis.MissingAuthority) && both
        && Decisions.Permitted(Decisions.RUNGS[k], p)
        && forall i | 0 <= i < k :: !Decisions.Permitted(Decisions.RUNGS[i], p))
    && (decision.Continue? <==> !hard && !Marked(s, Diagnosis.MissingAuthority) && !both)
    && (decision.Escalate? <==> !hard && (Marked(s, Diagnosis.MissingAuthority) || (both && NoRung(p))))
  }

  lemma {:induction false} EnvelopeDecidedBy(s: Trace, fs: seq<Finding>, p: RunPolicy, ids: set<FindingId>, k: nat)
    requires s != [] && EnvelopeOf(s, fs, p, [], ids).Ok? && k < |Decisions.RUNGS|
    ensures DecidedBy(EnvelopeOf(s, fs, p, [], ids).value.basis.decision, s, p, Hard(s, fs),
      Decisions.SignalsGate(fs), k)
  {
    StopsOnHardEvidence(s, fs, p, [], ids);
    EnvelopeTheorems.DecidesExactly(s, fs, p, [], ids, k);
  }

  lemma {:induction false} WithInjected(s: Trace, p: RunPolicy, core: seq<Finding>, f: Finding)
    requires f.findingClass in {RepetitionClass, NoProgressClass}
    requires Hard(s, core) <==> HardInTrace(s, p)
    requires forall k | k in {RepetitionClass, NoProgressClass} :: Decisions.Observed(core, k) <==> Signalled(k, s, p)
    ensures Hard(s, core + [f]) <==> HardWith(s, p, f)
    ensures Decisions.SignalsGate(core + [f]) <==> BothWith(s, p, f)
  {
    WithSoftFinding(s, core, f);
  }

  /** Exactly what is decided with an injected finding: it completes the gate like a
      detector's, and stops the run only by a hard reason code. */
  lemma {:induction false} InjectedDecidesExactly(s: Trace, p: RunPolicy, f: Finding, name: string, k: nat)
    requires Injected(s, p, f, name) && k < |Decisions.RUNGS|
    ensures DecidedBy(DecisionOf(s, p, Returned(f, name)).decision, s, p, HardWith(s, p, f), BothWith(s, p, f), k)
  {
    InjectedPassage(s, p, f, name);
    CoreMeaning(s, p);
    var core := Alone(s, p).value.findings;
    WithInjected(s, p, core, f);
    EnvelopeDecidedBy(s, core + [f], p, {f.id}, k);
  }

  /** The contribution of a finding, with this weight. */
  ghost predicate IsWeighed(x: Contribution, f: Finding, weight: real) {
    && x.id == f.id && x.findingClass == f.findingClass && x.matched && x.score == f.score
    && x.weight == weight && x.weightedScore == x.weight * x.score
  }

  lemma {:induction false} IsWeighedAt(fs: seq<Finding>, p: RunPolicy, f: Finding) returns (x: Contribution)
    requires f in fs && f.matched && ValidFinding(f) && WithinContract(p) && p.semantic.Some?
    ensures x in Contributions(fs, p, {f.id}, |fs|) && IsWeighed(x, f, p.semantic.value.weight)
  {
    x := ContributionOf(f, p, {f.id});
    WeightedScoreIsProduct(f, p, {f.id});
    var i :| 0 <= i < |fs| && fs[i] == f;
    ContributionsMeaning(fs, p, {f.id}, |fs|, x);
  }

  /** A matched injected finding is among the contributions of the decision, with the
      weight of the semantic detector. */
  lemma {:induction false} InjectedFindingContributes(s: Trace, p: RunPolicy, f: Finding, name: string)
    returns (x: Contribution)
    requires Injected(s, p, f, name) && f.matched
    ensures x in DecisionOf(s, p, Returned(f, name)).contributions && IsWeighed(x, f, p.semantic.value.weight)
  {
    InjectedPassage(s, p, f, name);
    var fs := Alone(s, p).value.findings + [f];
    EnvelopeCarries(s, fs, p, [], {f.id});
    WellformedIs(f);
    x := IsWeighedAt(fs, p, f);
  }
}

/** What a decision says, read off the events it is about: markers and rejected hypotheses
    in their payloads, and what the policy has the host wait for or confirm. */
module AdviceContents {
  import opened Prelude
  import opened Fingerprints
  import opened TraceEvents
  import opened RunPolicies
  import opened PayloadProgress
  import opened Detectors
  import opened Envelopes
  import opened EnvelopeTheorems
  import opened Controller
  import opened AnalysisTheorems
  import opened Decisions
  import Diagnosis

  // -------------------------------------------------------------------- markers

  /** The word for a cause. */
  ghost function WordFor(c: Diagnosis.Cause): string {
    match c
    case MissingKnowledge => "missing_knowledge"
    case IncorrectPlan => "incorrect_plan"
    case UnsuitableTool => "unsuitable_tool"
    case RuntimeDefect => "runtime_defect"
    case MissingAuthority => "missing_authority"
    case UnsafeSideEffect => "unsafe_side_effect"
    case AmbiguousCompletion => "ambiguous_completion"
    case ExhaustedBudget => "exhausted_budget"
  }

  /** A plan or an error whose payload names the cause. */
  ghost predicate NamesCause(e: TraceEvent, c: Diagnosis.Cause) {
    (e.kind == Plan || e.kind == TraceKind.Error) && PayloadProgress.Carries(e, "diagnostic_cause", Str(WordFor(c)))
  }

  lemma {:induction false} CauseIsNamed(text: string, c: Diagnosis.Cause)
    ensures Diagnosis.CauseNamed(text) == Some(c) <==> text == WordFor(c)
  {
  }

  /** A marker is the word for its cause. */
  lemma {:induction false} MarkerMeaning(e: TraceEvent, c: Diagnosis.Cause)
    ensures Diagnosis.MarkerOf(e) == Some(c) <==> NamesCause(e, c)
  {
    TextIs(e, "diagnostic_cause", WordFor(c));
    if StringField(e, "diagnostic_cause").Some? {
      CauseIsNamed(StringField(e, "diagnostic_cause").value, c);
    }
    CauseIsNamed(WordFor(c), c);
  }

  lemma {:induction false} MarkedMeaning(s: Trace, c: Diagnosis.Cause)
    ensures Marked(s, c) <==> exists i :: 0 <= i < |s| && NamesCause(s[i], c)
  {
    forall e: TraceEvent
      ensures Diagnosis.MarkerOf(e) == Some(c) <==> NamesCause(e, c)
    {
      MarkerMeaning(e, c);
    }
    if e :| e in s && Diagnosis.MarkerOf(e) == Some(c) {
      var i :| 0 <= i < |s| && s[i] == e;
      assert NamesCause(s[i], c);
    }
    if i :| 0 <= i < |s| && NamesCause(s[i], c) {
      assert s[i] in s;
    }
  }

  // ------------------------------------------------------- rejected hypotheses

  lemma {:induction false} NonEmptyTextsMeaning(items: seq<Json>, text: string)
    ensures text in Diagnosis.NonEmptyTexts(items) <==> text != "" && Str(text) in items
  {
    if items != [] {
      NonEmptyTextsMeaning(items[1..], text);
      assert items == [items[0]] + items[1..];
    }
  }

  /** A plan rejects the nonempty strings it lists, whatever else it lists. */
  ghost predicate Rejects(e: TraceEvent, text: string) {
    e.kind == Plan && text != "" &&
    exists items: seq<Json> :: PayloadProgress.Carries(e, "eliminated_hypotheses", Arr(items)) && Str(text) in items
  }

  lemma {:induction false} RejectedMeaning(e: TraceEvent, text: string)
    ensures text in Diagnosis.RejectedBy(e) <==> Rejects(e, text)
  {
    var listed := Field(e, "eliminated_hypotheses");
    if listed.Some? {
      FieldIs(e, "eliminated_hypotheses", listed.value);
      if listed.value.Arr? {
        NonEmptyTextsMeaning(listed.value.items, text);
        assert PayloadProgress.Carries(e, "eliminated_hypotheses", Arr(listed.value.items));
      }
    }
  }

  // ------------------------------------------------------------------------ gaps

  /** A matched finding of a hard class, with that class's reason, is a cause. */
  ghost predicate Evinces(f: Finding, c: Diagnosis.Cause) {
    f.matched &&
    ((c == Diagnosis.UnsafeSideEffect && f.findingClass == RiskClass && f.reason == RiskDetected) ||
     (c == Diagnosis.ExhaustedBudget && f.findingClass == BudgetClass && f.reason == BudgetLimitReached))
  }

  lemma {:induction false} FindingCauseIs(f: Finding, c: Diagnosis.Cause)
    ensures Diagnosis.FindingCause(f) == Some(c) <==> Evinces(f, c)
  {
  }

  /** A cause is named by an event, or is what a matched hard finding stands for. */
  ghost predicate Caused(s: Trace, fs: seq<Finding>, c: Diagnosis.Cause) {
    || (exists i :: 0 <= i < |s| && NamesCause(s[i], c))
    || (exists f :: f in fs && Evinces(f, c))
  }

  lemma {:induction false} CausedMeaning(s: Trace, fs: seq<Finding>, c: Diagnosis.Cause)
    requires s != []
    ensures c in DiagnosisOf(s, fs).causes <==> Caused(s, fs, c)
  {
    Diagnosis.DiagnosisIsValid(s[0].runId, Diagnosis.Readings(s, fs));
    Diagnosis.HasCauseMeaning(c, s, fs);
    MarkedMeaning(s, c);
    forall f: Finding
      ensures Diagnosis.FindingCause(f) == Some(c) <==> Evinces(f, c)
    {
      FindingCauseIs(f, c);
    }
  }

  /** The causes that a diagnosed gap stands for. */
  ghost predicate StandsFor(g: GapKind, c: Diagnosis.Cause) {
    match g
    case MissingEvidence => c == Diagnosis.MissingKnowledge
    case AmbiguousGoal => c == Diagnosis.AmbiguousCompletion
    case FailedAcceptance => c == Diagnosis.IncorrectPlan
    case StalledProgress => c == Diagnosis.UnsuitableTool || c == Diagnosis.RuntimeDefect
    case RiskBlocker =>
      c == Diagnosis.MissingAuthority || c == Diagnosis.UnsafeSideEffect || c == Diagnosis.ExhaustedBudget
  }

  ghost predicate Missing(g: GapKind, s: Trace, fs: seq<Finding>) {
    exists c :: StandsFor(g, c) && Caused(s, fs, c)
  }

  lemma {:induction false} GapIs(c: Diagnosis.Cause, g: GapKind)
    ensures GapOf(c) == g <==> StandsFor(g, c)
  {
  }

  lemma {:induction false} GapsAre(causes: seq<Diagnosis.Cause>, gaps: seq<GapKind>, g: GapKind)
    requires |gaps| == |causes| && forall i | 0 <= i < |causes| :: gaps[i] == GapOf(causes[i])
    ensures g in gaps <==> exists c :: c in causes && GapOf(c) == g
  {
    if g in gaps {
      var i :| 0 <= i < |gaps| && gaps[i] == g;
      assert causes[i] in causes;
    }
    if c :| c in causes && GapOf(c) == g {
      var i :| 0 <= i < |causes| && causes[i] == c;
      assert gaps[i] == g;
    }
  }

  /** The gaps of an envelope are those that a cause stands for. */
  lemma {:induction false} GapsMeaning(s: Trace, fs: seq<Finding>, p: RunPolicy, notices: seq<Notice>,
        semanticIds: set<FindingId>, g: GapKind)
    requires s != [] && EnvelopeOf(s, fs, p, notices, semanticIds).Ok?
    ensures g in EnvelopeOf(s, fs, p, notices, semanticIds).value.basis.gaps <==> Missing(g, s, fs)
  {
    var d := DiagnosisOf(s, fs);
    EnvelopeParts(s, fs, p, notices, semanticIds);
    AssembledFields(d, SelectionOf(d, fs, p).value, fs, p, notices, Contributions(fs, p, semanticIds, |fs|));
    var gaps := EnvelopeOf(s, fs, p, notices, semanticIds).value.basis.gaps;
    GapsAre(d.causes, gaps, g);
    MissingIs(s, fs, g);
  }

  lemma {:induction false} MissingIs(s: Trace, fs: seq<Finding>, g: GapKind)
    requires s != []
    ensures Missing(g, s, fs) <==> exists c :: c in DiagnosisOf(s, fs).causes && GapOf(c) == g
  {
    forall c: Diagnosis.Cause
      ensures GapOf(c) == g <==> StandsFor(g, c)
      ensures c in DiagnosisOf(s, fs).causes <==> Caused(s, fs, c)
    {
      GapIs(c, g);
      CausedMeaning(s, fs, c);
    }
  }

  // -------------------------------------------------------------- host and policy

  /** When the host is asked: never to go on, always to restart or escalate, and otherwise
      as the policy has it for that rung. */
  ghost predicate AsksHost(d: Decision, asks: bool, ladder: Ladder) {
    match d
    case Continue => !asks
    case Nudge => asks == ladder.nudge.requiresHostAction
    case Diagnose => asks == ladder.diagnose.requiresHostAction
    case Reheat => asks == ladder.reheat.requiresHostAction
    case Restart => asks
    case Escalate => asks
    case Stop => asks == ladder.stop.requiresHostAction
  }

  lemma {:induction false} SelectionAsks(causes: seq<Diagnosis.Cause>, fs: seq<Finding>, p: RunPolicy,
        evidence: seq<string>)
    requires IsSafe(p)
    ensures var x := SelectionWith(causes, fs, p, evidence); AsksHost(x.decision, x.requiresHostAction, p.ladder)
  {
  }

  lemma {:induction false} EnvelopeAsks(s: Trace, fs: seq<Finding>, p: RunPolicy, notices: seq<Notice>,
        semanticIds: set<FindingId>)
    requires s != [] && EnvelopeOf(s, fs, p, notices, semanticIds).Ok?
    ensures var b := EnvelopeOf(s, fs, p, notices, semanticIds).value.basis;
      AsksHost(b.decision, b.requiresHostAction, p.ladder)
  {
    var d := DiagnosisOf(s, fs);
    EnvelopeParts(s, fs, p, notices, semanticIds);
    SelectionParts(d, fs, p);
    SelectionIsMade(d, fs, p);
    SelectionAsks(d.causes, fs, p, EvidenceOf(d, fs));
    AssembledParts(d, SelectionOf(d, fs, p).value, fs, p, notices, Contributions(fs, p, semanticIds, |fs|));
  }

  /** What every decision carries over: the run, and what its policy lays down for the host,
      for the effects that may be repeated, for the budget and for cooling down. */
  lemma {:induction false} AdviceMeaning(s: Trace, p: RunPolicy, answer: SemanticAnswer)
    requires Succeeds(s, p, answer)
    ensures var b := DecisionOf(s, p, answer);
      && s != [] && b.runId == s[0].runId
      && AsksHost(b.decision, b.requiresHostAction, p.ladder)
      && b.constraints.requireHostConfirmation == b.requiresHostAction
      && b.constraints.mustPreserveEvidence && b.constraints.noNonIdempotentRepeat
      && b.constraints.allowed == p.repeatableEffects
      && b.budget == p.perIntervention && b.cooling == p.cooling
  {
    var found, semantic, c := Passage(s, p, answer);
    EnvelopeCarries(s, c.findings, p, c.notices, c.semanticIds);
    EnvelopeIsCoherent(s, c.findings, p, c.notices, c.semanticIds);
    EnvelopeAsks(s, c.findings, p, c.notices, c.semanticIds);
  }

  // --------------------------------------------------------- the second boundary

  /** The largest weighted score of a class, or 0 if there is none above. */
  ghost predicate Largest(cs: seq<Contribution>, c: FindingClass, largest: real) {
    && largest >= 0.0
    && (forall x | x in cs && x.findingClass == c :: x.weightedScore <= largest)
    && (largest > 0.0 ==> exists x :: x in cs && x.findingClass == c && x.weightedScore == largest)
  }

  lemma {:induction false} ScoreIsLargest(cs: seq<Contribution>, c: FindingClass, largest: real)
    requires Largest(cs, c, largest)
    ensures Score(cs, c) == largest
  {
    ClassMaxMeaning(cs, |cs|, c);
    if largest > 0.0 {
      var x :| x in cs && x.findingClass == c && x.weightedScore == largest;
      var i :| 0 <= i < |cs| && cs[i] == x;
    }
    if Score(cs, c) > 0.0 {
      var i :| 0 <= i < |cs| && cs[i].findingClass == c && cs[i].weightedScore == Score(cs, c);
      assert cs[i] in cs;
    }
  }

  /** Equal up to a millionth of a millionth. */
  ghost predicate Near(a: real, b: real) {
    a - b <= 0.000000000001 && b - a <= 0.000000000001
  }

  /** A contribution that a reheat may rest on. */
  ghost predicate Bears(x: Contribution) {
    var product := x.weight * x.score;
    && (x.findingClass == RepetitionClass || x.findingClass == NoProgressClass) && x.matched
    && Near(x.weightedScore, if product < 0.0 then 0.0 else if product > 1.0 then 1.0 else product)
  }

  /** Everything but the scores that the second check asks of a reheat. */
  ghost predicate Intact(e: Envelope) {
    var b := e.basis;
    && e.id == b && b.recovery.Some?
    && b.reasons == [SignalsAgree, Detected(RepetitionClass), Detected(NoProgressClass)] +
                    (if b.requiresHostAction then [HostActionRequired] else [])
    && b.constraints.mustPreserveEvidence && b.constraints.noNonIdempotentRepeat && ReadOnly in b.constraints.allowed
    && forall i, j | 0 <= i < j < |b.contributions| :: b.contributions[i].id != b.contributions[j].id
  }

  lemma {:induction false} BearsIs(x: Contribution)
    ensures Contributes(x) <==> Bears(x)
  {
  }

  /** What an envelope has to satisfy to be recoverable, with the two class scores as the
      largest of their weighted scores. */
  lemma {:induction false} RecoverableMeaning(e: Envelope, repetition: real, noProgress: real)
    requires Largest(e.basis.contributions, RepetitionClass, repetition)
    requires Largest(e.basis.contributions, NoProgressClass, noProgress)
    ensures Recoverable(e) <==>
      && Intact(e) && (forall x | x in e.basis.contributions :: Bears(x))
      && repetition > 0.0 && noProgress > 0.0
      && Near(e.basis.confidence, if repetition < noProgress then repetition else noProgress)
  {
    ScoreIsLargest(e.basis.contributions, RepetitionClass, repetition);
    ScoreIsLargest(e.basis.contributions, NoProgressClass, noProgress);
    forall x | x in e.basis.contributions
      ensures Contributes(x) <==> Bears(x)
    {
      BearsIs(x);
    }
  }

  // ---------------------------------------------------------------- the policy

  ghost predicate Outside(x: real) {
    x < 0.0 || x > 1.0
  }

  /** Numbers out of their range: an empty window, or a threshold or weight that is no fraction. */
  ghost predicate OutOfRange(p: RunPolicy) {
    || p.repetitionEvents == 0 || p.noProgressEvents == 0
    || Outside(p.thresholds.repetition) || Outside(p.thresholds.noProgress)
    || Outside(p.thresholds.risk) || Outside(p.thresholds.budget)
    || Outside(p.weights.repetition) || Outside(p.weights.noProgress)
    || Outside(p.weights.risk) || Outside(p.weights.budget)
    || (p.semantic.Some? && Outside(p.semantic.value.weight))
  }

  /** One intervention may use more than the whole run. */
  ghost predicate Overdrawn(p: RunPolicy) {
    || p.perIntervention.turns > p.wholeRun.turns || p.perIntervention.toolCalls > p.wholeRun.toolCalls
    || p.perIntervention.tokens > p.wholeRun.tokens
    || p.perIntervention.elapsedSeconds > p.wholeRun.elapsedSeconds || p.perIntervention.cost > p.wholeRun.cost
  }

  /** The gate does not ask for both signals, or a semantic detector could relax a stop. */
  ghost predicate Lax(p: RunPolicy) {
    || p.requiredClasses != {NoProgressClass, RepetitionClass} || p.minimumCount != 2 || p.budgetCanSubstitute
    || (p.semantic.Some? && p.semantic.value.canRelaxHardStops)
  }

  /** Escalating or stopping is forbidden, restarting or escalating needs no host, or a
      reheat is permitted that no episode is left for. */
  ghost predicate BrokenLadder(p: RunPolicy) {
    || !p.ladder.escalate.permitted || !p.ladder.stop.permitted
    || !p.ladder.restart.requiresHostAction || !p.ladder.escalate.requiresHostAction
    || (p.ladder.reheat.permitted && p.maxRecoveryEpisodes == 0)
  }

  /** Calls may be repeated that write more than once or in unknown ways. */
  ghost predicate RepeatsWrites(p: RunPolicy) {
    || p.repeatsNonIdempotent || p.repeatsUnknown
    || NonIdempotentWrite in p.repeatableEffects || EffectClass.Unknown in p.repeatableEffects
  }

  /** Traces are refused when they are empty or hold more than 10000 events. */
  lemma {:induction false} TraceIsRefused(s: Trace, p: RunPolicy, answer: SemanticAnswer)
    ensures |s| == 0 ==> AnalysisOf(s, p, answer) == Err(EmptyTrace)
    ensures |s| > 10000 ==> AnalysisOf(s, p, answer) == Err(TraceItemLimit)
    ensures 1 <= |s| <= 10000 && ValidTrace(s) && ValidPolicy(p) ==> InputProblem(s, p).None?
  {
  }

  /** Exactly which policies are refused. */
  lemma {:induction false} PolicyIsRefusedExactly(s: Trace, p: RunPolicy, answer: SemanticAnswer)
    requires 1 <= |s| <= 10000 && ValidTrace(s)
    ensures AnalysisOf(s, p, answer) == Err(AnalysisError.InvalidRunPolicy) <==>
      OutOfRange(p) || Overdrawn(p) || Lax(p) || BrokenLadder(p) || RepeatsWrites(p)
  {
    RefusedIs(p);
    OtherErrors(s, p, answer);
  }

  lemma {:induction false} RefusedIs(p: RunPolicy)
    ensures !ValidPolicy(p) <==> OutOfRange(p) || Overdrawn(p) || Lax(p) || BrokenLadder(p) || RepeatsWrites(p)
  {
    forall e | e in p.repeatableEffects
      ensures e in {ReadOnly, IdempotentWrite} || e == NonIdempotentWrite || e == EffectClass.Unknown
    {
    }
  }

  lemma {:induction false} ListErrors(fs: seq<Finding>, runId: string)
    ensures FindingsError(fs, runId) != Some(AnalysisError.InvalidRunPolicy)
  {
  }

  lemma {:induction false} StopErrors(s: Trace, p: RunPolicy, found: seq<Finding>, semantic: SemanticResult)
    requires s != []
    ensures WithHardStops(s, p, found, semantic) != Err(AnalysisError.InvalidRunPolicy)
  {
  }

  lemma {:induction false} CollectionErrors(s: Trace, p: RunPolicy, answer: SemanticAnswer)
    requires s != [] && WithinContract(p)
    ensures CollectedOf(s, p, answer) != Err(AnalysisError.InvalidRunPolicy)
  {
    var semantic, found := SemanticOf(p, answer, s[0].runId), DetectorFindings(DETECTORS, s, p);
    if semantic.Ok? && found.Ok? {
      ListErrors(found.value, s[0].runId);
      StopErrors(s, p, found.value, semantic.value);
    }
  }

  lemma {:induction false} OtherErrors(s: Trace, p: RunPolicy, answer: SemanticAnswer)
    requires 1 <= |s| <= 10000 && ValidTrace(s)
    ensures AnalysisOf(s, p, answer) == Err(AnalysisError.InvalidRunPolicy) <==> !ValidPolicy(p)
  {
    if ValidPolicy(p) {
      CollectionErrors(s, p, answer);
    }
  }
}

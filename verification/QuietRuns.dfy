/** Runs of messages, plans and handoffs: no detector has anything to say about them, so
    whatever the policy, only their markers decide, and only their names and their rejected
    hypotheses can make the analysis fail. */
module QuietRuns {
  import opened Prelude
  import opened FirstOutcomes
  import opened Fingerprints
  import opened TraceEvents
  import opened RunPolicies
  import opened Detectors
  import opened HardStops
  import opened Envelopes
  import opened EnvelopeTheorems
  import opened Controller
  import opened AnalysisTheorems
  import opened AnalysisSuccess
  import Decisions
  import Diagnosis
  import GraphValidation
  import ExactRepetition
  import CycleDetection
  import RepeatedError
  import UnchangedState
  import AcceptanceStall
  import BudgetBurn

  /** No event of these kinds. */
  ghost predicate Without(s: Trace, kinds: set<TraceKind>) {
    forall i | 0 <= i < |s| :: s[i].kind !in kinds
  }

  /** Messages, plans and handoffs only. */
  ghost predicate Quiet(s: Trace) {
    Without(s, {ToolCall, ToolResult, StateObservation, AcceptanceCheck, Error, TraceKind.Budget})
  }

  // ---------------------------------------------------------------- detectors

  lemma {:induction false} NoRepetition(w: Trace, j: nat)
    requires Without(w, {ToolCall, ToolResult}) && j < |w|
    ensures ExactRepetition.RepetitionVerdicts(w)[j].None?
  {
    forall i | 0 <= i < |w|
      ensures ExactRepetition.AnswerOf(w, i).Nothing?
    {
      assert w[i].kind !in {ToolCall, ToolResult};
    }
    ExactRepetition.DecidesExactly(w, j);
  }

  lemma {:induction false} NoCycle(w: Trace, j: nat)
    requires Without(w, {StateObservation}) && j < |w|
    ensures CycleDetection.CycleVerdicts(w)[j].None?
  {
    CycleDetection.CycleVerdictAt(w, |w|, j);
  }

  lemma {:induction false} NoError(w: Trace, j: nat)
    requires Without(w, {ToolCall, Error}) && j < |w|
    ensures RepeatedError.ErrorVerdicts(w)[j].None?
  {
    assert w[j].kind !in {ToolCall, Error};
    RepeatedError.DecidesExactly(w, j);
  }

  lemma {:induction false} NoExpectation(w: Trace, j: nat)
    requires Without(w, {StateObservation}) && j < |w|
    ensures UnchangedState.UnchangedVerdicts(w)[j].None?
  {
  }

  lemma {:induction false} NoCheck(w: Trace, j: nat)
    requires Without(w, {AcceptanceCheck}) && j < |w|
    ensures AcceptanceStall.StallVerdicts(w)[j].None?
  {
    AcceptanceStall.CheckAt(w, |w|, j);
  }

  lemma {:induction false} NoBurn(w: Trace, j: nat)
    requires Without(w, {TraceKind.Budget}) && j < |w|
    ensures BudgetBurn.BurnVerdicts(w)[j].None?
  {
  }

  lemma {:induction false} NothingDetected(d: Detector, w: Trace)
    requires Quiet(w)
    ensures OutcomeOf(d, w).None?
  {
    VerdictsLocal(d, w, []);
    forall j: nat | j < |w|
      ensures VerdictsOf(d, w)[j].None?
    {
      match d
      case ExactRepetition => NoRepetition(w, j);
      case Cycle => NoCycle(w, j);
      case RepeatedError => NoError(w, j);
      case UnchangedState => NoExpectation(w, j);
      case AcceptanceStall => NoCheck(w, j);
      case BudgetBurn => NoBurn(w, j);
    }
    NoOutcome(VerdictsOf(d, w));
  }

  lemma {:induction false} QuietWindow(d: Detector, s: Trace, p: RunPolicy)
    requires Quiet(s)
    ensures OutcomeOf(d, WindowOf(s, WindowSize(d, p))).None?
  {
    NothingDetected(d, WindowOf(s, WindowSize(d, p)));
  }

  lemma {:induction false} QuietDetections(s: Trace, p: RunPolicy)
    requires WithinContract(p) && ValidTrace(s) && Quiet(s) && s != []
    ensures AllDetect(s, p) <==> SchemaIdentifier(s[0].runId) && SchemaIdentifier(s[|s| - 1].eventId)
    ensures forall k | 0 <= k < |DETECTORS| ::
      DetectionOf(DETECTORS[k], s, p).Ok? ==> !DetectionOf(DETECTORS[k], s, p).value.matched
  {
    forall k | 0 <= k < |DETECTORS|
      ensures DetectionOf(DETECTORS[k], s, p).Ok? <==>
        SchemaIdentifier(s[0].runId) && SchemaIdentifier(s[|s| - 1].eventId)
      ensures DetectionOf(DETECTORS[k], s, p).Ok? ==> !DetectionOf(DETECTORS[k], s, p).value.matched
    {
      QuietWindow(DETECTORS[k], s, p);
      UnmatchedDetection(DETECTORS[k], s, p);
    }
    assert DetectionOf(DETECTORS[0], s, p).Ok? ==>
      SchemaIdentifier(s[0].runId) && SchemaIdentifier(s[|s| - 1].eventId);
  }

  // ---------------------------------------------------------------- hard stops

  lemma {:induction false} NoHardStop(s: Trace, p: RunPolicy)
    requires Without(s, {ToolCall}) && forall i | 0 <= i < |s| :: !Reaches(s[i], p.wholeRun)
    ensures HardBudgetOf(s, p.wholeRun).None? && HardRiskOf(s, p.repeatsNonIdempotent).None?
  {
    BudgetMeaning(s, p.wholeRun);
    RiskMeaning(s, p.repeatsNonIdempotent);
    forall j: nat | j < |s|
      ensures !Alarming(s, p.repeatsNonIdempotent, j)
    {
      assert s[j].kind !in {ToolCall};
    }
  }

  lemma {:induction false} QuietCollection(s: Trace, p: RunPolicy, answer: SemanticAnswer)
    requires WithinContract(p) && ValidTrace(s) && Quiet(s) && s != []
    requires Deterministic(p, answer, s[0].runId) && forall i | 0 <= i < |s| :: !Reaches(s[i], p.wholeRun)
    ensures CollectedOf(s, p, answer).Ok? <==> SchemaIdentifier(s[0].runId) && SchemaIdentifier(s[|s| - 1].eventId)
    ensures CollectedOf(s, p, answer).Ok? ==> forall f | f in CollectedOf(s, p, answer).value.findings :: !f.matched
  {
    NoHardStop(s, p);
    QuietDetections(s, p);
    CollectsDetections(s, p, answer);
    if CollectedOf(s, p, answer).Ok? {
      var fs := CollectedOf(s, p, answer).value.findings;
      forall f | f in fs
        ensures !f.matched
      {
        var k :| 0 <= k < |fs| && fs[k] == f;
      }
    }
  }

  // ----------------------------------------------------------------- decisions

  /** Readings without support and without hypotheses add nothing. */
  lemma {:induction false} SilentReadings(xs: seq<Diagnosis.Reading>, ys: seq<Diagnosis.Reading>)
    requires forall i | 0 <= i < |ys| :: ys[i].support == [] && ys[i].rejected == []
    ensures Diagnosis.AllSupport(xs + ys) == Diagnosis.AllSupport(xs)
    ensures Diagnosis.AllRejected(xs + ys) == Diagnosis.AllRejected(xs)
  {
    if ys == [] {
      assert xs + ys == xs;
    } else {
      var front := ys[..|ys| - 1];
      SilentReadings(xs, front);
      assert (xs + ys)[..|xs + ys| - 1] == xs + front;
    }
  }

  lemma {:induction false} UnmatchedReadings(s: Trace, fs: seq<Finding>)
    requires forall f | f in fs :: !f.matched
    ensures Diagnosis.AllSupport(Diagnosis.Readings(s, fs)) == Diagnosis.AllSupport(Diagnosis.TraceReadings(s))
    ensures Diagnosis.AllRejected(Diagnosis.Readings(s, fs)) == Diagnosis.AllRejected(Diagnosis.TraceReadings(s))
  {
    var ys := Diagnosis.FindingReadings(fs, |fs|);
    forall i | 0 <= i < |ys|
      ensures ys[i].support == [] && ys[i].rejected == []
    {
      Diagnosis.FindingReadingAt(fs, |fs|, i);
      assert fs[i] in fs;
    }
    SilentReadings(Diagnosis.TraceReadings(s), ys);
  }

  lemma {:induction false} NoSupport(fs: seq<Finding>, n: nat)
    requires n <= |fs| && forall f | f in fs :: !f.matched
    ensures Decisions.MatchedSupport(fs, n) == []
  {
    if n > 0 {
      NoSupport(fs, n - 1);
      assert fs[n - 1] in fs;
    }
  }

  /** The limits, in terms of the trace alone. */
  lemma {:induction false} UnmatchedLimits(s: Trace, fs: seq<Finding>)
    requires s != [] && forall f | f in fs :: !f.matched
    ensures Diagnosis.TooMuch(Diagnosis.Readings(s, fs)) <==> Diagnosis.TooMuch(Diagnosis.TraceReadings(s))
    ensures !Diagnosis.TooMuch(Diagnosis.Readings(s, fs)) ==>
      |Decisions.EvidenceOf(DiagnosisOf(s, fs), fs)| <= Diagnosis.MAX_EVIDENCE
  {
    UnmatchedReadings(s, fs);
    NoSupport(fs, |fs|);
    var evidence := DiagnosisOf(s, fs).evidence;
    assert Decisions.Stream(evidence, fs, |fs|) == evidence;
    DedupIsShorter(evidence);
  }

  lemma {:induction false} QuietSignals(s: Trace, p: RunPolicy)
    requires Quiet(s) && forall i | 0 <= i < |s| :: !Reaches(s[i], p.wholeRun)
    ensures !BothSignalled(s, p)
    ensures HardInTrace(s, p) <==> Marked(s, Diagnosis.UnsafeSideEffect) || Marked(s, Diagnosis.ExhaustedBudget)
  {
    forall d: Detector
      ensures !MatchedBy(d, s, p)
    {
      QuietWindow(d, s, p);
    }
    NoHardStop(s, p);
    BudgetMeaning(s, p.wholeRun);
    RiskMeaning(s, p.repeatsNonIdempotent);
  }

  /** Exactly when a quiet run is analysed: names and rejected hypotheses decide. And
      exactly when it is told to continue: markers decide. */
  lemma {:induction false} QuietRunDecides(s: Trace, p: RunPolicy, answer: SemanticAnswer)
    requires InputProblem(s, p).None? && Quiet(s)
    requires Deterministic(p, answer, s[0].runId) && forall i | 0 <= i < |s| :: !Reaches(s[i], p.wholeRun)
    ensures Succeeds(s, p, answer) <==>
      && SafeIdentifier(s[0].runId) && SchemaIdentifier(s[|s| - 1].eventId)
      && (forall e | e in s && Speaks(e) :: SafeIdentifier(e.eventId))
      && !Diagnosis.TooMuch(Diagnosis.TraceReadings(s))
    ensures Succeeds(s, p, answer) ==>
      (DecisionOf(s, p, answer).decision.Continue? <==>
       && !Marked(s, Diagnosis.UnsafeSideEffect) && !Marked(s, Diagnosis.ExhaustedBudget)
       && !Marked(s, Diagnosis.MissingAuthority))
  {
    QuietSucceedsExactly(s, p, answer);
    if Succeeds(s, p, answer) {
      QuietSignals(s, p);
      AnalysisTheorems.DecidesExactly(s, p, answer, 0);
    }
  }

  lemma {:induction false} QuietSucceedsExactly(s: Trace, p: RunPolicy, answer: SemanticAnswer)
    requires InputProblem(s, p).None? && Quiet(s)
    requires Deterministic(p, answer, s[0].runId) && forall i | 0 <= i < |s| :: !Reaches(s[i], p.wholeRun)
    ensures Succeeds(s, p, answer) <==>
      && SafeIdentifier(s[0].runId) && SchemaIdentifier(s[|s| - 1].eventId)
      && (forall e | e in s && Speaks(e) :: SafeIdentifier(e.eventId))
      && !Diagnosis.TooMuch(Diagnosis.TraceReadings(s))
    ensures SchemaIdentifier(s[0].runId) && SchemaIdentifier(s[|s| - 1].eventId) && !Succeeds(s, p, answer) ==>
      AnalysisOf(s, p, answer) == Err(Assembly(InvalidControllerAssembly))
  {
    QuietCollection(s, p, answer);
    if CollectedOf(s, p, answer).Ok? {
      UnmatchedSucceedsExactly(s, p, answer);
    }
  }

  /** When nothing matched, only the trace decides. */
  lemma {:induction false} UnmatchedSucceedsExactly(s: Trace, p: RunPolicy, answer: SemanticAnswer)
    requires InputProblem(s, p).None? && CollectedOf(s, p, answer).Ok?
    requires forall f | f in CollectedOf(s, p, answer).value.findings :: !f.matched
    ensures Succeeds(s, p, answer) <==>
      && SafeIdentifier(s[0].runId) && (forall e | e in s && Speaks(e) :: SafeIdentifier(e.eventId))
      && !Diagnosis.TooMuch(Diagnosis.TraceReadings(s))
    ensures !Succeeds(s, p, answer) ==> AnalysisOf(s, p, answer) == Err(Assembly(InvalidControllerAssembly))
  {
    UnmatchedLimits(s, CollectedOf(s, p, answer).value.findings);
    AnalysisSucceedsExactly(s, p, answer);
  }

  // ------------------------------------------------------------- plain messages

  ghost predicate MessagesOnly(s: Trace) {
    forall i | 0 <= i < |s| :: s[i].kind.Message?
  }

  lemma {:induction false} MessagesSayNothing(s: Trace)
    requires MessagesOnly(s)
    ensures Quiet(s) && !Diagnosis.TooMuch(Diagnosis.TraceReadings(s))
    ensures forall e | e in s :: !Speaks(e)
    ensures forall c: Diagnosis.Cause :: !Marked(s, c)
  {
    forall e | e in s
      ensures !Speaks(e)
    {
      assert e.kind.Message?;
    }
    UnremarkableReadings(s, []);
    assert Diagnosis.Readings(s, []) == Diagnosis.TraceReadings(s);
    NothingRead(Diagnosis.TraceReadings(s));
    DedupIsShorter(Diagnosis.AllSupport(Diagnosis.TraceReadings(s)));
    DedupIsShorter(Diagnosis.AllRejected(Diagnosis.TraceReadings(s)));
  }

  /** No false alarm. A valid run of messages that reaches no limit, under a valid policy
      and without an injected finding, is analysed exactly when its run id is a safe
      identifier and its last event id is one the finding contract accepts; and then the
      advice is to continue. The trace contract asks for neither. */
  lemma {:induction false} QuietRunContinues(s: Trace, p: RunPolicy, answer: SemanticAnswer)
    requires InputProblem(s, p).None? && MessagesOnly(s)
    requires Deterministic(p, answer, s[0].runId) && forall i | 0 <= i < |s| :: !Reaches(s[i], p.wholeRun)
    ensures Succeeds(s, p, answer) <==> SafeIdentifier(s[0].runId) && SchemaIdentifier(s[|s| - 1].eventId)
    ensures Succeeds(s, p, answer) ==> DecisionOf(s, p, answer).decision.Continue?
  {
    MessagesSayNothing(s);
    QuietRunDecides(s, p, answer);
  }

  // -------------------------------------------- a hypothesis too long to record

  lemma {:induction false} RejectedIsRead(xs: seq<Diagnosis.Reading>, x: Diagnosis.Reading)
    requires x in xs
    ensures forall text | text in x.rejected :: text in Diagnosis.AllRejected(xs)
  {
    var front, last := xs[..|xs| - 1], xs[|xs| - 1];
    assert xs == front + [last];
    if x != last {
      RejectedIsRead(front, x);
    }
  }

  /** A quiet run that rejects a hypothesis which cannot be encoded is never analysed. */
  lemma {:induction false} UnencodableFails(s: Trace, p: RunPolicy, answer: SemanticAnswer, e: TraceEvent, text: string)
    requires InputProblem(s, p).None? && Quiet(s)
    requires Deterministic(p, answer, s[0].runId) && forall i | 0 <= i < |s| :: !Reaches(s[i], p.wholeRun)
    requires SchemaIdentifier(s[0].runId) && SchemaIdentifier(s[|s| - 1].eventId)
    requires e in s && text in Diagnosis.RejectedBy(e) && !Diagnosis.Encodable(text)
    ensures AnalysisOf(s, p, answer) == Err(Assembly(InvalidControllerAssembly))
  {
    var i :| 0 <= i < |s| && s[i] == e;
    Diagnosis.EventReadingAt(s, |s|, i);
    RejectedIsRead(Diagnosis.TraceReadings(s), Diagnosis.EventReading(e));
    QuietSucceedsExactly(s, p, answer);
  }

  /** One plan that rejects one hypothesis. */
  function OnePlan(text: string): Trace {
    [TraceEvent("run", "a", 1, Plan, ReadOnly, Some(Value(Obj(map["eliminated_hypotheses" := Arr([Str(text)])]))),
                None, None, None, None, None, None, None, None)]
  }

  lemma {:induction false} OnePlanRejects(text: string)
    requires text != ""
    ensures text in Diagnosis.RejectedBy(OnePlan(text)[0])
  {
    var listed := [Str(text)];
    assert Field(OnePlan(text)[0], "eliminated_hypotheses") == Some(Arr(listed));
    assert Diagnosis.NonEmptyTexts(listed) == [text] + Diagnosis.NonEmptyTexts(listed[1..]);
  }

  /** So many control characters. */
  function Nulls(n: nat): string {
    seq(n, _ => '\0')
  }

  lemma {:induction false} NullsAreTooLong(n: nat)
    requires 6 * n + 2 > Diagnosis.MAX_INPUT_CHARS
    ensures Nulls(n) != "" && !Diagnosis.Encodable(Nulls(n))
  {
    Diagnosis.EncodableBounds(Nulls(n));
  }

  /** A plan that rejects a hypothesis of 200000 control characters: a legal string in an
      admissible trace, whose analysis fails under every valid policy. */
  lemma {:induction false} LegalHypothesisFailsTheAnalysis(p: RunPolicy, answer: SemanticAnswer)
    requires ValidPolicy(p) && Deterministic(p, answer, "run")
    ensures Admissible(OnePlan(Nulls(200000))) && |Nulls(200000)| <= GraphValidation.MAX_STRING_CHARS
    ensures AnalysisOf(OnePlan(Nulls(200000)), p, answer) == Err(Assembly(InvalidControllerAssembly))
  {
    NullsAreTooLong(200000);
    LongHypothesisFails(Nulls(200000), p, answer);
  }

  lemma {:induction false} LongHypothesisFails(text: string, p: RunPolicy, answer: SemanticAnswer)
    requires ValidPolicy(p) && Deterministic(p, answer, "run") && text != "" && !Diagnosis.Encodable(text)
    ensures Admissible(OnePlan(text))
    ensures AnalysisOf(OnePlan(text), p, answer) == Err(Assembly(InvalidControllerAssembly))
  {
    var s := OnePlan(text);
    OnePlanRejects(text);
    UnencodableFails(s, p, answer, s[0], text);
  }
}

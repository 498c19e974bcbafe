/** A run in which both signals are detected: a change is expected, the same error comes
    twice, and the state is still the old one. It shows that interventions do happen, that
    a reheat can be refused, and that a name can make an analysis fail. */
module StalledRuns {
  import opened Prelude
  import opened FirstOutcomes
  import opened TraceEvents
  import opened RunPolicies
  import opened Progress
  import opened ReasonLogs
  import opened DetectorOutcomes
  import opened Detectors
  import opened HardStops
  import opened Envelopes
  import opened EnvelopeTheorems
  import opened Controller
  import opened AnalysisTheorems
  import opened AnalysisSuccess
  import opened QuietRuns
  import Decisions
  import Diagnosis
  import CycleDetection
  import RepeatedError
  import UnchangedState

  function Bare(runId: string, id: string, sequence: nat, kind: TraceKind): TraceEvent {
    TraceEvent(runId, id, sequence, kind, ReadOnly, None, None, None, None, None, None, None, None, None)
  }

  function SeenState(e: TraceEvent): TraceEvent {
    e.(stateFingerprint := Some("s"))
  }

  function DeclaredError(e: TraceEvent): TraceEvent {
    e.(errorFingerprint := Some("f"))
  }

  function StalledRun(runId: string, a: string, b: string, c: string, d: string): Trace {
    [SeenState(Bare(runId, a, 1, StateObservation)).(expectedStateChange := Some(true)),
     DeclaredError(Bare(runId, b, 2, Error)),
     DeclaredError(Bare(runId, c, 3, Error)),
     SeenState(Bare(runId, d, 4, StateObservation))]
  }

  /** An observed state that is expected to change, the same error twice without a tool
      call, and the same state again; nothing is marked, cited or counted. */
  ghost predicate Stalled(s: Trace, state: string, error: string) {
    && |s| == 4
    && s[0].kind.StateObservation? && s[1].kind.Error? && s[2].kind.Error? && s[3].kind.StateObservation?
    && StateFingerprint(s[0]) == StateFingerprint(s[3]) == Some(state)
    && StateFingerprint(s[1]) == StateFingerprint(s[2]) == None
    && ErrorOf(s[1]) == ErrorOf(s[2]) == Some(error)
    && ExpectsChange(s[0]) && !ExpectsChange(s[1]) && !ExpectsChange(s[2]) && !ExpectsChange(s[3])
    && forall i | 0 <= i < 4 :: s[i].payload.None? && s[i].evidenceRefs.None? && s[i].budgetCounters.None?
  }

  lemma {:induction false} StalledRunIsStalled(runId: string, a: string, b: string, c: string, d: string)
    ensures Stalled(StalledRun(runId, a, b, c, d), "s", "f")
  {
  }

  // ----------------------------------------------------------------- no progress

  lemma {:induction false} ExpectationOf(s: Trace, state: string, error: string)
    requires Stalled(s, state, error)
    ensures UnchangedState.EpisodeStart(s, 3) == 0
    ensures ExpectedFrom(s, 0) == Some(state)
    ensures ExpectedFrom(s, 1).None? && ExpectedFrom(s, 2).None? && ExpectedFrom(s, 3).None?
  {
    assert !IsObservation(s[1]) && !IsObservation(s[2]) && IsObservation(s[0]);
    EpisodeBetween(s, 0, 3);
    assert LatestState(s, 0 + 1) == StateFingerprint(s[0]);
  }

  lemma {:induction false} EpisodeBetween(s: Trace, i: nat, n: nat)
    requires i < n <= |s| && IsObservation(s[i]) && forall k | i < k < n :: !IsObservation(s[k])
    ensures UnchangedState.EpisodeStart(s, n) == i
  {
    if i < n - 1 {
      EpisodeBetween(s, i, n - 1);
    }
  }

  lemma {:induction false} StalledHasNoWitness(s: Trace, state: string, error: string, r: Reason, j: nat)
    requires Stalled(s, state, error) && j < |s|
    ensures !Witness(r, s, j)
  {
    ExpectationOf(s, state, error);
    match r
    case ExpectedStateChangeObserved =>
      forall i | 0 <= i < j && ExpectedFrom(s, i).Some? && IsObservation(s[j])
        ensures ExpectedFrom(s, i) == StateFingerprint(s[j])
      {
      }
    case _ =>
  }

  lemma {:induction false} StalledShowsNothing(s: Trace, state: string, error: string)
    requires Stalled(s, state, error)
    ensures !ShowsProgress(s)
  {
    ShowsProgressMeaning(s);
    forall r, j | 0 <= j < |s|
      ensures !Witness(r, s, j)
    {
      StalledHasNoWitness(s, state, error, r, j);
    }
  }

  // ------------------------------------------------------------- what is detected

  lemma {:induction false} SameErrors(s: Trace, state: string, error: string)
    requires Stalled(s, state, error)
    ensures RepeatedError.EntryOf(s, 0).Silent?
    ensures RepeatedError.EntryOf(s, 1) == RepeatedError.EntryOf(s, 2) ==
      RepeatedError.Occurrence(error, RepeatedError.NoCall)
  {
    NoCallBefore(s, 1);
    NoCallBefore(s, 2);
  }

  lemma {:induction false} NoCallBefore(s: Trace, n: nat)
    requires n <= |s| && Without(s, {ToolCall})
    ensures RepeatedError.ContextAt(s, n) == RepeatedError.NoCall
  {
    if n > 0 {
      NoCallBefore(s, n - 1);
    }
  }

  lemma {:induction false} ErrorRepeats(s: Trace, state: string, error: string)
    requires Stalled(s, state, error)
    ensures OutcomeOf(Detector.RepeatedError, s) == Some(Match([1, 2]))
  {
    var verdicts := RepeatedError.ErrorVerdicts(s);
    SameErrors(s, state, error);
    RepeatedError.DecidesExactly(s, 0);
    RepeatedError.DecidesExactly(s, 1);
    RepeatedError.DecidesExactly(s, 2);
    assert RepeatedError.SameError(s, 1, 2);
    assert !RepeatedError.Decides(s, 0) && !RepeatedError.Decides(s, 1) && RepeatedError.Decides(s, 2);
    assert verdicts[2] == Some(Match([1, 2]));
    FirstOutcomeAt(verdicts, 2);
  }

  lemma {:induction false} ExpectationIsMet(s: Trace, state: string, error: string)
    requires Stalled(s, state, error)
    ensures UnchangedState.UnchangedVerdict(s, 3) == Some(Match([0, 0, 3]))
  {
    ExpectationOf(s, state, error);
    StalledShowsNothing(s, state, error);
    assert s[0..4] == s;
  }

  lemma {:induction false} StateIsUnchanged(s: Trace, state: string, error: string)
    requires Stalled(s, state, error)
    ensures OutcomeOf(Detector.UnchangedState, s) == Some(Match([0, 0, 3]))
  {
    var verdicts := UnchangedState.UnchangedVerdicts(s);
    ExpectationIsMet(s, state, error);
    assert verdicts[1].None? && verdicts[2].None?;
    assert verdicts[0].None?;
    FirstOutcomeAt(verdicts, 3);
  }

  lemma {:induction false} NoCycleOfTwo(s: Trace, j: nat)
    requires j < |s| && (IsObservation(s[j]) ==> |CycleDetection.Observed(s, j + 1)| <= 2)
    ensures CycleDetection.CycleVerdicts(s)[j].None?
  {
    CycleDetection.CycleVerdictAt(s, |s|, j);
    CycleDetection.ShortestCycleMeaning(s, CycleDetection.Observed(s, j + 1));
  }

  lemma {:induction false} FewObservations(s: Trace, n: nat, k: nat)
    requires n <= |s| && k <= n && |CycleDetection.Observed(s, k)| <= 1
    requires forall i | k <= i < n - 1 :: !IsObservation(s[i])
    ensures |CycleDetection.Observed(s, n)| <= 2
    ensures n > k && !IsObservation(s[n - 1]) ==> |CycleDetection.Observed(s, n)| <= 1
  {
    if k < n {
      FewObservations(s, n - 1, k);
    }
  }

  lemma {:induction false} NoCycleHere(s: Trace, state: string, error: string)
    requires Stalled(s, state, error)
    ensures OutcomeOf(Detector.Cycle, s).None?
  {
    assert !IsObservation(s[1]) && !IsObservation(s[2]);
    forall j: nat | j < 4
      ensures CycleDetection.CycleVerdicts(s)[j].None?
    {
      assert |CycleDetection.Observed(s, 0)| == 0;
      if j == 0 {
        FewObservations(s, 1, 0);
      } else {
        FewObservations(s, 1, 0);
        ObservedOnce(s);
        FewObservations(s, j + 1, 1);
      }
      NoCycleOfTwo(s, j);
    }
    NoOutcome(CycleDetection.CycleVerdicts(s));
  }

  lemma {:induction false} ObservedOnce(s: Trace)
    requires |s| > 0
    ensures |CycleDetection.Observed(s, 1)| <= 1
  {
    assert CycleDetection.Observed(s, 0) == [];
  }

  lemma {:induction false} NoRepetitionHere(s: Trace)
    requires Without(s, {ToolCall, ToolResult})
    ensures OutcomeOf(Detector.ExactRepetition, s).None?
  {
    VerdictsLocal(Detector.ExactRepetition, s, []);
    forall j: nat | j < |s| {
      NoRepetition(s, j);
    }
    NoOutcome(VerdictsOf(Detector.ExactRepetition, s));
  }

  lemma {:induction false} NoCheckHere(s: Trace)
    requires Without(s, {AcceptanceCheck})
    ensures OutcomeOf(Detector.AcceptanceStall, s).None?
  {
    forall j: nat | j < |s| {
      NoCheck(s, j);
    }
    NoOutcome(VerdictsOf(Detector.AcceptanceStall, s));
  }

  lemma {:induction false} NoBurnHere(s: Trace)
    requires Without(s, {TraceKind.Budget})
    ensures OutcomeOf(Detector.BudgetBurn, s).None?
  {
    forall j: nat | j < |s| {
      NoBurn(s, j);
    }
    NoOutcome(VerdictsOf(Detector.BudgetBurn, s));
  }

  /** The other detectors see nothing. */
  lemma {:induction false} OthersDetectNothing(s: Trace, state: string, error: string, d: Detector)
    requires Stalled(s, state, error) && !d.RepeatedError? && !d.UnchangedState?
    ensures OutcomeOf(d, s).None?
  {
    match d
    case ExactRepetition => NoRepetitionHere(s);
    case Cycle => NoCycleHere(s, state, error);
    case AcceptanceStall => NoCheckHere(s);
    case BudgetBurn => NoBurnHere(s);
    case _ =>
  }

  /** Windows that hold the whole run. */
  predicate SeesAll(s: Trace, p: RunPolicy) {
    |s| <= p.repetitionEvents && |s| <= p.noProgressEvents
  }

  ghost predicate ContractIds(s: Trace) {
    forall i | 0 <= i < |s| :: SchemaIdentifier(s[i].runId) && SchemaIdentifier(s[i].eventId)
  }

  lemma {:induction false} ErrorFinding(s: Trace, p: RunPolicy, state: string, error: string)
    requires Stalled(s, state, error) && ValidTrace(s) && WithinContract(p) && SeesAll(s, p) && ContractIds(s)
    ensures DetectionOf(Detector.RepeatedError, s, p).Ok?
    ensures var f := DetectionOf(Detector.RepeatedError, s, p).value;
      f.matched && |f.eventIds| <= 2 && forall id :: id in f.eventIds <==> id == s[1].eventId || id == s[2].eventId
  {
    ErrorRepeats(s, state, error);
    MatchedDetection(Detector.RepeatedError, s, p, [1, 2]);
    var ids := IdsAt(s, [1, 2]);
    assert ids == [s[1].eventId, s[2].eventId];
    DedupMeaning(ids);
    DedupIsShorter(ids);
  }

  lemma {:induction false} StateFinding(s: Trace, p: RunPolicy, state: string, error: string)
    requires Stalled(s, state, error) && ValidTrace(s) && WithinContract(p) && SeesAll(s, p) && ContractIds(s)
    ensures DetectionOf(Detector.UnchangedState, s, p).Ok?
    ensures var f := DetectionOf(Detector.UnchangedState, s, p).value;
      f.matched && |f.eventIds| <= 3 && forall id :: id in f.eventIds <==> id == s[0].eventId || id == s[3].eventId
  {
    StateIsUnchanged(s, state, error);
    MatchedDetection(Detector.UnchangedState, s, p, [0, 0, 3]);
    var ids := IdsAt(s, [0, 0, 3]);
    assert ids == [s[0].eventId, s[0].eventId, s[3].eventId];
    DedupMeaning(ids);
    DedupIsShorter(ids);
  }

  lemma {:induction false} OtherFinding(s: Trace, p: RunPolicy, state: string, error: string, d: Detector)
    requires Stalled(s, state, error) && ValidTrace(s) && WithinContract(p) && SeesAll(s, p) && ContractIds(s)
    requires !d.RepeatedError? && !d.UnchangedState?
    ensures DetectionOf(d, s, p).Ok? && !DetectionOf(d, s, p).value.matched
  {
    OthersDetectNothing(s, state, error, d);
    UnmatchedDetection(d, s, p);
  }

  /** What one detector hands over. */
  ghost predicate Reported(s: Trace, d: Detector, f: Finding)
    requires |s| == 4
  {
    match d
    case RepeatedError =>
      f.matched && |f.eventIds| <= 2 && forall id :: id in f.eventIds <==> id == s[1].eventId || id == s[2].eventId
    case UnchangedState =>
      f.matched && |f.eventIds| <= 3 && forall id :: id in f.eventIds <==> id == s[0].eventId || id == s[3].eventId
    case _ => !f.matched
  }

  lemma {:induction false} EachReports(s: Trace, p: RunPolicy, state: string, error: string, d: Detector)
    requires Stalled(s, state, error) && ValidTrace(s) && WithinContract(p) && SeesAll(s, p) && ContractIds(s)
    ensures DetectionOf(d, s, p).Ok? && Reported(s, d, DetectionOf(d, s, p).value)
  {
    match d
    case RepeatedError => ErrorFinding(s, p, state, error);
    case UnchangedState => StateFinding(s, p, state, error);
    case _ => OtherFinding(s, p, state, error, d);
  }

  /** The six findings of a stalled run. */
  ghost predicate StalledFindings(s: Trace, fs: seq<Finding>)
    requires |s| == 4
  {
    && |fs| == |DETECTORS|
    && forall k | 0 <= k < |DETECTORS| ::
       Reported(s, DETECTORS[k], fs[k]) && fs[k].findingClass == ClassOf(DETECTORS[k])
  }

  lemma {:induction false} StalledCollection(
    s: Trace, p: RunPolicy, answer: SemanticAnswer, state: string, error: string)
    requires Stalled(s, state, error) && ValidTrace(s) && WithinContract(p) && SeesAll(s, p) && ContractIds(s)
    requires Deterministic(p, answer, s[0].runId)
    ensures CollectedOf(s, p, answer).Ok? && StalledFindings(s, CollectedOf(s, p, answer).value.findings)
  {
    forall k | 0 <= k < |DETECTORS|
      ensures DetectionOf(DETECTORS[k], s, p).Ok? && Reported(s, DETECTORS[k], DetectionOf(DETECTORS[k], s, p).value)
      ensures DetectionOf(DETECTORS[k], s, p).value.findingClass == ClassOf(DETECTORS[k])
    {
      EachReports(s, p, state, error, DETECTORS[k]);
      DetectionMeaning(DETECTORS[k], s, p);
    }
    NoHardStop(s, p);
    CollectsDetections(s, p, answer);
  }

  lemma {:induction false} StalledNames(s: Trace, fs: seq<Finding>, state: string, error: string)
    requires Stalled(s, state, error) && StalledFindings(s, fs)
    ensures Unremarkable(s, fs) && forall f | f in fs && f.matched :: |f.eventIds| <= 100
    ensures SafelyNamed(s, fs) <==> forall i | 0 <= i < 4 :: SafeIdentifier(s[i].eventId)
  {
    assert DETECTORS[2] == Detector.RepeatedError && DETECTORS[3] == Detector.UnchangedState;
    assert Reported(s, DETECTORS[2], fs[2]) && Reported(s, DETECTORS[3], fs[3]);
    assert fs[2] in fs && fs[3] in fs;
    assert s[1].eventId in fs[2].eventIds && s[2].eventId in fs[2].eventIds;
    assert s[0].eventId in fs[3].eventIds && s[3].eventId in fs[3].eventIds;
    forall f | f in fs && f.matched
      ensures f.findingClass in {RepetitionClass, NoProgressClass} && |f.eventIds| <= 100
      ensures forall id | id in f.eventIds :: exists i :: 0 <= i < 4 && s[i].eventId == id
    {
      var k :| 0 <= k < |fs| && fs[k] == f;
      assert Reported(s, DETECTORS[k], fs[k]);
    }
    Unmarked(s);
  }

  lemma {:induction false} Unmarked(s: Trace)
    requires forall i | 0 <= i < |s| :: s[i].payload.None?
    ensures forall e | e in s :: !Speaks(e)
    ensures forall c: Diagnosis.Cause :: !Marked(s, c)
  {
    forall e | e in s
      ensures !Speaks(e)
    {
      assert e.payload.None?;
    }
  }

  // ------------------------------------------------------------ what is decided

  /** A stalled run that the finding contract accepts in every name is analysed exactly
      when all its ids are safe identifiers. Otherwise, as for an id that ends in a
      newline, the assembly is invalid, and that under every policy that sees the run. */
  lemma {:induction false} StalledRunSucceedsExactly(
    s: Trace, p: RunPolicy, answer: SemanticAnswer, state: string, error: string)
    requires Stalled(s, state, error) && InputProblem(s, p).None? && SeesAll(s, p) && ContractIds(s)
    requires Deterministic(p, answer, s[0].runId)
    ensures Succeeds(s, p, answer) <==>
      SafeIdentifier(s[0].runId) && forall i | 0 <= i < 4 :: SafeIdentifier(s[i].eventId)
    ensures !Succeeds(s, p, answer) ==> AnalysisOf(s, p, answer) == Err(Assembly(InvalidControllerAssembly))
  {
    StalledCollection(s, p, answer, state, error);
    StalledNames(s, CollectedOf(s, p, answer).value.findings, state, error);
    UnremarkableSucceedsExactly(s, p, answer);
  }

  lemma {:induction false} StalledSignals(s: Trace, p: RunPolicy, state: string, error: string)
    requires Stalled(s, state, error) && SeesAll(s, p)
    ensures BothSignalled(s, p)
  {
    ErrorRepeats(s, state, error);
    StateIsUnchanged(s, state, error);
    assert MatchedBy(Detector.RepeatedError, s, p) && MatchedBy(Detector.UnchangedState, s, p);
  }

  lemma {:induction false} StalledIsNotHard(s: Trace, p: RunPolicy, state: string, error: string)
    requires Stalled(s, state, error) && SeesAll(s, p)
    ensures !HardInTrace(s, p) && !Marked(s, Diagnosis.MissingAuthority)
  {
    NoBurnHere(s);
    Unmarked(s);
    NoHardStop(s, p);
    BudgetMeaning(s, p.wholeRun);
    RiskMeaning(s, p.repeatsNonIdempotent);
  }

  /** A stalled run reaches the ladder: the least permitted rung, whichever that is. */
  lemma {:induction false} StalledRunReachesLadder(
    s: Trace, p: RunPolicy, answer: SemanticAnswer, state: string, error: string, k: nat)
    requires Stalled(s, state, error) && SeesAll(s, p) && k < |Decisions.RUNGS|
    requires Succeeds(s, p, answer) && Deterministic(p, answer, s[0].runId)
    requires Decisions.Permitted(Decisions.RUNGS[k], p)
    requires forall i | 0 <= i < k :: !Decisions.Permitted(Decisions.RUNGS[i], p)
    ensures DecisionOf(s, p, answer).decision == Decisions.RUNGS[k]
  {
    StalledSignals(s, p, state, error);
    StalledIsNotHard(s, p, state, error);
    AnalysisTheorems.DecidesExactly(s, p, answer, k);
  }

  // ------------------------------------------------------------- concrete policies

  const NO_LIMIT := BudgetCounters(1000, 1000, 1000, 1000.0, 1000.0)

  /** A ladder with nothing but a reheat before escalation. */
  function ReheatOnly(repetitionWeight: real): RunPolicy {
    var no, yes, asks := Stage(false, false), Stage(true, false), Stage(true, true);
    RunPolicy(10, 10, PerClass(0.5, 0.5, 0.5, 0.5), PerClass(repetitionWeight, 1.0, 1.0, 1.0), None,
              {RepetitionClass, NoProgressClass}, 2, false,
              Ladder(no, no, yes, Stage(false, true), asks, yes),
              NO_LIMIT, NO_LIMIT, Cooling(0.0, false, 0.0), 1, {ReadOnly}, false, false)
  }

  lemma {:induction false} ReheatOnlyIsValid(w: real)
    requires Fraction(w)
    ensures ValidPolicy(ReheatOnly(w)) && Decisions.Permitted(Decisions.RUNGS[2], ReheatOnly(w))
    ensures forall i | 0 <= i < 2 :: !Decisions.Permitted(Decisions.RUNGS[i], ReheatOnly(w))
  {
    assert Decisions.RUNGS[0] == Decisions.Nudge && Decisions.RUNGS[1] == Decisions.Diagnose;
    assert Decisions.RUNGS[2] == Decisions.Reheat;
  }

  lemma {:induction false} ConcreteNames()
    ensures SafeIdentifier("run") && SafeIdentifier("a") && SafeIdentifier("b")
    ensures SafeIdentifier("c") && SafeIdentifier("d")
    ensures SchemaIdentifier("b\n") && !SafeIdentifier("b\n")
  {
    assert "b\n"[..1] == "b";
    assert !SafeCharacter("b\n"[1], false);
  }

  lemma {:induction false} StalledRunIsValid(b: string, p: RunPolicy)
    requires b in {"b", "b\n"} && ValidPolicy(p)
    ensures Admissible(StalledRun("run", "a", b, "c", "d"))
    ensures InputProblem(StalledRun("run", "a", b, "c", "d"), p).None?
    ensures ContractIds(StalledRun("run", "a", b, "c", "d"))
  {
    ConcreteNames();
    var s := StalledRun("run", "a", b, "c", "d");
    assert s[0].eventId[0] == 'a' && s[1].eventId[0] == 'b' && s[2].eventId[0] == 'c' && s[3].eventId[0] == 'd';
    assert UniqueIds(s);
  }

  /** The ladder is reached: a run of four events is advised to reheat. */
  lemma {:induction false} StalledRunReheats(w: real)
    requires Fraction(w)
    ensures Succeeds(StalledRun("run", "a", "b", "c", "d"), ReheatOnly(w), Absent)
    ensures DecisionOf(StalledRun("run", "a", "b", "c", "d"), ReheatOnly(w), Absent).decision.Reheat?
    ensures Recoverable(AnalysisOf(StalledRun("run", "a", "b", "c", "d"), ReheatOnly(w), Absent).value) <==> w > 0.0
  {
    var s, p := StalledRun("run", "a", "b", "c", "d"), ReheatOnly(w);
    ReheatOnlyIsValid(w);
    StalledRunIsStalled("run", "a", "b", "c", "d");
    StalledRunIsValid("b", p);
    ConcreteNames();
    StalledRunSucceedsExactly(s, p, Absent, "s", "f");
    StalledRunReachesLadder(s, p, Absent, "s", "f", 2);
    ReheatIsAcceptedExactly(s, p, Absent);
  }

  /** With weight 0 for repetition, that very advice is refused at the second boundary. */
  lemma {:induction false} ReheatCanBeRefused()
    ensures var s, p := StalledRun("run", "a", "b", "c", "d"), ReheatOnly(0.0);
      && Admissible(s) && Succeeds(s, p, Absent)
      && DecisionOf(s, p, Absent).decision.Reheat?
      && !Recoverable(AnalysisOf(s, p, Absent).value)
  {
    ReheatOnlyIsValid(0.0);
    StalledRunIsValid("b", ReheatOnly(0.0));
    StalledRunReheats(0.0);
  }

  /** One id that ends in a newline is enough for the analysis to fail. */
  lemma {:induction false} NewlineFailsTheAnalysis(w: real)
    requires Fraction(w)
    ensures var s, p := StalledRun("run", "a", "b\n", "c", "d"), ReheatOnly(w);
      && Admissible(s) && MatchedBy(Detector.RepeatedError, s, p)
      && AnalysisOf(s, p, Absent) == Err(Assembly(InvalidControllerAssembly))
  {
    var s, p := StalledRun("run", "a", "b\n", "c", "d"), ReheatOnly(w);
    ReheatOnlyIsValid(w);
    StalledRunIsStalled("run", "a", "b\n", "c", "d");
    StalledRunIsValid("b\n", p);
    ConcreteNames();
    ErrorRepeats(s, "s", "f");
    StalledRunSucceedsExactly(s, p, Absent, "s", "f");
  }
}

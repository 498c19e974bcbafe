/** Runs longer than the windows: a stalled end is judged on its own, whatever plain
    events came before it. */
module LongRuns {
  import opened Prelude
  import opened TraceEvents
  import opened RunPolicies
  import opened Detectors
  import opened DetectorWindows
  import opened HardStops
  import opened Envelopes
  import opened EnvelopeTheorems
  import opened Controller
  import opened AnalysisTheorems
  import opened AnalysisSuccess
  import opened QuietRuns
  import opened StalledRuns
  import Decisions
  import Diagnosis

  /** Events without payloads, counters and tool calls. */
  ghost predicate Plain(s: Trace) {
    forall i | 0 <= i < |s| :: s[i].payload.None? && s[i].budgetCounters.None? && !s[i].kind.ToolCall?
  }

  predicate WindowsOf(p: RunPolicy, size: nat) {
    p.repetitionEvents == size && p.noProgressEvents == size
  }

  lemma {:induction false} SameDetections(front: Trace, s: Trace, p: RunPolicy, d: Detector)
    requires WithinContract(p) && ValidTrace(front + s) && WindowsOf(p, |s|)
    ensures ValidTrace(s) && DetectionOf(d, front + s, p) == DetectionOf(d, s, p)
  {
    if d.ExactRepetition? || d.Cycle? || d.RepeatedError? {
      RepetitionWindow(d, front, s, p);
    } else {
      NoProgressWindow(d, front, s, p);
    }
  }

  lemma {:induction false} PlainWhole(front: Trace, s: Trace, state: string, error: string)
    requires Plain(front) && Stalled(s, state, error)
    ensures Plain(front + s) && Without(front + s, {ToolCall})
  {
  }

  lemma {:induction false} LongCollection(
    front: Trace, s: Trace, p: RunPolicy, answer: SemanticAnswer, state: string, error: string)
    requires Plain(front) && Stalled(s, state, error) && ContractIds(s)
    requires WithinContract(p) && ValidTrace(front + s) && WindowsOf(p, 4)
    requires Deterministic(p, answer, (front + s)[0].runId)
    ensures CollectedOf(front + s, p, answer).Ok?
    ensures StalledFindings(s, CollectedOf(front + s, p, answer).value.findings)
  {
    forall k | 0 <= k < |DETECTORS|
      ensures DetectionOf(DETECTORS[k], front + s, p).Ok?
      ensures Reported(s, DETECTORS[k], DetectionOf(DETECTORS[k], front + s, p).value)
      ensures DetectionOf(DETECTORS[k], front + s, p).value.findingClass == ClassOf(DETECTORS[k])
    {
      SameDetections(front, s, p, DETECTORS[k]);
      EachReports(s, p, state, error, DETECTORS[k]);
      DetectionMeaning(DETECTORS[k], s, p);
    }
    PlainWhole(front, s, state, error);
    NoHardStop(front + s, p);
    CollectsDetections(front + s, p, answer);
  }

  /** Only the run id and the ids of the four last events decide whether it is analysed. */
  lemma {:induction false} LongRunSucceedsExactly(
    front: Trace, s: Trace, p: RunPolicy, answer: SemanticAnswer, state: string, error: string)
    requires Plain(front) && Stalled(s, state, error) && ContractIds(s)
    requires InputProblem(front + s, p).None? && WindowsOf(p, 4)
    requires Deterministic(p, answer, (front + s)[0].runId)
    ensures Succeeds(front + s, p, answer) <==>
      SafeIdentifier((front + s)[0].runId) && forall i | 0 <= i < 4 :: SafeIdentifier(s[i].eventId)
  {
    LongCollection(front, s, p, answer, state, error);
    var fs := CollectedOf(front + s, p, answer).value.findings;
    StalledNames(s, fs, state, error);
    PlainWhole(front, s, state, error);
    Unmarked(front + s);
    Unmarked(s);
    UnremarkableSucceedsExactly(front + s, p, answer);
  }

  lemma {:induction false} LastEvents(front: Trace, s: Trace, p: RunPolicy, d: Detector)
    requires WindowsOf(p, |s|)
    ensures WindowOf(front + s, WindowSize(d, p)) == s
  {
    assert (front + s)[|front|..] == s;
  }

  lemma {:induction false} LongRunSignals(front: Trace, s: Trace, p: RunPolicy, state: string, error: string)
    requires Stalled(s, state, error) && WindowsOf(p, 4)
    ensures BothSignalled(front + s, p)
  {
    LastEvents(front, s, p, Detector.RepeatedError);
    LastEvents(front, s, p, Detector.UnchangedState);
    ErrorRepeats(s, state, error);
    StateIsUnchanged(s, state, error);
    assert MatchedBy(Detector.RepeatedError, front + s, p) && MatchedBy(Detector.UnchangedState, front + s, p);
  }

  lemma {:induction false} LongRunIsNotHard(front: Trace, s: Trace, p: RunPolicy, state: string, error: string)
    requires Plain(front) && Stalled(s, state, error) && WindowsOf(p, 4)
    ensures !HardInTrace(front + s, p) && !Marked(front + s, Diagnosis.MissingAuthority)
  {
    LastEvents(front, s, p, Detector.BudgetBurn);
    NoBurnHere(s);
    PlainWhole(front, s, state, error);
    Unmarked(front + s);
    NoHardStop(front + s, p);
    BudgetMeaning(front + s, p.wholeRun);
    RiskMeaning(front + s, p.repeatsNonIdempotent);
  }

  /** Whatever came before the stalled end, the least permitted rung is taken. */
  lemma {:induction false} LongRunReachesLadder(
    front: Trace, s: Trace, p: RunPolicy, answer: SemanticAnswer, state: string, error: string, k: nat)
    requires Plain(front) && Stalled(s, state, error) && WindowsOf(p, 4) && k < |Decisions.RUNGS|
    requires Succeeds(front + s, p, answer) && Deterministic(p, answer, (front + s)[0].runId)
    requires Decisions.Permitted(Decisions.RUNGS[k], p)
    requires forall i | 0 <= i < k :: !Decisions.Permitted(Decisions.RUNGS[i], p)
    ensures DecisionOf(front + s, p, answer).decision == Decisions.RUNGS[k]
  {
    LongRunSignals(front, s, p, state, error);
    LongRunIsNotHard(front, s, p, state, error);
    AnalysisTheorems.DecidesExactly(front + s, p, answer, k);
  }

  // ------------------------------------------------------------- a concrete run

  /** A message, and then the four events of the stalled run. */
  function LateStall(): Trace {
    [Bare("run", "e", 1, Message)] + Later(StalledRun("run", "a", "b", "c", "d"))
  }

  function Later(s: Trace): Trace {
    seq(|s|, i requires 0 <= i < |s| => s[i].(sequence := s[i].sequence + 1))
  }

  function ShortWindows(w: real): RunPolicy {
    ReheatOnly(w).(repetitionEvents := 4, noProgressEvents := 4)
  }

  lemma {:induction false} LateStallIsValid(w: real)
    requires Fraction(w)
    ensures InputProblem(LateStall(), ShortWindows(w)).None?
    ensures ContractIds(Later(StalledRun("run", "a", "b", "c", "d")))
  {
    ConcreteNames();
    var s := LateStall();
    assert s[0].eventId[0] == 'e' && s[1].eventId[0] == 'a' && s[2].eventId[0] == 'b';
    assert s[3].eventId[0] == 'c' && s[4].eventId[0] == 'd';
    assert UniqueIds(s);
  }

  /** It is advised to reheat, although only its last four events are in the windows. */
  lemma {:induction false} LateStallReheats(w: real)
    requires Fraction(w)
    ensures Succeeds(LateStall(), ShortWindows(w), Absent)
    ensures DecisionOf(LateStall(), ShortWindows(w), Absent).decision.Reheat?
  {
    ReheatOnlyIsValid(w);
    StalledRunIsStalled("run", "a", "b", "c", "d");
    LateStallIsValid(w);
    ConcreteNames();
    LateReheat([Bare("run", "e", 1, Message)], Later(StalledRun("run", "a", "b", "c", "d")), ShortWindows(w));
  }

  lemma {:induction false} LateReheat(front: Trace, s: Trace, p: RunPolicy)
    requires Plain(front) && Stalled(s, "s", "f") && ContractIds(s) && front != []
    requires InputProblem(front + s, p).None? && WindowsOf(p, 4) && p.semantic.None?
    requires SafeIdentifier(front[0].runId) && forall i | 0 <= i < 4 :: SafeIdentifier(s[i].eventId)
    requires Decisions.Permitted(Decisions.RUNGS[2], p)
    requires forall i | 0 <= i < 2 :: !Decisions.Permitted(Decisions.RUNGS[i], p)
    ensures Succeeds(front + s, p, Absent) && DecisionOf(front + s, p, Absent).decision.Reheat?
  {
    LongRunSucceedsExactly(front, s, p, Absent, "s", "f");
    LongRunReachesLadder(front, s, p, Absent, "s", "f", 2);
  }
}

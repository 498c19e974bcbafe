/** The six detectors at their boundary: validated inputs, a bounded window, one finding. */
module Detectors {
  import opened Prelude
  import opened TraceEvents
  import opened DetectorOutcomes
  import opened FirstOutcomes
  import opened RunPolicies
  import ExactRepetition
  import CycleDetection
  import RepeatedError
  import UnchangedState
  import AcceptanceStall
  import BudgetBurn

  datatype Detector = ExactRepetition | Cycle | RepeatedError | UnchangedState | AcceptanceStall | BudgetBurn

  function NameOf(d: Detector): string {
    match d
    case ExactRepetition => "exact-repetition"
    case Cycle => "cycle"
    case RepeatedError => "repeated-error"
    case UnchangedState => "unchanged-state"
    case AcceptanceStall => "acceptance-stall"
    case BudgetBurn => "budget-burn"
  }

  function ClassOf(d: Detector): FindingClass {
    match d
    case ExactRepetition => RepetitionClass
    case Cycle => RepetitionClass
    case RepeatedError => RepetitionClass
    case UnchangedState => NoProgressClass
    case AcceptanceStall => NoProgressClass
    case BudgetBurn => BudgetClass
  }

  function WindowSize(d: Detector, p: RunPolicy): nat {
    if ClassOf(d) == RepetitionClass then p.repetitionEvents else p.noProgressEvents
  }

  /** The last `size` events. */
  function WindowOf(s: Trace, size: nat): Trace {
    if |s| <= size then s else s[|s| - size..]
  }

  ghost function VerdictsOf(d: Detector, s: Trace): Verdicts {
    match d
    case ExactRepetition => ExactRepetition.RepetitionVerdicts(s)
    case Cycle => CycleDetection.CycleVerdicts(s)
    case RepeatedError => RepeatedError.ErrorVerdicts(s)
    case UnchangedState => UnchangedState.UnchangedVerdicts(s)
    case AcceptanceStall => AcceptanceStall.StallVerdicts(s)
    case BudgetBurn => BudgetBurn.BurnVerdicts(s)
  }

  ghost function OutcomeOf(d: Detector, s: Trace): Option<Outcome> {
    FirstOutcome(VerdictsOf(d, s))
  }

  method Scan(d: Detector, window: Trace) returns (outcome: Option<Outcome>)
    requires Contiguous(window) && UniqueIds(window)
    ensures outcome == OutcomeOf(d, window)
  {
    match d
    case ExactRepetition => outcome := ExactRepetition.DetectExactRepetition(window);
    case Cycle => outcome := CycleDetection.DetectCycle(window);
    case RepeatedError => outcome := RepeatedError.DetectRepeatedError(window);
    case UnchangedState => outcome := UnchangedState.DetectUnchangedState(window);
    case AcceptanceStall => outcome := AcceptanceStall.DetectAcceptanceStall(window);
    case BudgetBurn => outcome := BudgetBurn.DetectBudgetBurn(window);
  }

  // ----------------------------------------------------------------- boundary

  datatype DetectorError =
    | EmptyTraceWindow | DuplicateEventId | RunIdMismatch | SequenceGap
    | InvalidIdentity | InvalidFinding

  ghost predicate SameRun(s: Trace) {
    forall i | 0 <= i < |s| :: s[i].runId == s[0].runId
  }

  ghost predicate NoGap(s: Trace) {
    forall i | 0 <= i < |s| - 1 :: s[i + 1].sequence == s[i].sequence + 1
  }

  /** The checks in the order in which they are made. */
  ghost function TraceProblem(s: Trace): Option<DetectorError> {
    if s == [] then Some(EmptyTraceWindow)
    else if !UniqueIds(s) then Some(DuplicateEventId)
    else if !SameRun(s) then Some(RunIdMismatch)
    else if !NoGap(s) then Some(SequenceGap)
    else None
  }

  ghost predicate ValidTrace(s: Trace) {
    TraceProblem(s).None?
  }

  method CheckIds(s: Trace) returns (ok: bool)
    ensures ok <==> UniqueIds(s)
  {
    var seen: set<string> := {};
    for i := 0 to |s|
      invariant forall id :: id in seen <==> exists k :: 0 <= k < i && s[k].eventId == id
      invariant forall k, m | 0 <= k < m < i :: s[k].eventId != s[m].eventId
    {
      if s[i].eventId in seen {
        return false;
      }
      seen := seen + {s[i].eventId};
    }
    return true;
  }

  method CheckTrace(s: Trace) returns (problem: Option<DetectorError>)
    ensures problem == TraceProblem(s)
  {
    if s == [] {
      return Some(EmptyTraceWindow);
    }
    var unique := CheckIds(s);
    if !unique {
      return Some(DuplicateEventId);
    }
    if exists i | 0 <= i < |s| :: s[i].runId != s[0].runId {
      return Some(RunIdMismatch);
    }
    if exists i | 0 <= i < |s| - 1 :: s[i + 1].sequence != s[i].sequence + 1 {
      return Some(SequenceGap);
    }
    return None;
  }

  lemma {:induction false} SuffixHasUniqueIds(s: Trace, from: nat)
    requires UniqueIds(s) && from <= |s|
    ensures UniqueIds(s[from..])
  {
    var w := s[from..];
    forall i, j | 0 <= i < j < |w|
      ensures w[i].eventId != w[j].eventId
    {
      assert w[i] == s[from + i] && w[j] == s[from + j];
    }
  }

  lemma {:induction false} ValidIsContiguous(s: Trace)
    requires ValidTrace(s)
    ensures s != [] && Contiguous(s) && UniqueIds(s)
  {
  }

  lemma {:induction false} SuffixIsValid(s: Trace, from: nat)
    requires Contiguous(s) && UniqueIds(s) && from < |s|
    ensures Contiguous(s[from..]) && UniqueIds(s[from..])
  {
    SuffixHasUniqueIds(s, from);
    SliceIsContiguous(s, from, |s|);
    assert s[from..|s|] == s[from..];
  }

  /** One run: every event carries the first one's run id. */
  lemma {:induction false} RunOfWindow(s: Trace, i: nat)
    requires Contiguous(s) && i < |s|
    ensures s[i].runId == s[0].runId
  {
    if i > 0 {
      RunOfWindow(s, i - 1);
      assert s[(i - 1) + 1].runId == s[i - 1].runId;
    }
  }

  lemma {:induction false} WindowIsValid(s: Trace, size: nat)
    requires ValidTrace(s) && size > 0
    ensures var w := WindowOf(s, size);
      w != [] && Contiguous(w) && UniqueIds(w) && w[|w| - 1] == s[|s| - 1] && w[0].runId == s[0].runId
  {
    ValidIsContiguous(s);
    if |s| > size {
      SuffixIsValid(s, |s| - size);
      RunOfWindow(s, |s| - size);
    }
  }

  function IdsAt(s: Trace, positions: seq<nat>): seq<string>
    requires forall i | 0 <= i < |positions| :: positions[i] < |s|
  {
    seq(|positions|, i requires 0 <= i < |positions| => s[positions[i]].eventId)
  }

  function Truncate(ids: seq<string>): seq<string> {
    if |ids| <= MAX_SUPPORT then ids else ids[..MAX_SUPPORT]
  }

  /** A finding of a deterministic detector. Its score is 0 or 1, so the threshold of
      its class decides nothing once it is a fraction. */
  function MakeFinding(d: Detector, runId: string, p: RunPolicy, ids: seq<string>,
        candidate: bool): Result<Finding, DetectorError> {
    var support := Truncate(Dedup(ids));
    var score := if candidate then 1.0 else 0.0;
    var finding := Finding(runId, Derived(NameOf(d), runId, support),
                           candidate && score >= p.thresholds.Of(ClassOf(d)),
                           score, ClassOf(d), support, ReasonOf(ClassOf(d)), Available);
    if ValidFinding(finding) then Ok(finding) else Err(InvalidFinding)
  }

  ghost predicate InWindow(s: Trace, outcome: Option<Outcome>) {
    outcome.Some? && outcome.value.Match? ==>
      forall i | 0 <= i < |outcome.value.support| :: outcome.value.support[i] < |s|
  }

  /** The finding a scan outcome is reported as. */
  ghost function Report(d: Detector, w: Trace, p: RunPolicy, outcome: Option<Outcome>): Result<Finding, DetectorError>
    requires w != [] && InWindow(w, outcome)
  {
    match outcome
    case None => MakeFinding(d, w[0].runId, p, [w[|w| - 1].eventId], false)
    case Some(Fail) => Err(InvalidIdentity)
    case Some(Match(support)) => MakeFinding(d, w[0].runId, p, IdsAt(w, support), true)
  }

  lemma {:induction false} VerdictInWindow(d: Detector, s: Trace, j: nat)
    requires j < |s| == |VerdictsOf(d, s)|
    ensures InWindow(s, VerdictsOf(d, s)[j])
  {
    if VerdictsOf(d, s)[j].Some? && VerdictsOf(d, s)[j].value.Match? {
      match d {
        case ExactRepetition => ExactRepetition.SupportInWindow(s, j);
        case Cycle => CycleDetection.SupportInWindow(s, j);
        case RepeatedError => RepeatedError.SupportInWindow(s, j);
        case UnchangedState => UnchangedState.SupportInWindow(s, j);
        case AcceptanceStall => AcceptanceStall.SupportInWindow(s, j);
        case BudgetBurn => BudgetBurn.SupportInWindow(s, j);
      }
      var support := VerdictsOf(d, s)[j].value.support;
      assert forall i | 0 <= i < |support| :: support[i] in support;
    }
  }

  lemma {:induction false} OutcomeInWindow(d: Detector, s: Trace)
    ensures InWindow(s, OutcomeOf(d, s))
  {
    if OutcomeOf(d, s).Some? {
      var n := OutcomeIsFirst(VerdictsOf(d, s));
      VerdictInWindow(d, s, n);
    }
  }

  /** The detector, as a function of its inputs. */
  ghost function DetectionOf(d: Detector, s: Trace, p: RunPolicy): Result<Finding, DetectorError>
    requires WithinContract(p)
  {
    if TraceProblem(s).Some? then Err(TraceProblem(s).value)
    else
      var w := WindowOf(s, WindowSize(d, p));
      WindowIsValid(s, WindowSize(d, p));
      OutcomeInWindow(d, w);
      Report(d, w, p, OutcomeOf(d, w))
  }

  method Detect(d: Detector, s: Trace, p: RunPolicy) returns (r: Result<Finding, DetectorError>)
    requires WithinContract(p)
    ensures r == DetectionOf(d, s, p)
  {
    var problem := CheckTrace(s);
    if problem.Some? {
      return Err(problem.value);
    }
    var w := WindowOf(s, WindowSize(d, p));
    WindowIsValid(s, WindowSize(d, p));
    OutcomeInWindow(d, w);
    var outcome := Scan(d, w);
    match outcome
    case None => return MakeFinding(d, w[0].runId, p, [w[|w| - 1].eventId], false);
    case Some(Fail) => return Err(InvalidIdentity);
    case Some(Match(support)) => return MakeFinding(d, w[0].runId, p, IdsAt(w, support), true);
  }

  // -------------------------------------------------------------- what it reports

  /** A finding is matched, with score 1, exactly when the scan of its window completed a
      candidate. The threshold of its class plays no part. */
  lemma {:induction false} DetectionMeaning(d: Detector, s: Trace, p: RunPolicy)
    requires WithinContract(p) && ValidTrace(s) && DetectionOf(d, s, p).Ok?
    ensures var f := DetectionOf(d, s, p).value;
      && f.findingClass == ClassOf(d) && f.reason == ReasonOf(ClassOf(d)) && f.availability.Available?
      && (f.matched <==> OutcomeOf(d, WindowOf(s, WindowSize(d, p))).Some?)
      && (f.matched ==> OutcomeOf(d, WindowOf(s, WindowSize(d, p))).value.Match? && f.score == 1.0)
  {
    var w := WindowOf(s, WindowSize(d, p));
    WindowIsValid(s, WindowSize(d, p));
    OutcomeInWindow(d, w);
    ReportMeaning(d, w, p, OutcomeOf(d, w));
  }

  lemma {:induction false} ReportMeaning(d: Detector, w: Trace, p: RunPolicy, outcome: Option<Outcome>)
    requires w != [] && InWindow(w, outcome) && WithinContract(p) && Report(d, w, p, outcome).Ok?
    ensures var f := Report(d, w, p, outcome).value;
      && f.findingClass == ClassOf(d) && f.reason == ReasonOf(ClassOf(d)) && f.availability.Available?
      && (f.matched <==> outcome.Some?)
      && (f.matched ==> outcome.value.Match? && f.score == 1.0)
  {
    ThresholdIsFraction(p, ClassOf(d));
  }

  lemma {:induction false} ThresholdIsFraction(p: RunPolicy, c: FindingClass)
    requires WithinContract(p)
    ensures Fraction(p.thresholds.Of(c))
  {
    match c
    case RepetitionClass =>
    case NoProgressClass =>
    case RiskClass =>
    case BudgetClass =>
  }

  ghost predicate Quotes(ids: seq<string>, s: Trace) {
    forall id | id in ids :: exists e :: e in s && e.eventId == id
  }

  lemma {:induction false} IdsQuote(s: Trace, w: Trace, positions: seq<nat>)
    requires forall i | 0 <= i < |positions| :: positions[i] < |w|
    requires forall e | e in w :: e in s
    ensures Quotes(Truncate(Dedup(IdsAt(w, positions))), s)
  {
    var ids := IdsAt(w, positions);
    DedupMeaning(ids);
    forall id | id in Truncate(Dedup(ids))
      ensures exists e :: e in s && e.eventId == id
    {
      assert id in ids;
      var i :| 0 <= i < |ids| && ids[i] == id;
      assert w[positions[i]] in w;
    }
  }

  /** Every supporting event of a finding is an event of the trace. */
  lemma {:induction false} DetectionQuotesTrace(d: Detector, s: Trace, p: RunPolicy)
    requires WithinContract(p) && ValidTrace(s) && DetectionOf(d, s, p).Ok?
    ensures Quotes(DetectionOf(d, s, p).value.eventIds, s)
  {
    var w := WindowOf(s, WindowSize(d, p));
    WindowIsValid(s, WindowSize(d, p));
    OutcomeInWindow(d, w);
    if OutcomeOf(d, w).None? {
      assert [w[|w| - 1].eventId] == IdsAt(w, [|w| - 1]);
      IdsQuote(s, w, [|w| - 1]);
    } else {
      IdsQuote(s, w, OutcomeOf(d, w).value.support);
    }
  }

  predicate SameDetection(p: RunPolicy, q: RunPolicy) {
    p.repetitionEvents == q.repetitionEvents && p.noProgressEvents == q.noProgressEvents && p.thresholds == q.thresholds
  }

  lemma {:induction false} ReportDependsOn(d: Detector, w: Trace, p: RunPolicy, q: RunPolicy, outcome: Option<Outcome>)
    requires w != [] && InWindow(w, outcome) && SameDetection(p, q)
    ensures Report(d, w, p, outcome) == Report(d, w, q, outcome)
  {
  }

  lemma {:induction false} DetectionDependsOn(d: Detector, s: Trace, p: RunPolicy, q: RunPolicy)
    requires WithinContract(p) && WithinContract(q) && SameDetection(p, q)
    ensures DetectionOf(d, s, p) == DetectionOf(d, s, q)
  {
    if ValidTrace(s) {
      var w := WindowOf(s, WindowSize(d, p));
      WindowIsValid(s, WindowSize(d, p));
      OutcomeInWindow(d, w);
      ReportDependsOn(d, w, p, q, OutcomeOf(d, w));
    }
  }

  /** Where a no-progress detector matches, the classifier denies progress from the first
      to the last supporting event. */
  lemma {:induction false} NoProgressMatch(d: Detector, w: Trace)
    requires ClassOf(d) == NoProgressClass && OutcomeOf(d, w).Some? && OutcomeOf(d, w).value.Match?
    ensures var support := OutcomeOf(d, w).value.support;
      support != [] && support[0] < support[|support| - 1] < |w| &&
        !ShowsProgress(w[support[0]..support[|support| - 1] + 1])
  {
    var n := OutcomeIsFirst(VerdictsOf(d, w));
    if d.UnchangedState? {
      UnchangedState.UnchangedMeansUnchanged(w, n, n);
    } else {
      AcceptanceStall.StallMeansStalled(w, n);
    }
  }

  // --------------------------------------------------------- prefix stability

  /** Every verdict depends on the events up to its own only. */
  lemma {:induction false} VerdictsLocal(d: Detector, s: Trace, t: Trace)
    ensures |VerdictsOf(d, s)| == |s|
    ensures VerdictsOf(d, s) <= VerdictsOf(d, s + t)
  {
    forall j: nat | j < |s|
      ensures VerdictsOf(d, s + t)[j] == VerdictsOf(d, s)[j]
    {
      match d
      case ExactRepetition => ExactRepetition.RepetitionVerdictLocal(s, t, j);
      case Cycle => CycleDetection.CycleVerdictLocal(s, t, j);
      case RepeatedError => RepeatedError.ErrorVerdictLocal(s, t, j);
      case UnchangedState => UnchangedState.UnchangedVerdictLocal(s, t, j);
      case AcceptanceStall => AcceptanceStall.StallVerdictLocal(s, t, j);
      case BudgetBurn => BudgetBurn.BurnVerdictLocal(s, t, j);
    }
  }

  lemma {:induction false} ReportLocal(d: Detector, s: Trace, t: Trace, p: RunPolicy, outcome: Option<Outcome>)
    requires s != [] && outcome.Some? && InWindow(s, outcome) && InWindow(s + t, outcome)
    ensures Report(d, s + t, p, outcome) == Report(d, s, p, outcome)
  {
    if outcome.value.Match? {
      assert IdsAt(s + t, outcome.value.support) == IdsAt(s, outcome.value.support);
    }
  }

  lemma {:induction false} OutcomeLocal(d: Detector, s: Trace, t: Trace)
    requires OutcomeOf(d, s).Some?
    ensures OutcomeOf(d, s + t) == OutcomeOf(d, s)
  {
    VerdictsLocal(d, s, t);
    var more := VerdictsOf(d, s + t)[|s|..];
    assert VerdictsOf(d, s) + more == VerdictsOf(d, s + t);
    OutcomeIsStable(VerdictsOf(d, s), more);
  }

  /** While the trace fits the window, a reached outcome is final: every extension of
      the trace gets the same finding, with the same support, or the same failure. */
  lemma {:induction false} DetectionIsStable(d: Detector, s: Trace, t: Trace, p: RunPolicy)
    requires WithinContract(p) && ValidTrace(s) && ValidTrace(s + t)
    requires |s + t| <= WindowSize(d, p)
    requires OutcomeOf(d, s).Some?
    ensures DetectionOf(d, s + t, p) == DetectionOf(d, s, p)
  {
    OutcomeLocal(d, s, t);
    OutcomeInWindow(d, s);
    OutcomeInWindow(d, s + t);
    ReportLocal(d, s, t, p, OutcomeOf(d, s));
  }

  /** A matched finding stays: same id, same support, same score. */
  lemma {:induction false} MatchIsStable(d: Detector, s: Trace, t: Trace, p: RunPolicy)
    requires WithinContract(p) && ValidTrace(s) && ValidTrace(s + t)
    requires |s + t| <= WindowSize(d, p)
    requires DetectionOf(d, s, p).Ok? && DetectionOf(d, s, p).value.matched
    ensures DetectionOf(d, s + t, p) == DetectionOf(d, s, p)
  {
    OutcomeInWindow(d, s);
    DetectionIsStable(d, s, t, p);
  }
}

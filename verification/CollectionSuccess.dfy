/** When the findings of an analysis can be collected, in terms of the trace: every event
    that is named has an id the finding contract accepts, and every call and result that
    has to be compared has an identity. */
module CollectionSuccess {
  import opened Prelude
  import opened FirstOutcomes
  import opened TraceEvents
  import opened RunPolicies
  import opened DetectorOutcomes
  import opened Detectors
  import opened HardStops
  import opened Envelopes
  import opened EnvelopeTheorems
  import opened Controller
  import opened AnalysisTheorems
  import opened AnalysisSuccess
  import Decisions
  import Diagnosis
  import ExactRepetition
  import CycleDetection
  import RepeatedError
  import UnchangedState
  import AcceptanceStall
  import BudgetBurn

  // --------------------------------------------------------------- one detector

  lemma {:induction false} RepetitionSupport(w: Trace, j: nat)
    requires j < |w| && ExactRepetition.RepetitionVerdicts(w)[j].Some?
    requires ExactRepetition.RepetitionVerdicts(w)[j].value.Match?
    ensures |ExactRepetition.RepetitionVerdicts(w)[j].value.support| == 4
  {
    ExactRepetition.DecidesExactly(w, j);
    var support := ExactRepetition.RepetitionVerdicts(w)[j].value.support;
    assert |support| == |multiset(support)|;
  }

  lemma {:induction false} CycleSupport(w: Trace, j: nat)
    requires j < |w| && CycleDetection.CycleVerdicts(w)[j].Some?
    ensures CycleDetection.CycleVerdicts(w)[j].value.Match?
    ensures 3 <= |CycleDetection.CycleVerdicts(w)[j].value.support| <= 6
  {
    var from := CycleDetection.VerdictRecurs(w, j);
    CycleDetection.PlaceOf(w, from, j + 1);
  }

  lemma {:induction false} ErrorSupport(w: Trace, j: nat)
    requires j < |w| && RepeatedError.ErrorVerdicts(w)[j].Some? && RepeatedError.ErrorVerdicts(w)[j].value.Match?
    ensures |RepeatedError.ErrorVerdicts(w)[j].value.support| == 2
  {
    RepeatedError.DecidesExactly(w, j);
  }

  /** No detector reports more than six events, and none reports none. */
  lemma {:induction false} SupportSize(d: Detector, w: Trace)
    requires OutcomeOf(d, w).Some? && OutcomeOf(d, w).value.Match?
    ensures 0 < |OutcomeOf(d, w).value.support| <= 6
  {
    var j := OutcomeIsFirst(VerdictsOf(d, w));
    VerdictsLocal(d, w, []);
    match d
    case ExactRepetition => RepetitionSupport(w, j);
    case Cycle => CycleSupport(w, j);
    case RepeatedError => ErrorSupport(w, j);
    case UnchangedState =>
    case AcceptanceStall => AcceptanceStall.StallMeansStalled(w, j);
    case BudgetBurn =>
  }

  /** The event ids in the finding of a detector. */
  ghost function NamedBy(d: Detector, w: Trace): seq<string>
    requires w != []
  {
    OutcomeInWindow(d, w);
    match OutcomeOf(d, w)
    case Some(Match(support)) => IdsAt(w, support)
    case _ => [w[|w| - 1].eventId]
  }

  ghost predicate AcceptsNames(ids: seq<string>) {
    forall id | id in ids :: SchemaIdentifier(id)
  }

  /** Exactly when a detector has a finding. */
  ghost predicate Detectable(d: Detector, s: Trace, p: RunPolicy)
    requires WithinContract(p) && s != []
  {
    var w := WindowOf(s, WindowSize(d, p));
    OutcomeOf(d, w) != Some(Fail) && AcceptsNames(NamedBy(d, w))
  }

  lemma {:induction false} DetectsExactly(d: Detector, s: Trace, p: RunPolicy)
    requires WithinContract(p) && ValidTrace(s) && s != []
    ensures DetectionOf(d, s, p).Ok? <==> SchemaIdentifier(s[0].runId) && Detectable(d, s, p)
  {
    var w := WindowOf(s, WindowSize(d, p));
    WindowIsValid(s, WindowSize(d, p));
    OutcomeInWindow(d, w);
    if OutcomeOf(d, w) != Some(Fail) {
      if OutcomeOf(d, w).Some? {
        SupportSize(d, w);
      }
      MakesFinding(d, w[0].runId, p, NamedBy(d, w), OutcomeOf(d, w).Some?);
    }
  }

  // ------------------------------------------------------------------ hard stops

  ghost predicate FirstReach(s: Trace, limit: BudgetCounters, j: nat) {
    j < |s| && Reaches(s[j], limit) && forall k | 0 <= k < j :: !Reaches(s[k], limit)
  }

  lemma {:induction false} BudgetFailsExactly(s: Trace, limit: BudgetCounters)
    requires Contiguous(s) && s != [] && SchemaIdentifier(s[0].runId)
    ensures Failed(HardBudgetOf(s, limit)) <==>
      exists j: nat :: FirstReach(s, limit, j) && !SchemaIdentifier(s[j].eventId)
  {
    BudgetMeaning(s, limit);
    forall j: nat | FirstReach(s, limit, j)
      ensures HardBudgetOf(s, limit) == Some(BudgetFinding(s[j]))
      ensures BudgetFinding(s[j]).Err? <==> !SchemaIdentifier(s[j].eventId)
    {
      RunOfWindow(s, j);
    }
  }

  /** Call `i` is the first with the identity of call `j`. */
  ghost predicate FirstAlike(s: Trace, i: nat, j: nat) {
    i < j < |s| && IdentityOf(s[j]).Ok? && IdentityOf(s[j]).value.Some? &&
    FirstCall(s, IdentityOf(s[j]).value.value, j) == Some(i)
  }

  /** An alarming call without an identity, or one that cannot be named together with the
      first call like it. */
  ghost predicate Unnameable(s: Trace, j: nat)
    requires j < |s|
  {
    HasNoIdentity(s[j]) || !SchemaIdentifier(s[j].eventId) ||
    exists i: nat :: FirstAlike(s, i, j) && !SchemaIdentifier(s[i].eventId)
  }

  lemma {:induction false} SettlesExactly(s: Trace, mayRepeat: bool, j: nat)
    requires Contiguous(s) && UniqueIds(s) && j < |s| && SchemaIdentifier(s[0].runId)
    requires CallSettles(s, mayRepeat, j).Some?
    ensures CallSettles(s, mayRepeat, j).value.Err? <==> Unnameable(s, j)
  {
    RunOfWindow(s, j);
    if !HasNoIdentity(s[j]) {
      var i := FirstCall(s, IdentityOf(s[j]).value.value, j).value;
      assert FirstAlike(s, i, j);
      assert s[i].eventId != s[j].eventId;
    }
  }

  lemma {:induction false} RiskFailsExactly(s: Trace, mayRepeat: bool)
    requires Contiguous(s) && UniqueIds(s) && s != [] && SchemaIdentifier(s[0].runId)
    ensures Failed(HardRiskOf(s, mayRepeat)) <==>
      exists j :: 0 <= j < |s| && FirstAlarm(s, mayRepeat, j) && Unnameable(s, j)
  {
    RiskMeaning(s, mayRepeat);
    if HardRiskOf(s, mayRepeat).Some? {
      var j := FirstSettled(s, mayRepeat);
      SettlesExactly(s, mayRepeat, j);
    }
  }

  /** What settles the scan is the first alarm. */
  lemma {:induction false} FirstSettled(s: Trace, mayRepeat: bool) returns (j: nat)
    requires HardRiskOf(s, mayRepeat).Some?
    ensures j < |s| && FirstAlarm(s, mayRepeat, j) && HardRiskOf(s, mayRepeat) == CallSettles(s, mayRepeat, j)
    ensures forall k | 0 <= k < |s| && FirstAlarm(s, mayRepeat, k) :: k == j
  {
    j := OutcomeIsFirst(RiskSettled(s, mayRepeat, |s|));
    RiskSettledAt(s, mayRepeat, |s|, j);
    SettledIsAlarming(s, mayRepeat, j);
    forall k | 0 <= k < j
      ensures !Alarming(s, mayRepeat, k)
    {
      if Alarming(s, mayRepeat, k) {
        AlarmIsSettled(s, mayRepeat, k);
        var m :| 0 <= m <= k && CallSettles(s, mayRepeat, m).Some?;
        RiskSettledAt(s, mayRepeat, |s|, m);
      }
    }
  }

  // ------------------------------------------------------------------ everything

  /** Everything that has to be named and compared can be. */
  ghost predicate Collectable(s: Trace, p: RunPolicy)
    requires WithinContract(p) && s != []
  {
    && SchemaIdentifier(s[0].runId)
    && (forall k | 0 <= k < |DETECTORS| :: Detectable(DETECTORS[k], s, p))
    && (forall j: nat | FirstReach(s, p.wholeRun, j) :: SchemaIdentifier(s[j].eventId))
    && (forall j | 0 <= j < |s| && FirstAlarm(s, p.repeatsNonIdempotent, j) :: !Unnameable(s, j))
  }

  lemma {:induction false} AllDetectExactly(s: Trace, p: RunPolicy)
    requires WithinContract(p) && ValidTrace(s) && s != []
    ensures AllDetect(s, p) <==>
      SchemaIdentifier(s[0].runId) && forall k | 0 <= k < |DETECTORS| :: Detectable(DETECTORS[k], s, p)
  {
    forall k | 0 <= k < |DETECTORS|
      ensures DetectionOf(DETECTORS[k], s, p).Ok? <==>
        SchemaIdentifier(s[0].runId) && Detectable(DETECTORS[k], s, p)
    {
      DetectsExactly(DETECTORS[k], s, p);
    }
    assert DetectionOf(DETECTORS[0], s, p).Ok? ==> SchemaIdentifier(s[0].runId);
  }

  /** A hard stop has a name of its own. */
  ghost predicate MadeByStop(s: Trace, f: Finding, name: string)
    requires s != []
  {
    ValidFinding(f) && f.runId == s[0].runId && f.id.Derived? && f.id.detector == name
  }

  lemma {:induction false} BudgetStop(s: Trace, limit: BudgetCounters)
    requires Contiguous(s) && s != [] && HardBudgetOf(s, limit).Some? && HardBudgetOf(s, limit).value.Ok?
    ensures MadeByStop(s, HardBudgetOf(s, limit).value.value, "hard-budget")
  {
    BudgetMeaning(s, limit);
    var j :| 0 <= j < |s| && Reaches(s[j], limit) && HardBudgetOf(s, limit).value == BudgetFinding(s[j]);
    RunOfWindow(s, j);
    var f := BudgetFinding(s[j]).value;
    assert f.runId == s[j].runId && ValidFinding(f) && f.id == Derived("hard-budget", s[j].runId, [s[j].eventId]);
  }

  lemma {:induction false} RiskStop(s: Trace, mayRepeat: bool)
    requires Contiguous(s) && s != [] && HardRiskOf(s, mayRepeat).Some? && HardRiskOf(s, mayRepeat).value.Ok?
    ensures MadeByStop(s, HardRiskOf(s, mayRepeat).value.value, "repeated-risky-call")
  {
    var j := FirstSettled(s, mayRepeat);
    RunOfWindow(s, j);
  }

  lemma {:induction false} StopNamesDiffer(d: Detector)
    ensures NameOf(d) != "hard-budget" && NameOf(d) != "repeated-risky-call"
    ensures "hard-budget" != "repeated-risky-call"
  {
    var budget, risk := "hard-budget", "repeated-risky-call";
    assert |budget| == 11 && |risk| == 19 && budget[0] == 'h';
    match d
    case ExactRepetition => assert |NameOf(d)| == 16;
    case Cycle => assert |NameOf(d)| == 5;
    case RepeatedError => assert |NameOf(d)| == 14;
    case UnchangedState => assert |NameOf(d)| == 15;
    case AcceptanceStall => assert |NameOf(d)| == 16;
    case BudgetBurn => assert |NameOf(d)| == 11 && NameOf(d)[0] == 'b';
  }

  /** One more finding with a new name is accepted. */
  lemma {:induction false} OneMoreAccepted(s: Trace, fs: seq<Finding>, f: Finding, name: string)
    requires s != [] && FindingsError(fs, s[0].runId).None? && |fs| < 10 && MadeByStop(s, f, name)
    requires forall g | g in fs :: g.id.Derived? && g.id.detector != name
    ensures FindingsError(fs + [f], s[0].runId).None?
  {
    forall i, j | 0 <= i < j < |fs + [f]|
      ensures (fs + [f])[i].id != (fs + [f])[j].id
    {
      assert fs[i] in fs;
    }
  }

  lemma {:induction false} FoundNames(s: Trace, p: RunPolicy, fs: seq<Finding>)
    requires WithinContract(p) && ValidTrace(s) && FindingsBy(s, p, fs)
    ensures forall g | g in fs ::
      g.id.Derived? && g.id.detector != "hard-budget" && g.id.detector != "repeated-risky-call"
  {
    forall g | g in fs
      ensures g.id.Derived? && g.id.detector != "hard-budget" && g.id.detector != "repeated-risky-call"
    {
      var k :| 0 <= k < |fs| && fs[k] == g;
      DetectionIsMadeBy(DETECTORS[k], s, p);
      StopNamesDiffer(DETECTORS[k]);
    }
  }

  lemma {:induction false} CombinedIsAccepted(s: Trace, p: RunPolicy, fs: seq<Finding>)
    requires WithinContract(p) && ValidTrace(s) && s != [] && FindingsBy(s, p, fs)
    ensures FindingsError(Core(s, p, fs), s[0].runId).None?
  {
    var budget, risk := HardBudgetOf(s, p.wholeRun), HardRiskOf(s, p.repeatsNonIdempotent);
    FindingsAreAccepted(s, p, fs);
    FoundNames(s, p, fs);
    ValidIsContiguous(s);
    StopNamesDiffer(Cycle);
    var withBudget := fs + Stopped(budget);
    if Stopped(budget) != [] {
      BudgetStop(s, p.wholeRun);
      OneMoreAccepted(s, fs, budget.value.value, "hard-budget");
    } else {
      assert withBudget == fs;
    }
    if Stopped(risk) != [] {
      RiskStop(s, p.repeatsNonIdempotent);
      OneMoreAccepted(s, withBudget, risk.value.value, "repeated-risky-call");
    } else {
      assert withBudget + Stopped(risk) == withBudget;
    }
  }

  /** Exactly when the findings of a deterministic analysis are collected. */
  lemma {:induction false} CollectsExactly(s: Trace, p: RunPolicy, answer: SemanticAnswer)
    requires InputProblem(s, p).None? && Deterministic(p, answer, s[0].runId)
    ensures CollectedOf(s, p, answer).Ok? <==> Collectable(s, p)
  {
    ValidIsContiguous(s);
    FindsExactly(s, p);
    AllDetectExactly(s, p);
    if AllDetect(s, p) {
      var found := DetectorFindings(DETECTORS, s, p).value;
      FindingsAreAccepted(s, p, found);
      CombinedIsAccepted(s, p, found);
      BudgetFailsExactly(s, p.wholeRun);
      RiskFailsExactly(s, p.repeatsNonIdempotent);
      assert Core(s, p, found) + [] == Core(s, p, found);
    }
  }

  /** Exactly when a deterministic analysis succeeds: its findings are collected, and what
      they and the trace name is safe and within the limits. */
  lemma {:induction false} SucceedsExactly(s: Trace, p: RunPolicy, answer: SemanticAnswer)
    requires InputProblem(s, p).None? && Deterministic(p, answer, s[0].runId)
    ensures Succeeds(s, p, answer) <==>
      && Collectable(s, p) && CollectedOf(s, p, answer).Ok?
      && var fs := CollectedOf(s, p, answer).value.findings;
         && SafeIdentifier(s[0].runId) && SafelyNamed(s, fs)
         && !Diagnosis.TooMuch(Diagnosis.Readings(s, fs))
         && |Decisions.EvidenceOf(DiagnosisOf(s, fs), fs)| <= Diagnosis.MAX_EVIDENCE
  {
    CollectsExactly(s, p, answer);
    if CollectedOf(s, p, answer).Ok? {
      AnalysisSucceedsExactly(s, p, answer);
    }
  }
}

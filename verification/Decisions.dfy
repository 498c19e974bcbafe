/** From a diagnosis and its findings to one decision: closed safety gates, then the
    least rung of the recovery ladder the policy permits. */
module Decisions {
  import opened Prelude
  import opened TraceEvents
  import opened RunPolicies
  import Diagnosis

  datatype Decision = Continue | Nudge | Diagnose | Reheat | Restart | Escalate | Stop

  datatype RecoveryPolicy = Research | Branch | ModelSwitch

  datatype DecisionReason = SignalsAgree | Detected(what: FindingClass) | HostActionRequired

  datatype Selection = Selection(
    decision: Decision,
    recovery: Option<RecoveryPolicy>,
    reasons: seq<DecisionReason>,
    evidence: seq<string>,
    requiresHostAction: bool)

  datatype SelectionError =
    | InvalidDiagnosis | InvalidRunPolicy | PolicyItemLimit | InvalidDetectorFinding
    | DuplicateFindingId | RunIdMismatch | PolicyEvidenceLimit | InvalidPolicySelection

  const MAX_FINDINGS: nat := 10000

  // ------------------------------------------------------------------- signals

  predicate Observed(fs: seq<Finding>, c: FindingClass) {
    exists f | f in fs :: f.matched && f.findingClass == c
  }

  /** A matched finding of the class, or of any class with that class's reason. */
  predicate Evidence(fs: seq<Finding>, c: FindingClass) {
    exists f | f in fs :: f.matched && (f.findingClass == c || f.reason == ReasonOf(c))
  }

  predicate SignalsGate(fs: seq<Finding>) {
    Observed(fs, RepetitionClass) && Observed(fs, NoProgressClass)
  }

  /** What can only be stopped. */
  predicate MustStop(causes: seq<Diagnosis.Cause>, fs: seq<Finding>) {
    || Evidence(fs, RiskClass) || Evidence(fs, BudgetClass)
    || Diagnosis.UnsafeSideEffect in causes || Diagnosis.ExhaustedBudget in causes
  }

  // ------------------------------------------------------------------ selection

  function DecisionFor(causes: seq<Diagnosis.Cause>, fs: seq<Finding>, p: RunPolicy): Decision {
    if Evidence(fs, RiskClass) || Diagnosis.UnsafeSideEffect in causes then Stop
    else if Evidence(fs, BudgetClass) || Diagnosis.ExhaustedBudget in causes then Stop
    else if Diagnosis.MissingAuthority in causes then
      if p.ladder.escalate.permitted then Escalate else Stop
    else if !SignalsGate(fs) then Continue
    else if p.ladder.nudge.permitted then Nudge
    else if p.ladder.diagnose.permitted then Diagnose
    else if AllowsReheat(p) then Reheat
    else if p.ladder.restart.permitted then Restart
    else if p.ladder.escalate.permitted then Escalate
    else Stop
  }

  function RequiresHost(d: Decision, p: RunPolicy): bool {
    match d
    case Continue => false
    case Nudge => p.ladder.nudge.requiresHostAction
    case Diagnose => p.ladder.diagnose.requiresHostAction
    case Reheat => p.ladder.reheat.requiresHostAction
    case Restart => p.ladder.restart.requiresHostAction
    case Escalate => true
    case Stop => p.ladder.stop.requiresHostAction
  }

  function When<T>(condition: bool, x: T): seq<T> {
    if condition then [x] else []
  }

  function Reasons(fs: seq<Finding>, hostAction: bool): seq<DecisionReason> {
    When(SignalsGate(fs), SignalsAgree) +
    When(Observed(fs, RepetitionClass), Detected(RepetitionClass)) +
    When(Observed(fs, NoProgressClass), Detected(NoProgressClass)) +
    When(Evidence(fs, RiskClass), Detected(RiskClass)) +
    When(Evidence(fs, BudgetClass), Detected(BudgetClass)) +
    When(hostAction, HostActionRequired)
  }

  function RecoveryCause(c: Diagnosis.Cause): Option<RecoveryPolicy> {
    match c
    case MissingKnowledge => Some(Research)
    case IncorrectPlan => Some(Branch)
    case AmbiguousCompletion => Some(Branch)
    case UnsuitableTool => Some(ModelSwitch)
    case RuntimeDefect => Some(ModelSwitch)
    case _ => None
  }

  /** The first cause, in the fixed order, that names a recovery. */
  function FirstRecovery(causes: seq<Diagnosis.Cause>, from: nat): RecoveryPolicy
    requires from <= |Diagnosis.CAUSE_ORDER|
    decreases |Diagnosis.CAUSE_ORDER| - from
  {
    if from == |Diagnosis.CAUSE_ORDER| then Branch
    else
      var cause := Diagnosis.CAUSE_ORDER[from];
      if cause in causes && RecoveryCause(cause).Some? then RecoveryCause(cause).value
      else FirstRecovery(causes, from + 1)
  }

  function RecoveryFor(d: Decision, causes: seq<Diagnosis.Cause>): Option<RecoveryPolicy> {
    if d in {Reheat, Restart} then Some(FirstRecovery(causes, 0)) else None
  }

  function SelectionWith(causes: seq<Diagnosis.Cause>, fs: seq<Finding>, p: RunPolicy,
        evidence: seq<string>): Selection {
    var decision := DecisionFor(causes, fs, p);
    if decision.Continue? then Selection(Continue, None, [], evidence, false)
    else
      Selection(decision, RecoveryFor(decision, causes), Reasons(fs, RequiresHost(decision, p)), evidence,
                RequiresHost(decision, p))
  }

  /** The selection record's own state check. */
  predicate ValidSelection(x: Selection) {
    && Distinct(x.reasons)
    && Distinct(x.evidence) && |x.evidence| <= Diagnosis.MAX_EVIDENCE
    && (forall id | id in x.evidence :: SafeIdentifier(id))
    && (x.recovery.Some? ==> x.decision in {Reheat, Restart})
    && !(x.decision.Continue? && x.requiresHostAction)
  }

  predicate DistinctIds(fs: seq<Finding>) {
    forall i, j | 0 <= i < j < |fs| :: fs[i].id != fs[j].id
  }

  /** The supporting events of the matched findings, in order. */
  ghost function MatchedSupport(fs: seq<Finding>, n: nat): seq<string>
    requires n <= |fs|
  {
    if n == 0 then [] else MatchedSupport(fs, n - 1) + if fs[n - 1].matched then fs[n - 1].eventIds else []
  }

  /** Everything the evidence is collected from, up to the first `n` findings. */
  ghost function Stream(evidence: seq<string>, fs: seq<Finding>, n: nat): seq<string>
    requires n <= |fs|
  {
    evidence + MatchedSupport(fs, n)
  }

  ghost function EvidenceOf(d: Diagnosis.Record, fs: seq<Finding>): seq<string> {
    Dedup(Stream(d.evidence, fs, |fs|))
  }

  function FindingsProblem(d: Diagnosis.Record, fs: seq<Finding>): Option<SelectionError> {
    if |fs| > MAX_FINDINGS then Some(PolicyItemLimit)
    else if exists f | f in fs :: !ValidFinding(f) then Some(InvalidDetectorFinding)
    else if !DistinctIds(fs) then Some(DuplicateFindingId)
    else if exists f | f in fs :: f.runId != d.runId then Some(RunIdMismatch)
    else None
  }

  ghost function SelectionOf(d: Diagnosis.Record, fs: seq<Finding>, p: RunPolicy): Result<Selection, SelectionError> {
    if !Diagnosis.ValidRecord(d) then Err(InvalidDiagnosis)
    else if !ValidPolicy(p) then Err(InvalidRunPolicy)
    else if FindingsProblem(d, fs).Some? then Err(FindingsProblem(d, fs).value)
    else if |EvidenceOf(d, fs)| > Diagnosis.MAX_EVIDENCE then Err(PolicyEvidenceLimit)
    else
      var selection := SelectionWith(d.causes, fs, p, EvidenceOf(d, fs));
      if ValidSelection(selection) then Ok(selection) else Err(InvalidPolicySelection)
  }

  lemma {:induction false} StreamStep(evidence: seq<string>, fs: seq<Finding>, n: nat)
    requires n < |fs|
    ensures Stream(evidence, fs, n + 1) == Stream(evidence, fs, n) + if fs[n].matched then fs[n].eventIds else []
  {
  }

  lemma {:induction false} StreamStart(evidence: seq<string>, fs: seq<Finding>)
    requires Distinct(evidence)
    ensures Dedup(Stream(evidence, fs, 0)) == evidence
  {
    DedupOfDistinct(evidence);
    assert Stream(evidence, fs, 0) == evidence;
  }

  /** Once there is too much evidence, more findings do not help. */
  lemma {:induction false} SupportGrows(evidence: seq<string>, fs: seq<Finding>, m: nat, n: nat)
    requires m <= n <= |fs|
    ensures |Dedup(Stream(evidence, fs, m))| <= |Dedup(Stream(evidence, fs, n))|
  {
    if m < n {
      SupportGrows(evidence, fs, m, n - 1);
      StreamStep(evidence, fs, n - 1);
      DedupPrefix(Stream(evidence, fs, n - 1), if fs[n - 1].matched then fs[n - 1].eventIds else []);
    }
  }

  method CollectEvidence(d: Diagnosis.Record, fs: seq<Finding>) returns (r: Option<seq<string>>)
    requires Diagnosis.ValidRecord(d)
    ensures r.None? <==> |EvidenceOf(d, fs)| > Diagnosis.MAX_EVIDENCE
    ensures r.Some? ==> r.value == EvidenceOf(d, fs)
  {
    StreamStart(d.evidence, fs);
    var evidence := d.evidence;
    for n := 0 to |fs|
      invariant evidence == Dedup(Stream(d.evidence, fs, n)) && |evidence| <= Diagnosis.MAX_EVIDENCE
    {
      StreamStep(d.evidence, fs, n);
      if fs[n].matched {
        var longer := AppendNew(evidence, Stream(d.evidence, fs, n), fs[n].eventIds, Diagnosis.MAX_EVIDENCE);
        if longer.None? {
          SupportGrows(d.evidence, fs, n + 1, |fs|);
          return None;
        }
        evidence := longer.value;
      } else {
        assert Stream(d.evidence, fs, n) + [] == Stream(d.evidence, fs, n);
      }
    }
    return Some(evidence);
  }

  method SelectRecoveryPolicy(d: Diagnosis.Record, fs: seq<Finding>, p: RunPolicy)
    returns (r: Result<Selection, SelectionError>)
    ensures r == SelectionOf(d, fs, p)
  {
    if !Diagnosis.ValidRecord(d) {
      return Err(InvalidDiagnosis);
    }
    if !ValidPolicy(p) {
      return Err(InvalidRunPolicy);
    }
    var problem := FindingsProblem(d, fs);
    if problem.Some? {
      return Err(problem.value);
    }
    var evidence := CollectEvidence(d, fs);
    if evidence.None? {
      return Err(PolicyEvidenceLimit);
    }
    var selection := SelectionWith(d.causes, fs, p, evidence.value);
    return if ValidSelection(selection) then Ok(selection) else Err(InvalidPolicySelection);
  }

  // -------------------------------------------------------------- its properties

  /** For a safe policy the two fallbacks to a stop cannot be taken: a decision stops
      exactly on risk or budget evidence, or on a cause of either. */
  lemma {:induction false} StopsExactly(causes: seq<Diagnosis.Cause>, fs: seq<Finding>, p: RunPolicy)
    requires IsSafe(p)
    ensures DecisionFor(causes, fs, p).Stop? <==> MustStop(causes, fs)
  {
  }

  /** The ladder's rungs from the least to the most expensive. */
  const RUNGS: seq<Decision> := [Nudge, Diagnose, Reheat, Restart]

  predicate Permitted(d: Decision, p: RunPolicy) {
    match d
    case Nudge => p.ladder.nudge.permitted
    case Diagnose => p.ladder.diagnose.permitted
    case Reheat => p.ladder.reheat.permitted && p.maxRecoveryEpisodes > 0
    case Restart => p.ladder.restart.permitted
    case _ => true
  }

  /** Only independent agreement of both signals reaches the ladder, and then the least
      permitted rung is taken. */
  lemma {:induction false} LeastPermittedRung(causes: seq<Diagnosis.Cause>, fs: seq<Finding>, p: RunPolicy, k: nat)
    requires k < |RUNGS|
    ensures DecisionFor(causes, fs, p) == RUNGS[k] <==>
      && SignalsGate(fs) && !MustStop(causes, fs) && Diagnosis.MissingAuthority !in causes
      && Permitted(RUNGS[k], p) && forall i | 0 <= i < k :: !Permitted(RUNGS[i], p)
  {
    assert RUNGS[0] == Nudge && RUNGS[1] == Diagnose && RUNGS[2] == Reheat && RUNGS[3] == Restart;
  }

  /** An order on decisions by how much they let automation go on. */
  function Severity(d: Decision): nat {
    match d
    case Continue => 0
    case Escalate => 2
    case Stop => 3
    case _ => 1
  }

  lemma {:induction false} ObservedMore(fs: seq<Finding>, f: Finding, c: FindingClass)
    ensures Observed(fs + [f], c) <==> Observed(fs, c) || (f.matched && f.findingClass == c)
    ensures Evidence(fs + [f], c) <==>
      Evidence(fs, c) || (f.matched && (f.findingClass == c || f.reason == ReasonOf(c)))
  {
    assert f in fs + [f];
    forall g | g in fs
      ensures g in fs + [f]
    {
    }
  }

  /** Evidence of risk or of an exhausted budget, in its class or in its reason. */
  predicate IsHardEvidence(f: Finding) {
    f.matched && (f.findingClass in {RiskClass, BudgetClass} || f.reason in {RiskDetected, BudgetLimitReached})
  }

  /** One more finding never relaxes a decision. It keeps it, or stops, or - only where
      nothing but monitoring was going on - completes the gate. */
  lemma {:induction false} AnotherFindingNeverRelaxes(causes: seq<Diagnosis.Cause>, fs: seq<Finding>,
        f: Finding, p: RunPolicy)
    requires IsSafe(p)
    ensures var before, after := DecisionFor(causes, fs, p), DecisionFor(causes, fs + [f], p);
      && Severity(before) <= Severity(after)
      && (after == before || after.Stop? || before.Continue?)
      && (after.Stop? ==> before.Stop? || IsHardEvidence(f))
  {
    ObservedMore(fs, f, RiskClass);
    ObservedMore(fs, f, BudgetClass);
    ObservedMore(fs, f, RepetitionClass);
    ObservedMore(fs, f, NoProgressClass);
  }

  /** Which recovery a reheat or restart recommends, cause by cause. */
  lemma {:induction false} RecoveryMeaning(causes: seq<Diagnosis.Cause>, d: Decision)
    requires d in {Reheat, Restart}
    ensures RecoveryFor(d, causes) == Some(
      if Diagnosis.MissingKnowledge in causes then Research
      else if Diagnosis.IncorrectPlan in causes then Branch
      else if Diagnosis.UnsuitableTool in causes || Diagnosis.RuntimeDefect in causes then ModelSwitch
      else Branch)
  {
    RecoveryUnfolds(causes, 0, 4);
    RecoveryUnfolds(causes, 4, 8);
    assert FirstRecovery(causes, 8) == Branch;
  }

  lemma {:induction false} RecoveryStep(causes: seq<Diagnosis.Cause>, from: nat)
    requires from < |Diagnosis.CAUSE_ORDER|
    ensures var c := Diagnosis.CAUSE_ORDER[from];
      FirstRecovery(causes, from) ==
        if c in causes && RecoveryCause(c).Some? then RecoveryCause(c).value else FirstRecovery(causes, from + 1)
  {
  }

  /** Four steps of the search at once. */
  lemma {:induction false} RecoveryUnfolds(causes: seq<Diagnosis.Cause>, from: nat, to: nat)
    requires from + 4 == to <= |Diagnosis.CAUSE_ORDER|
    ensures FirstRecovery(causes, from) ==
      var c0, c1 := Diagnosis.CAUSE_ORDER[from], Diagnosis.CAUSE_ORDER[from + 1];
      var c2, c3 := Diagnosis.CAUSE_ORDER[from + 2], Diagnosis.CAUSE_ORDER[from + 3];
      if c0 in causes && RecoveryCause(c0).Some? then RecoveryCause(c0).value
      else if c1 in causes && RecoveryCause(c1).Some? then RecoveryCause(c1).value
      else if c2 in causes && RecoveryCause(c2).Some? then RecoveryCause(c2).value
      else if c3 in causes && RecoveryCause(c3).Some? then RecoveryCause(c3).value
      else FirstRecovery(causes, to)
  {
    RecoveryStep(causes, from);
    RecoveryStep(causes, from + 1);
    RecoveryStep(causes, from + 2);
    RecoveryStep(causes, from + 3);
  }

  lemma {:induction false} EvidenceMeaning(d: Diagnosis.Record, fs: seq<Finding>)
    requires Diagnosis.ValidRecord(d)
    ensures Distinct(EvidenceOf(d, fs)) && d.evidence <= EvidenceOf(d, fs)
    ensures forall id :: id in EvidenceOf(d, fs) <==>
      id in d.evidence || exists f :: f in fs && f.matched && id in f.eventIds
  {
    DedupMeaning(d.evidence + MatchedSupport(fs, |fs|));
    DedupPrefix(d.evidence, MatchedSupport(fs, |fs|));
    DedupOfDistinct(d.evidence);
    forall id
      ensures id in MatchedSupport(fs, |fs|) <==> exists f :: f in fs && f.matched && id in f.eventIds
    {
      SupportMeaning(fs, |fs|, id);
      if f :| f in fs && f.matched && id in f.eventIds {
        var i :| 0 <= i < |fs| && fs[i] == f;
      }
    }
  }

  lemma {:induction false} SupportMeaning(fs: seq<Finding>, n: nat, id: string)
    requires n <= |fs|
    ensures id in MatchedSupport(fs, n) <==> exists i :: 0 <= i < n && fs[i].matched && id in fs[i].eventIds
  {
    if n > 0 {
      SupportMeaning(fs, n - 1, id);
    }
  }

  lemma {:induction false} OneMore(xs: seq<DecisionReason>, condition: bool, x: DecisionReason)
    returns (ys: seq<DecisionReason>)
    requires Distinct(xs) && x !in xs
    ensures ys == xs + When(condition, x) && Distinct(ys)
    ensures forall y | y in ys :: y in xs || y == x
  {
    ys := xs + When(condition, x);
  }

  lemma {:induction false} ReasonsAreDistinct(fs: seq<Finding>, hostAction: bool)
    ensures Distinct(Reasons(fs, hostAction))
  {
    var r0 := When(SignalsGate(fs), SignalsAgree);
    var r1 := OneMore(r0, Observed(fs, RepetitionClass), Detected(RepetitionClass));
    var r2 := OneMore(r1, Observed(fs, NoProgressClass), Detected(NoProgressClass));
    var r3 := OneMore(r2, Evidence(fs, RiskClass), Detected(RiskClass));
    var r4 := OneMore(r3, Evidence(fs, BudgetClass), Detected(BudgetClass));
    var r5 := OneMore(r4, hostAction, HostActionRequired);
    assert Reasons(fs, hostAction) == r5;
  }

  /** Of the record's own checks, only one can fail: a finding may name an event whose
      id ends in a newline, which the finding schema lets through. */
  lemma {:induction false} SelectionFailsExactly(d: Diagnosis.Record, fs: seq<Finding>, p: RunPolicy)
    requires Diagnosis.ValidRecord(d) && |EvidenceOf(d, fs)| <= Diagnosis.MAX_EVIDENCE
    ensures ValidSelection(SelectionWith(d.causes, fs, p, EvidenceOf(d, fs))) <==>
      forall f | f in fs && f.matched :: forall id | id in f.eventIds :: SafeIdentifier(id)
  {
    EvidenceMeaning(d, fs);
    ReasonsAreDistinct(fs, RequiresHost(DecisionFor(d.causes, fs, p), p));
  }

  // --------------------------------------------------- the reheat gate, restated

  /** The second check a reheat selection has to pass before it becomes an instruction. */
  predicate PassesReheatGate(x: Selection, d: Diagnosis.Record, p: RunPolicy) {
    && (forall c | c in d.causes :: c !in Diagnosis.HIGH_RISK)
    && !p.ladder.nudge.permitted && !p.ladder.diagnose.permitted
    && AllowsReheat(p)
    && x.recovery == RecoveryFor(Reheat, d.causes)
    && x.requiresHostAction == p.ladder.reheat.requiresHostAction
    && x.reasons == [SignalsAgree, Detected(RepetitionClass), Detected(NoProgressClass)]
                    + When(p.ladder.reheat.requiresHostAction, HostActionRequired)
    && d.evidence <= x.evidence
  }

  lemma {:induction false} ReheatReasons(causes: seq<Diagnosis.Cause>, fs: seq<Finding>, p: RunPolicy, hostAction: bool)
    requires DecisionFor(causes, fs, p).Reheat?
    ensures Reasons(fs, hostAction) ==
      [SignalsAgree, Detected(RepetitionClass), Detected(NoProgressClass)] + When(hostAction, HostActionRequired)
    ensures forall c | c in causes :: c !in Diagnosis.HIGH_RISK
    ensures !p.ladder.nudge.permitted && !p.ladder.diagnose.permitted && AllowsReheat(p)
  {
  }

  /** Every reheat the selector makes passes it. */
  lemma {:induction false} ReheatPassesItsGate(d: Diagnosis.Record, fs: seq<Finding>, p: RunPolicy)
    requires SelectionOf(d, fs, p).Ok? && SelectionOf(d, fs, p).value.decision.Reheat?
    ensures PassesReheatGate(SelectionOf(d, fs, p).value, d, p)
  {
    DedupPrefix(d.evidence, MatchedSupport(fs, |fs|));
    DedupOfDistinct(d.evidence);
    ReheatReasons(d.causes, fs, p, p.ladder.reheat.requiresHostAction);
  }

  // ------------------------------------------------------------------- cooling

  datatype Candidate = Candidate(
    id: string,
    evidence: seq<string>,
    effect: EffectClass,
    withinBudget: bool,
    authorized: bool,
    rejected: bool)

  datatype CoolingError = CoolingItemLimit | DuplicateBranchId | InvalidCoolingPolicy

  const MAX_CANDIDATES: nat := 100

  predicate Viable(c: Candidate, p: RunPolicy) {
    && !c.rejected && c.evidence != [] && c.withinBudget && c.authorized
    && c.effect in {ReadOnly, IdempotentWrite} && c.effect in p.repeatableEffects
  }

  /** Better supported than every other viable candidate. */
  ghost predicate StrictlyBest(cs: seq<Candidate>, n: nat, k: nat, p: RunPolicy)
    requires n <= |cs|
  {
    && k < n && Viable(cs[k], p)
    && forall i | 0 <= i < n && i != k && Viable(cs[i], p) :: |cs[i].evidence| < |cs[k].evidence|
  }

  /** As good as any candidate so far. */
  ghost predicate Leads(cs: seq<Candidate>, n: nat, k: nat, p: RunPolicy)
    requires n <= |cs|
  {
    && k < n && Viable(cs[k], p)
    && forall i | 0 <= i < n && Viable(cs[i], p) :: |cs[i].evidence| <= |cs[k].evidence|
  }

  ghost predicate TiedFor(cs: seq<Candidate>, n: nat, k: nat, p: RunPolicy)
    requires k < n <= |cs|
  {
    exists i :: 0 <= i < n && i != k && Viable(cs[i], p) && |cs[i].evidence| == |cs[k].evidence|
  }

  predicate DistinctBranches(cs: seq<Candidate>) {
    forall i, j | 0 <= i < j < |cs| :: cs[i].id != cs[j].id
  }

  lemma {:induction false} StrictlyBestLeads(cs: seq<Candidate>, best: nat, p: RunPolicy)
    requires Leads(cs, |cs|, best, p)
    ensures forall k: nat :: StrictlyBest(cs, |cs|, k, p) <==> k == best && !TiedFor(cs, |cs|, best, p)
  {
  }

  /** A branch the host may turn to: authorized, affordable, not rejected, with evidence of
      its own, and with an effect that the policy lets be repeated. */
  ghost predicate Open(c: Candidate, p: RunPolicy) {
    c.authorized && c.withinBudget && !c.rejected && |c.evidence| >= 1 && c.effect in p.repeatableEffects
  }

  /** The one open branch that has more evidence than every other. */
  ghost predicate BestSupported(cs: seq<Candidate>, k: nat, p: RunPolicy) {
    && k < |cs| && Open(cs[k], p)
    && forall i | 0 <= i < |cs| && Open(cs[i], p) :: i == k || |cs[i].evidence| < |cs[k].evidence|
  }

  lemma {:induction false} StrictlyBestIs(cs: seq<Candidate>, k: nat, p: RunPolicy)
    requires ValidPolicy(p)
    ensures StrictlyBest(cs, |cs|, k, p) <==> BestSupported(cs, k, p)
  {
    assert forall c: Candidate :: Viable(c, p) <==> Open(c, p);
  }

  /** The branch returned is the only one no other open branch is at least as good as. */
  method SelectCoolingBranch(cs: seq<Candidate>, p: RunPolicy) returns (r: Result<Option<string>, CoolingError>)
    ensures |cs| > 100 ==> r == Err(CoolingItemLimit)
    ensures |cs| <= 100 && (exists i, j :: 0 <= i < j < |cs| && cs[i].id == cs[j].id) ==> r == Err(DuplicateBranchId)
    ensures |cs| <= 100 && (forall i, j | 0 <= i < j < |cs| :: cs[i].id != cs[j].id) ==>
      if ValidPolicy(p) then r.Ok? else r == Err(InvalidCoolingPolicy)
    ensures r.Ok? ==> (r.value.Some? <==> exists k: nat :: BestSupported(cs, k, p))
    ensures r.Ok? ==> forall k: nat :: BestSupported(cs, k, p) ==> r.value == Some(cs[k].id)
  {
    if |cs| > MAX_CANDIDATES {
      return Err(CoolingItemLimit);
    }
    if !DistinctBranches(cs) {
      return Err(DuplicateBranchId);
    }
    if !ValidPolicy(p) {
      return Err(InvalidCoolingPolicy);
    }
    var best: Option<nat> := None;
    var tied := false;
    for n := 0 to |cs|
      invariant best.None? ==> !tied && forall i | 0 <= i < n :: !Viable(cs[i], p)
      invariant best.Some? ==> Leads(cs, n, best.value, p) && (tied <==> TiedFor(cs, n, best.value, p))
    {
      if Viable(cs[n], p) {
        var count := |cs[n].evidence|;
        if best.None? || count > |cs[best.value].evidence| {
          best, tied := Some(n), false;
        } else if count == |cs[best.value].evidence| {
          tied := true;
        }
      }
    }
    forall k: nat {
      StrictlyBestIs(cs, k, p);
    }
    if best.None? {
      return Ok(None);
    }
    StrictlyBestLeads(cs, best.value, p);
    if tied {
      return Ok(None);
    }
    assert StrictlyBest(cs, |cs|, best.value, p);
    return Ok(Some(cs[best.value].id));
  }
}

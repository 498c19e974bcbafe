/** From findings to the advisory envelope, and the second validator that envelope meets
    before a recovery instruction is built from it. */
module Envelopes {
  import opened Prelude
  import opened TraceEvents
  import opened RunPolicies
  import opened Decisions
  import Diagnosis

  // --------------------------------------------------------------- contributions

  datatype Contribution = Contribution(
    id: FindingId,
    findingClass: FindingClass,
    matched: bool,
    score: real,
    weight: real,
    weightedScore: real)

  const MAX_CONTRIBUTIONS: nat := 100

  function Least(a: real, b: real): real {
    if b < a then b else a
  }

  function Greatest(a: real, b: real): real {
    if b > a then b else a
  }

  function Clip(x: real): real {
    Least(1.0, Greatest(0.0, x))
  }

  function WeightFor(f: Finding, p: RunPolicy, semanticIds: set<FindingId>): real {
    if f.id in semanticIds && p.semantic.Some? then p.semantic.value.weight else p.weights.Of(f.findingClass)
  }

  function ContributionOf(f: Finding, p: RunPolicy, semanticIds: set<FindingId>): Contribution {
    var weight := WeightFor(f, p, semanticIds);
    Contribution(f.id, f.findingClass, true, f.score, weight, Clip(weight * f.score))
  }

  /** One contribution per matched finding, in order. */
  ghost function Contributions(fs: seq<Finding>, p: RunPolicy, semanticIds: set<FindingId>, n: nat): seq<Contribution>
    requires n <= |fs|
  {
    if n == 0 then []
    else Contributions(fs, p, semanticIds, n - 1)
         + if fs[n - 1].matched then [ContributionOf(fs[n - 1], p, semanticIds)] else []
  }

  /** The largest weighted score of a class, and 0 for a class without contributions. */
  ghost function ClassMax(cs: seq<Contribution>, n: nat, c: FindingClass): real
    requires n <= |cs|
  {
    if n == 0 then 0.0
    else
      var before := ClassMax(cs, n - 1, c);
      if cs[n - 1].findingClass == c then Greatest(before, cs[n - 1].weightedScore) else before
  }

  lemma {:induction false} ClassMaxMeaning(cs: seq<Contribution>, n: nat, c: FindingClass)
    requires n <= |cs|
    ensures ClassMax(cs, n, c) >= 0.0
    ensures forall i | 0 <= i < n && cs[i].findingClass == c :: cs[i].weightedScore <= ClassMax(cs, n, c)
    ensures ClassMax(cs, n, c) > 0.0 ==>
      exists i :: 0 <= i < n && cs[i].findingClass == c && cs[i].weightedScore == ClassMax(cs, n, c)
  {
    if n > 0 {
      ClassMaxMeaning(cs, n - 1, c);
    }
  }

  lemma {:induction false} ClassMaxOfPrefix(cs: seq<Contribution>, ds: seq<Contribution>, n: nat, c: FindingClass)
    requires n <= |cs| && cs <= ds
    ensures ClassMax(ds, n, c) == ClassMax(cs, n, c)
  {
    if n > 0 {
      ClassMaxOfPrefix(cs, ds, n - 1, c);
    }
  }

  ghost function Score(cs: seq<Contribution>, c: FindingClass): real {
    ClassMax(cs, |cs|, c)
  }

  lemma {:induction false} ScoreStep(cs: seq<Contribution>, x: Contribution, c: FindingClass)
    ensures Score(cs + [x], c) == if x.findingClass == c then Greatest(Score(cs, c), x.weightedScore) else Score(cs, c)
  {
    ClassMaxOfPrefix(cs, cs + [x], |cs|, c);
  }

  type Scores = map<FindingClass, real>

  ghost predicate ScoresOf(scores: Scores, cs: seq<Contribution>) {
    forall c: FindingClass :: c in scores && scores[c] == Score(cs, c)
  }

  datatype Weighted = Weighted(contributions: seq<Contribution>, scores: Scores)

  method WeightedContributions(fs: seq<Finding>, p: RunPolicy, semanticIds: set<FindingId>)
    returns (r: Option<Weighted>)
    ensures r.None? <==> |Contributions(fs, p, semanticIds, |fs|)| > MAX_CONTRIBUTIONS
    ensures r.Some? ==>
      r.value.contributions == Contributions(fs, p, semanticIds, |fs|) &&
        ScoresOf(r.value.scores, r.value.contributions)
  {
    var contributions: seq<Contribution> := [];
    var scores: Scores := map[RepetitionClass := 0.0, NoProgressClass := 0.0, RiskClass := 0.0, BudgetClass := 0.0];
    forall c: FindingClass
      ensures c in scores && scores[c] == 0.0
    {
      match c
      case RepetitionClass =>
      case NoProgressClass =>
      case RiskClass =>
      case BudgetClass =>
    }
    for n := 0 to |fs|
      invariant contributions == Contributions(fs, p, semanticIds, n)
      invariant ScoresOf(scores, contributions)
    {
      if fs[n].matched {
        var x := ContributionOf(fs[n], p, semanticIds);
        forall c: FindingClass {
          ScoreStep(contributions, x, c);
        }
        contributions := contributions + [x];
        scores := scores[x.findingClass := Greatest(scores[x.findingClass], x.weightedScore)];
      }
    }
    if |contributions| > MAX_CONTRIBUTIONS {
      return None;
    }
    return Some(Weighted(contributions, scores));
  }

  /** Valid scores and weights are fractions, so clipping changes nothing. */
  lemma {:induction false} WeightedScoreIsProduct(f: Finding, p: RunPolicy, semanticIds: set<FindingId>)
    requires ValidFinding(f) && WithinContract(p)
    ensures var x := ContributionOf(f, p, semanticIds);
      Fraction(x.weight) && Fraction(x.weightedScore) && x.weightedScore == x.weight * x.score
  {
    var weight := WeightFor(f, p, semanticIds);
    ProductOfFractions(weight, f.score);
  }

  lemma {:induction false} NonNegative(a: real, b: real)
    requires a >= 0.0 && b >= 0.0
    ensures a * b >= 0.0
  {
  }

  lemma {:induction false} ProductOfFractions(a: real, b: real)
    requires Fraction(a) && Fraction(b)
    ensures Fraction(a * b)
  {
    NonNegative(a, b);
    NonNegative(1.0 - a, b);
    assert (1.0 - a) * b == b - a * b;
  }

  // -------------------------------------------------------------------- envelope

  datatype GapKind = MissingEvidence | AmbiguousGoal | FailedAcceptance | StalledProgress | RiskBlocker

  function GapOf(c: Diagnosis.Cause): GapKind {
    match c
    case MissingKnowledge => MissingEvidence
    case AmbiguousCompletion => AmbiguousGoal
    case IncorrectPlan => FailedAcceptance
    case UnsuitableTool => StalledProgress
    case RuntimeDefect => StalledProgress
    case MissingAuthority => RiskBlocker
    case UnsafeSideEffect => RiskBlocker
    case ExhaustedBudget => RiskBlocker
  }

  datatype Constraints = Constraints(
    mustPreserveEvidence: bool,
    noNonIdempotentRepeat: bool,
    requireHostConfirmation: bool,
    allowed: set<EffectClass>)

  datatype Basis = Basis(
    runId: string,
    decision: Decision,
    reasons: seq<DecisionReason>,
    evidence: seq<string>,
    gaps: seq<GapKind>,
    rejected: seq<string>,
    notices: seq<Notice>,
    recovery: Option<RecoveryPolicy>,
    budget: BudgetCounters,
    constraints: Constraints,
    cooling: Cooling,
    confidence: real,
    contributions: seq<Contribution>,
    requiresHostAction: bool)

  /** The decision id is a digest of everything else. */
  datatype Envelope = Envelope(id: Basis, basis: Basis)

  function Confidence(decision: Decision, fs: seq<Finding>, repetition: real, noProgress: real): real {
    if decision.Stop? && (Observed(fs, RiskClass) || Observed(fs, BudgetClass)) then 1.0
    else Least(repetition, noProgress)
  }

  function Assemble(d: Diagnosis.Record, x: Selection, p: RunPolicy, notices: seq<Notice>,
                    cs: seq<Contribution>, confidence: real): Envelope
  {
    var basis := Basis(
      d.runId, x.decision, x.reasons, x.evidence,
      seq(|d.causes|, i requires 0 <= i < |d.causes| => GapOf(d.causes[i])),
      d.rejected, notices, x.recovery, p.perIntervention,
      Constraints(true, true, x.requiresHostAction, p.repeatableEffects * {ReadOnly, IdempotentWrite}),
      p.cooling, confidence, cs, x.requiresHostAction);
    Envelope(basis, basis)
  }

  /** The ranges of the decision contract. */
  predicate ValidEnvelope(e: Envelope) {
    var b := e.basis;
    && SchemaIdentifier(b.runId)
    && |b.reasons| <= 16 && Distinct(b.reasons)
    && |b.evidence| <= 1000 && Distinct(b.evidence) && (forall id | id in b.evidence :: SchemaIdentifier(id))
    && |b.gaps| <= 16
    && |b.rejected| <= 100 && Distinct(b.rejected)
    && b.constraints.noNonIdempotentRepeat && b.constraints.allowed <= {ReadOnly, IdempotentWrite}
    && Fraction(b.confidence)
    && |b.contributions| <= MAX_CONTRIBUTIONS
    && forall x | x in b.contributions :: Fraction(x.score) && Fraction(x.weight) && Fraction(x.weightedScore)
  }

  datatype EnvelopeError = InvalidControllerAssembly | ContributingFindingLimit | InvalidDecisionEnvelope

  ghost function DiagnosisOf(s: Trace, fs: seq<Finding>): Diagnosis.Record
    requires s != []
  {
    Diagnosis.RecordOf(s[0].runId, Diagnosis.Readings(s, fs))
  }

  ghost function EnvelopeWith(d: Diagnosis.Record, x: Selection, fs: seq<Finding>, p: RunPolicy,
                              notices: seq<Notice>, cs: seq<Contribution>): Envelope
  {
    Assemble(d, x, p, notices, cs, Confidence(x.decision, fs, Score(cs, RepetitionClass), Score(cs, NoProgressClass)))
  }

  ghost function Finished(d: Diagnosis.Record, x: Selection, fs: seq<Finding>, p: RunPolicy,
                          notices: seq<Notice>, cs: seq<Contribution>): Result<Envelope, EnvelopeError>
  {
    var envelope := EnvelopeWith(d, x, fs, p, notices, cs);
    if |cs| > MAX_CONTRIBUTIONS then Err(ContributingFindingLimit)
    else if ValidEnvelope(envelope) then Ok(envelope)
    else Err(InvalidDecisionEnvelope)
  }

  ghost function EnvelopeOf(s: Trace, fs: seq<Finding>, p: RunPolicy, notices: seq<Notice>,
                            semanticIds: set<FindingId>): Result<Envelope, EnvelopeError>
    requires s != []
  {
    if !Diagnosis.Diagnosable(s[0].runId, Diagnosis.Readings(s, fs)) then Err(InvalidControllerAssembly)
    else
      var selection := SelectionOf(DiagnosisOf(s, fs), fs, p);
      if selection.Err? then Err(InvalidControllerAssembly)
      else
        Finished(DiagnosisOf(s, fs), selection.value, fs, p, notices, Contributions(fs, p, semanticIds, |fs|))
  }

  method BuildEnvelope(s: Trace, fs: seq<Finding>, p: RunPolicy, notices: seq<Notice>,
        semanticIds: set<FindingId>)
    returns (r: Result<Envelope, EnvelopeError>)
    requires s != []
    ensures r == EnvelopeOf(s, fs, p, notices, semanticIds)
  {
    var diagnosis := Diagnosis.Diagnose(s[0].runId, s, fs);
    if diagnosis.Err? {
      return Err(InvalidControllerAssembly);
    }
    var selection := SelectRecoveryPolicy(diagnosis.value, fs, p);
    if selection.Err? {
      return Err(InvalidControllerAssembly);
    }
    var weighted := WeightedContributions(fs, p, semanticIds);
    if weighted.None? {
      return Err(ContributingFindingLimit);
    }
    var Weighted(cs, scores) := weighted.value;
    var confidence := Confidence(selection.value.decision, fs, scores[RepetitionClass], scores[NoProgressClass]);
    var envelope := Assemble(diagnosis.value, selection.value, p, notices, cs, confidence);
    return if ValidEnvelope(envelope) then Ok(envelope) else Err(InvalidDecisionEnvelope);
  }

  lemma {:induction false} ContributionsAreFractions(fs: seq<Finding>, p: RunPolicy,
        semanticIds: set<FindingId>, n: nat)
    requires n <= |fs| && WithinContract(p) && forall f | f in fs :: ValidFinding(f)
    ensures |Contributions(fs, p, semanticIds, n)| <= n
    ensures forall x | x in Contributions(fs, p, semanticIds, n) ::
      Fraction(x.score) && Fraction(x.weight) && Fraction(x.weightedScore)
  {
    if n > 0 {
      ContributionsAreFractions(fs, p, semanticIds, n - 1);
      WeightedScoreIsProduct(fs[n - 1], p, semanticIds);
    }
  }

  lemma {:induction false} ScoreIsFraction(cs: seq<Contribution>, n: nat, c: FindingClass)
    requires n <= |cs| && forall x | x in cs :: Fraction(x.weightedScore)
    ensures Fraction(ClassMax(cs, n, c))
  {
    if n > 0 {
      ScoreIsFraction(cs, n - 1, c);
      assert cs[n - 1] in cs;
    }
  }

  lemma {:induction false} FewCauses(observed: set<Diagnosis.Cause>, n: nat)
    requires n <= |Diagnosis.CAUSE_ORDER|
    ensures |Diagnosis.InOrder(observed, n)| <= n
  {
    if n > 0 {
      FewCauses(observed, n - 1);
    }
  }

  lemma {:induction false} SelectionParts(d: Diagnosis.Record, fs: seq<Finding>, p: RunPolicy)
    requires SelectionOf(d, fs, p).Ok?
    ensures SelectionOf(d, fs, p).value.decision == DecisionFor(d.causes, fs, p)
    ensures ValidSelection(SelectionOf(d, fs, p).value) && |SelectionOf(d, fs, p).value.reasons| <= 6
    ensures DistinctIds(fs) && ValidPolicy(p) && forall f | f in fs :: ValidFinding(f)
  {
  }

  lemma {:induction false} WithinRanges(d: Diagnosis.Record, x: Selection, fs: seq<Finding>, p: RunPolicy,
        notices: seq<Notice>, cs: seq<Contribution>)
    requires Diagnosis.ValidRecord(d) && |d.causes| <= 8 && ValidSelection(x) && |x.reasons| <= 6
    requires forall y | y in cs :: Fraction(y.score) && Fraction(y.weight) && Fraction(y.weightedScore)
    ensures Finished(d, x, fs, p, notices, cs).Err? ==>
      |cs| > MAX_CONTRIBUTIONS && Finished(d, x, fs, p, notices, cs) == Err(ContributingFindingLimit)
  {
    ScoreIsFraction(cs, |cs|, RepetitionClass);
    ScoreIsFraction(cs, |cs|, NoProgressClass);
  }

  /** An assembled envelope always is within the decision contract. */
  lemma {:induction false} AssembledIsValid(s: Trace, fs: seq<Finding>, p: RunPolicy, notices: seq<Notice>,
        semanticIds: set<FindingId>)
    requires s != []
    ensures EnvelopeOf(s, fs, p, notices, semanticIds) != Err(InvalidDecisionEnvelope)
    ensures |fs| <= MAX_CONTRIBUTIONS ==> EnvelopeOf(s, fs, p, notices, semanticIds) != Err(ContributingFindingLimit)
  {
    var xs := Diagnosis.Readings(s, fs);
    var d := DiagnosisOf(s, fs);
    if Diagnosis.Diagnosable(s[0].runId, xs) && SelectionOf(d, fs, p).Ok? {
      Diagnosis.DiagnosisIsValid(s[0].runId, xs);
      FewCauses(Diagnosis.ObservedCauses(xs), |Diagnosis.CAUSE_ORDER|);
      SelectionParts(d, fs, p);
      ContributionsAreFractions(fs, p, semanticIds, |fs|);
      WithinRanges(d, SelectionOf(d, fs, p).value, fs, p, notices, Contributions(fs, p, semanticIds, |fs|));
    }
  }

  // ------------------------------------------------- the recovery decision check

  const TOLERANCE := 0.000000000001

  predicate Close(a: real, b: real) {
    -TOLERANCE <= a - b <= TOLERANCE
  }

  predicate Contributes(x: Contribution) {
    && x.findingClass in {RepetitionClass, NoProgressClass} && x.matched
    && Close(x.weightedScore, Clip(x.weight * x.score))
  }

  function ExpectedReasons(hostAction: bool): seq<DecisionReason> {
    [SignalsAgree, Detected(RepetitionClass), Detected(NoProgressClass)] + When(hostAction, HostActionRequired)
  }

  predicate DistinctContributions(cs: seq<Contribution>) {
    forall i, j | 0 <= i < j < |cs| :: cs[i].id != cs[j].id
  }

  predicate WellFormedReheat(e: Envelope) {
    && e.id == e.basis
    && e.basis.recovery.Some?
    && e.basis.reasons == ExpectedReasons(e.basis.requiresHostAction)
    && e.basis.constraints.mustPreserveEvidence && e.basis.constraints.noNonIdempotentRepeat
    && ReadOnly in e.basis.constraints.allowed
    && DistinctContributions(e.basis.contributions)
  }

  /** What a reheat envelope has to satisfy, read from the envelope alone. */
  ghost predicate Recoverable(e: Envelope) {
    var cs := e.basis.contributions;
    && WellFormedReheat(e)
    && (forall x | x in cs :: Contributes(x))
    && Score(cs, RepetitionClass) > 0.0 && Score(cs, NoProgressClass) > 0.0
    && Close(e.basis.confidence, Least(Score(cs, RepetitionClass), Score(cs, NoProgressClass)))
  }

  method ValidateRecoveryDecision(e: Envelope) returns (ok: bool)
    ensures ok <==> Recoverable(e)
  {
    if !WellFormedReheat(e) {
      return false;
    }
    var cs := e.basis.contributions;
    var repetition, noProgress := 0.0, 0.0;
    for n := 0 to |cs|
      invariant forall i | 0 <= i < n :: Contributes(cs[i])
      invariant repetition == ClassMax(cs, n, RepetitionClass) && noProgress == ClassMax(cs, n, NoProgressClass)
    {
      if !Contributes(cs[n]) {
        return false;
      }
      if cs[n].findingClass == RepetitionClass {
        repetition := Greatest(repetition, cs[n].weightedScore);
      } else {
        noProgress := Greatest(noProgress, cs[n].weightedScore);
      }
    }
    if repetition <= 0.0 || noProgress <= 0.0 {
      return false;
    }
    return Close(e.basis.confidence, Least(repetition, noProgress));
  }

  lemma {:induction false} ContributionsMeaning(fs: seq<Finding>, p: RunPolicy, semanticIds: set<FindingId>,
        n: nat, x: Contribution)
    requires n <= |fs|
    ensures x in Contributions(fs, p, semanticIds, n) <==>
      exists i :: 0 <= i < n && fs[i].matched && x == ContributionOf(fs[i], p, semanticIds)
  {
    if n > 0 {
      ContributionsMeaning(fs, p, semanticIds, n - 1, x);
    }
  }

  lemma {:induction false} ContributionIdsAreDistinct(fs: seq<Finding>, p: RunPolicy,
        semanticIds: set<FindingId>, n: nat)
    requires n <= |fs| && DistinctIds(fs)
    ensures DistinctContributions(Contributions(fs, p, semanticIds, n))
  {
    if n > 0 {
      ContributionIdsAreDistinct(fs, p, semanticIds, n - 1);
      var before := Contributions(fs, p, semanticIds, n - 1);
      forall i | 0 <= i < |before|
        ensures before[i].id != fs[n - 1].id
      {
        ContributionsMeaning(fs, p, semanticIds, n - 1, before[i]);
      }
    }
  }

  lemma {:induction false} ReheatFinding(causes: seq<Diagnosis.Cause>, fs: seq<Finding>, p: RunPolicy, f: Finding)
    requires DecisionFor(causes, fs, p).Reheat? && f in fs && f.matched
    ensures f.findingClass in {RepetitionClass, NoProgressClass}
  {
    assert !Evidence(fs, RiskClass) && !Evidence(fs, BudgetClass);
  }

  lemma {:induction false} FindingContributes(f: Finding, p: RunPolicy, semanticIds: set<FindingId>)
    requires f.findingClass in {RepetitionClass, NoProgressClass}
    ensures Contributes(ContributionOf(f, p, semanticIds))
  {
  }

  lemma {:induction false} ReheatContributes(d: Diagnosis.Record, fs: seq<Finding>, p: RunPolicy,
        semanticIds: set<FindingId>)
    requires DecisionFor(d.causes, fs, p).Reheat?
    ensures forall x | x in Contributions(fs, p, semanticIds, |fs|) :: Contributes(x)
  {
    forall x | x in Contributions(fs, p, semanticIds, |fs|)
      ensures Contributes(x)
    {
      ContributionsMeaning(fs, p, semanticIds, |fs|, x);
      var i :| 0 <= i < |fs| && fs[i].matched && x == ContributionOf(fs[i], p, semanticIds);
      ReheatFinding(d.causes, fs, p, fs[i]);
      FindingContributes(fs[i], p, semanticIds);
    }
  }

  lemma {:induction false} GateAdmits(d: Diagnosis.Record, x: Selection, fs: seq<Finding>, p: RunPolicy,
        notices: seq<Notice>, cs: seq<Contribution>)
    requires x.decision.Reheat? && PassesReheatGate(x, d, p)
    requires DistinctContributions(cs) && forall y | y in cs :: Contributes(y)
    ensures Recoverable(EnvelopeWith(d, x, fs, p, notices, cs)) <==>
      ReadOnly in p.repeatableEffects && Score(cs, RepetitionClass) > 0.0 && Score(cs, NoProgressClass) > 0.0
  {
  }

  lemma {:induction false} EnvelopeParts(s: Trace, fs: seq<Finding>, p: RunPolicy, notices: seq<Notice>,
        semanticIds: set<FindingId>)
    requires s != []
    requires EnvelopeOf(s, fs, p, notices, semanticIds).Ok?
    ensures SelectionOf(DiagnosisOf(s, fs), fs, p).Ok?
    ensures EnvelopeOf(s, fs, p, notices, semanticIds).value ==
      EnvelopeWith(DiagnosisOf(s, fs), SelectionOf(DiagnosisOf(s, fs), fs, p).value, fs, p, notices,
                   Contributions(fs, p, semanticIds, |fs|))
  {
  }

  /** Exactly when a reheat decision is accepted again: read-only actions may be
      repeated, and both signals carry weight. */
  lemma {:induction false} ReheatIsRecoverableExactly(s: Trace, fs: seq<Finding>, p: RunPolicy,
        notices: seq<Notice>,
        semanticIds: set<FindingId>)
    requires s != []
    requires EnvelopeOf(s, fs, p, notices, semanticIds).Ok?
    requires EnvelopeOf(s, fs, p, notices, semanticIds).value.basis.decision.Reheat?
    ensures var cs := Contributions(fs, p, semanticIds, |fs|);
      Recoverable(EnvelopeOf(s, fs, p, notices, semanticIds).value) <==>
      ReadOnly in p.repeatableEffects && Score(cs, RepetitionClass) > 0.0 && Score(cs, NoProgressClass) > 0.0
  {
    var d := DiagnosisOf(s, fs);
    EnvelopeParts(s, fs, p, notices, semanticIds);
    SelectionParts(d, fs, p);
    ReheatPassesItsGate(d, fs, p);
    ContributionIdsAreDistinct(fs, p, semanticIds, |fs|);
    ReheatContributes(d, fs, p, semanticIds);
    GateAdmits(d, SelectionOf(d, fs, p).value, fs, p, notices, Contributions(fs, p, semanticIds, |fs|));
  }
}

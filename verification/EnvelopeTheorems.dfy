/** What an assembled envelope says about the findings and the trace it came from. */
module EnvelopeTheorems {
  import opened Prelude
  import opened TraceEvents
  import opened RunPolicies
  import opened Decisions
  import opened Envelopes
  import Diagnosis

  ghost predicate Marked(s: Trace, c: Diagnosis.Cause) {
    exists e :: e in s && Diagnosis.MarkerOf(e) == Some(c)
  }

  /** What can only be stopped, in the trace or in the findings. */
  ghost predicate Hard(s: Trace, fs: seq<Finding>) {
    || Evidence(fs, RiskClass) || Evidence(fs, BudgetClass)
    || Marked(s, Diagnosis.UnsafeSideEffect) || Marked(s, Diagnosis.ExhaustedBudget)
  }

  /** Only a hard marker in the trace or evidence of risk or of an exhausted budget stops. */
  lemma {:induction false} StopsOnHardEvidence(s: Trace, fs: seq<Finding>, p: RunPolicy, notices: seq<Notice>,
        semanticIds: set<FindingId>)
    requires s != [] && EnvelopeOf(s, fs, p, notices, semanticIds).Ok?
    ensures EnvelopeOf(s, fs, p, notices, semanticIds).value.basis.decision.Stop? <==> Hard(s, fs)
  {
    var d := DiagnosisOf(s, fs);
    EnvelopeParts(s, fs, p, notices, semanticIds);
    SelectionParts(d, fs, p);
    StopsExactly(d.causes, fs, p);
    HardCause(s, fs, Diagnosis.UnsafeSideEffect, RiskClass);
    HardCause(s, fs, Diagnosis.ExhaustedBudget, BudgetClass);
  }

  predicate NoRung(p: RunPolicy) {
    forall k | 0 <= k < |RUNGS| :: !Permitted(RUNGS[k], p)
  }

  /** The three ways not to stop, each exactly: the least permitted rung when both
      signals agree and no authority is missing; escalation when some is missing or no
      rung is permitted; and mere monitoring. */
  lemma {:induction false} DecidesExactly(s: Trace, fs: seq<Finding>, p: RunPolicy, notices: seq<Notice>,
        semanticIds: set<FindingId>, k: nat)
    requires s != [] && EnvelopeOf(s, fs, p, notices, semanticIds).Ok? && k < |RUNGS|
    ensures var decision := EnvelopeOf(s, fs, p, notices, semanticIds).value.basis.decision;
      && (decision == RUNGS[k] <==>
          && !Hard(s, fs) && !Marked(s, Diagnosis.MissingAuthority) && SignalsGate(fs)
          && Permitted(RUNGS[k], p) && forall i | 0 <= i < k :: !Permitted(RUNGS[i], p))
      && (decision.Continue? <==> !Hard(s, fs) && !Marked(s, Diagnosis.MissingAuthority) && !SignalsGate(fs))
      && (decision.Escalate? <==>
          !Hard(s, fs) && (Marked(s, Diagnosis.MissingAuthority) || (SignalsGate(fs) && NoRung(p))))
  {
    var d := DiagnosisOf(s, fs);
    EnvelopeParts(s, fs, p, notices, semanticIds);
    SelectionParts(d, fs, p);
    HardCause(s, fs, Diagnosis.UnsafeSideEffect, RiskClass);
    HardCause(s, fs, Diagnosis.ExhaustedBudget, BudgetClass);
    AuthorityCause(s, fs);
    assert MustStop(d.causes, fs) <==> Hard(s, fs);
    LeastPermittedRung(d.causes, fs, p, k);
    OffTheLadder(d.causes, fs, p);
  }

  lemma {:induction false} AuthorityCause(s: Trace, fs: seq<Finding>)
    requires s != []
    ensures Diagnosis.MissingAuthority in DiagnosisOf(s, fs).causes <==> Marked(s, Diagnosis.MissingAuthority)
  {
    Diagnosis.DiagnosisIsValid(s[0].runId, Diagnosis.Readings(s, fs));
    Diagnosis.HasCauseMeaning(Diagnosis.MissingAuthority, s, fs);
  }

  lemma {:induction false} OffTheLadder(causes: seq<Diagnosis.Cause>, fs: seq<Finding>, p: RunPolicy)
    requires IsSafe(p)
    ensures DecisionFor(causes, fs, p).Continue? <==>
      !MustStop(causes, fs) && Diagnosis.MissingAuthority !in causes && !SignalsGate(fs)
    ensures DecisionFor(causes, fs, p).Escalate? <==>
      !MustStop(causes, fs) && (Diagnosis.MissingAuthority in causes || (SignalsGate(fs) && NoRung(p)))
  {
    assert RUNGS[0] == Nudge && RUNGS[1] == Diagnose && RUNGS[2] == Reheat && RUNGS[3] == Restart;
  }

  // --------------------------------------------------- when there is an envelope

  /** Events that the envelope names: marked ones, and those that reject a hypothesis. */
  ghost predicate Speaks(e: TraceEvent) {
    Diagnosis.MarkerOf(e).Some? || Diagnosis.RejectedBy(e) != []
  }

  /** No event that is named has an id that is not a safe identifier. */
  ghost predicate SafelyNamed(s: Trace, fs: seq<Finding>) {
    && (forall e | e in s && Speaks(e) :: SafeIdentifier(e.eventId))
    && (forall f | f in fs && f.matched :: forall id | id in f.eventIds :: SafeIdentifier(id))
  }

  lemma {:induction false} SupportOf(xs: seq<Diagnosis.Reading>, x: Diagnosis.Reading)
    requires x in xs
    ensures forall id | id in x.support :: id in Diagnosis.AllSupport(xs)
  {
    var front, last := xs[..|xs| - 1], xs[|xs| - 1];
    assert xs == front + [last];
    if x != last {
      SupportOf(front, x);
    }
  }

  /** The diagnosis takes its evidence from marked and rejecting events and from matched
      findings, so its ids are safe if those are; and all of the former are in it. */
  lemma {:induction false} SupportIsSafe(s: Trace, fs: seq<Finding>)
    requires s != []
    ensures SafelyNamed(s, fs) ==>
      forall id | id in Diagnosis.AllSupport(Diagnosis.Readings(s, fs)) :: SafeIdentifier(id)
    ensures (forall id | id in Diagnosis.AllSupport(Diagnosis.Readings(s, fs)) :: SafeIdentifier(id)) ==>
      forall e | e in s && Speaks(e) :: SafeIdentifier(e.eventId)
  {
    var xs := Diagnosis.Readings(s, fs);
    if SafelyNamed(s, fs) {
      forall id | id in Diagnosis.AllSupport(xs)
        ensures SafeIdentifier(id)
      {
        var x := Diagnosis.SupportedBy(xs, id);
        var e, f := Diagnosis.ReadFrom(s, fs, x);
      }
    }
    if forall id | id in Diagnosis.AllSupport(xs) :: SafeIdentifier(id) {
      forall e | e in s && Speaks(e)
        ensures SafeIdentifier(e.eventId)
      {
        Diagnosis.EventIsRead(s, fs, e);
        SupportOf(xs, Diagnosis.EventReading(e));
        assert e.eventId in Diagnosis.EventReading(e).support;
      }
    }
  }

  lemma {:induction false} DiagnosableExactly(s: Trace, fs: seq<Finding>)
    requires s != []
    ensures Diagnosis.Diagnosable(s[0].runId, Diagnosis.Readings(s, fs)) <==>
      && SafeIdentifier(s[0].runId) && !Diagnosis.TooMuch(Diagnosis.Readings(s, fs))
      && forall id | id in Diagnosis.AllSupport(Diagnosis.Readings(s, fs)) :: SafeIdentifier(id)
  {
    DedupMeaning(Diagnosis.AllSupport(Diagnosis.Readings(s, fs)));
  }

  lemma {:induction false} SelectsExactly(d: Diagnosis.Record, fs: seq<Finding>, p: RunPolicy)
    requires Diagnosis.ValidRecord(d) && ValidPolicy(p) && FindingsProblem(d, fs).None?
    ensures SelectionOf(d, fs, p).Ok? <==>
      && |EvidenceOf(d, fs)| <= Diagnosis.MAX_EVIDENCE
      && forall f | f in fs && f.matched :: forall id | id in f.eventIds :: SafeIdentifier(id)
  {
    if |EvidenceOf(d, fs)| <= Diagnosis.MAX_EVIDENCE {
      SelectionFailsExactly(d, fs, p);
    }
  }

  /** Exactly when valid findings become an envelope: the run id and every id that is
      named are safe, and the limits on evidence, hypotheses and contributions hold. */
  lemma {:induction false} SucceedsExactly(s: Trace, fs: seq<Finding>, p: RunPolicy, notices: seq<Notice>,
        semanticIds: set<FindingId>)
    requires s != [] && ValidPolicy(p) && FindingsProblem(DiagnosisOf(s, fs), fs).None?
    ensures EnvelopeOf(s, fs, p, notices, semanticIds).Ok? <==>
      && SafeIdentifier(s[0].runId) && SafelyNamed(s, fs)
      && !Diagnosis.TooMuch(Diagnosis.Readings(s, fs))
      && |EvidenceOf(DiagnosisOf(s, fs), fs)| <= Diagnosis.MAX_EVIDENCE
      && |Contributions(fs, p, semanticIds, |fs|)| <= MAX_CONTRIBUTIONS
    ensures EnvelopeOf(s, fs, p, notices, semanticIds).Err? ==>
      |Contributions(fs, p, semanticIds, |fs|)| > MAX_CONTRIBUTIONS ||
      EnvelopeOf(s, fs, p, notices, semanticIds) == Err(InvalidControllerAssembly)
  {
    var d, xs := DiagnosisOf(s, fs), Diagnosis.Readings(s, fs);
    Diagnosis.DiagnosisIsValid(s[0].runId, xs);
    DiagnosableExactly(s, fs);
    SupportIsSafe(s, fs);
    AssembledIsValid(s, fs, p, notices, semanticIds);
    if Diagnosis.ValidRecord(d) {
      SelectsExactly(d, fs, p);
    }
  }

  /** A hard cause is a marker, or evidence of its class. */
  lemma {:induction false} HardCause(s: Trace, fs: seq<Finding>, c: Diagnosis.Cause, k: FindingClass)
    requires s != []
    requires c == if k.RiskClass? then Diagnosis.UnsafeSideEffect else Diagnosis.ExhaustedBudget
    requires k in {RiskClass, BudgetClass}
    ensures Marked(s, c) ==> c in DiagnosisOf(s, fs).causes
    ensures c in DiagnosisOf(s, fs).causes ==> Marked(s, c) || Evidence(fs, k)
  {
    var xs := Diagnosis.Readings(s, fs);
    Diagnosis.DiagnosisIsValid(s[0].runId, xs);
    Diagnosis.HasCauseMeaning(c, s, fs);
    if Diagnosis.HasCause(xs, c) && !Marked(s, c) {
      var f :| f in fs && Diagnosis.FindingCause(f) == Some(c);
      assert f.matched && f.findingClass == k;
    }
  }

  /** A matched finding of a hard class decides alone, at full confidence, and is quoted
      as evidence. */
  lemma {:induction false} HardFindingDecides(s: Trace, fs: seq<Finding>, p: RunPolicy, notices: seq<Notice>,
        semanticIds: set<FindingId>, f: Finding)
    requires s != [] && EnvelopeOf(s, fs, p, notices, semanticIds).Ok?
    requires f in fs && f.matched && f.findingClass in {RiskClass, BudgetClass}
    ensures var b := EnvelopeOf(s, fs, p, notices, semanticIds).value.basis;
      b.decision.Stop? && b.confidence == 1.0 && forall id | id in f.eventIds :: id in b.evidence
  {
    var d := DiagnosisOf(s, fs);
    EnvelopeParts(s, fs, p, notices, semanticIds);
    SelectionParts(d, fs, p);
    QuotesEvidence(d, fs, p);
    EvidenceMeaning(d, fs);
    assert Evidence(fs, f.findingClass) && Observed(fs, f.findingClass);
  }

  lemma {:induction false} QuotesEvidence(d: Diagnosis.Record, fs: seq<Finding>, p: RunPolicy)
    requires SelectionOf(d, fs, p).Ok?
    ensures SelectionOf(d, fs, p).value.evidence == EvidenceOf(d, fs) && Diagnosis.ValidRecord(d)
  {
  }

  predicate IsRung(d: Decision) {
    d in {Nudge, Diagnose, Reheat, Restart}
  }

  /** Every intervention on the ladder rests on two matched findings, one of each signal. */
  lemma {:induction false} RungsRestOnBothSignals(s: Trace, fs: seq<Finding>, p: RunPolicy, notices: seq<Notice>,
        semanticIds: set<FindingId>)
    returns (repetition: Finding, noProgress: Finding)
    requires s != [] && EnvelopeOf(s, fs, p, notices, semanticIds).Ok?
    requires IsRung(EnvelopeOf(s, fs, p, notices, semanticIds).value.basis.decision)
    ensures repetition in fs && repetition.matched && repetition.findingClass == RepetitionClass
    ensures noProgress in fs && noProgress.matched && noProgress.findingClass == NoProgressClass
    ensures EnvelopeOf(s, fs, p, notices, semanticIds).value.basis.confidence ==
      Least(Score(Contributions(fs, p, semanticIds, |fs|), RepetitionClass),
            Score(Contributions(fs, p, semanticIds, |fs|), NoProgressClass))
  {
    var d := DiagnosisOf(s, fs);
    EnvelopeParts(s, fs, p, notices, semanticIds);
    SelectionParts(d, fs, p);
    assert SignalsGate(fs);
    repetition :| repetition in fs && repetition.matched && repetition.findingClass == RepetitionClass;
    noProgress :| noProgress in fs && noProgress.matched && noProgress.findingClass == NoProgressClass;
  }

  /** What each reason code stands for. */
  predicate Given(fs: seq<Finding>, hostAction: bool, y: DecisionReason) {
    match y
    case SignalsAgree => SignalsGate(fs)
    case Detected(c) => if c in {RiskClass, BudgetClass} then Evidence(fs, c) else Observed(fs, c)
    case HostActionRequired => hostAction
  }

  lemma {:induction false} InMore(xs: seq<DecisionReason>, condition: bool, x: DecisionReason, y: DecisionReason)
    returns (ys: seq<DecisionReason>)
    ensures ys == xs + When(condition, x)
    ensures y in ys <==> y in xs || (condition && y == x)
  {
    ys := xs + When(condition, x);
  }

  lemma {:induction false} ReasonIsGiven(fs: seq<Finding>, hostAction: bool, y: DecisionReason)
    ensures y in Reasons(fs, hostAction) <==> Given(fs, hostAction, y)
  {
    var r0 := When(SignalsGate(fs), SignalsAgree);
    var r1 := InMore(r0, Observed(fs, RepetitionClass), Detected(RepetitionClass), y);
    var r2 := InMore(r1, Observed(fs, NoProgressClass), Detected(NoProgressClass), y);
    var r3 := InMore(r2, Evidence(fs, RiskClass), Detected(RiskClass), y);
    var r4 := InMore(r3, Evidence(fs, BudgetClass), Detected(BudgetClass), y);
    var r5 := InMore(r4, hostAction, HostActionRequired, y);
    assert Reasons(fs, hostAction) == r5;
    match y
    case SignalsAgree =>
    case HostActionRequired =>
    case Detected(c) => assert c.RepetitionClass? || c.NoProgressClass? || c.RiskClass? || c.BudgetClass?;
  }

  /** The parts of a decision that say the same thing agree: the host is asked always
      before a restart or an escalation, and then it is among the reasons; a recovery is
      named for a reheat or a restart only; quoted risk or budget evidence means a stop;
      plain monitoring gives no reasons. */
  predicate Coherent(decision: Decision, recovery: Option<RecoveryPolicy>, reasons: seq<DecisionReason>,
        hostAction: bool) {
    && (hostAction <==> HostActionRequired in reasons)
    && (decision in {Restart, Escalate} ==> hostAction)
    && (recovery.Some? <==> decision in {Reheat, Restart})
    && (Detected(RiskClass) in reasons || Detected(BudgetClass) in reasons ==> decision.Stop?)
    && (IsRung(decision) ==> SignalsAgree in reasons)
    && (decision.Continue? ==> reasons == [] && !hostAction)
  }

  lemma {:induction false} PartsAreCoherent(causes: seq<Diagnosis.Cause>, fs: seq<Finding>, p: RunPolicy,
        reasons: seq<DecisionReason>)
    requires IsSafe(p) && !DecisionFor(causes, fs, p).Continue?
    requires HostActionRequired in reasons <==> RequiresHost(DecisionFor(causes, fs, p), p)
    requires SignalsAgree in reasons <==> SignalsGate(fs)
    requires Detected(RiskClass) in reasons <==> Evidence(fs, RiskClass)
    requires Detected(BudgetClass) in reasons <==> Evidence(fs, BudgetClass)
    ensures var decision := DecisionFor(causes, fs, p);
      Coherent(decision, RecoveryFor(decision, causes), reasons, RequiresHost(decision, p))
  {
  }

  lemma {:induction false} SelectionIsCoherent(causes: seq<Diagnosis.Cause>, fs: seq<Finding>, p: RunPolicy,
        evidence: seq<string>)
    requires IsSafe(p)
    ensures var x := SelectionWith(causes, fs, p, evidence);
      Coherent(x.decision, x.recovery, x.reasons, x.requiresHostAction)
  {
    if !DecisionFor(causes, fs, p).Continue? {
      var host := RequiresHost(DecisionFor(causes, fs, p), p);
      ReasonIsGiven(fs, host, HostActionRequired);
      ReasonIsGiven(fs, host, SignalsAgree);
      ReasonIsGiven(fs, host, Detected(RiskClass));
      ReasonIsGiven(fs, host, Detected(BudgetClass));
      PartsAreCoherent(causes, fs, p, Reasons(fs, host));
    }
  }

  lemma {:induction false} SelectionIsMade(d: Diagnosis.Record, fs: seq<Finding>, p: RunPolicy)
    requires SelectionOf(d, fs, p).Ok?
    ensures SelectionOf(d, fs, p).value == SelectionWith(d.causes, fs, p, EvidenceOf(d, fs))
  {
  }

  lemma {:induction false} EnvelopeIsCoherent(s: Trace, fs: seq<Finding>, p: RunPolicy, notices: seq<Notice>,
        semanticIds: set<FindingId>)
    requires s != [] && EnvelopeOf(s, fs, p, notices, semanticIds).Ok?
    ensures var b := EnvelopeOf(s, fs, p, notices, semanticIds).value.basis;
      && Coherent(b.decision, b.recovery, b.reasons, b.requiresHostAction)
      && b.constraints.requireHostConfirmation == b.requiresHostAction
      && b.constraints.mustPreserveEvidence && b.constraints.allowed == p.repeatableEffects
  {
    var d := DiagnosisOf(s, fs);
    EnvelopeParts(s, fs, p, notices, semanticIds);
    SelectionParts(d, fs, p);
    SelectionIsMade(d, fs, p);
    SelectionIsCoherent(d.causes, fs, p, EvidenceOf(d, fs));
    AssembledParts(d, SelectionOf(d, fs, p).value, fs, p, notices, Contributions(fs, p, semanticIds, |fs|));
  }

  lemma {:induction false} AssembledParts(d: Diagnosis.Record, x: Selection, fs: seq<Finding>, p: RunPolicy,
        notices: seq<Notice>, cs: seq<Contribution>)
    requires IsSafe(p)
    ensures var b := EnvelopeWith(d, x, fs, p, notices, cs).basis;
      && b.decision == x.decision && b.recovery == x.recovery && b.reasons == x.reasons
      && b.requiresHostAction == b.constraints.requireHostConfirmation == x.requiresHostAction
      && b.constraints.mustPreserveEvidence && b.constraints.allowed == p.repeatableEffects
  {
    assert p.repeatableEffects * {ReadOnly, IdempotentWrite} == p.repeatableEffects;
  }

  lemma {:induction false} AssembledFields(d: Diagnosis.Record, x: Selection, fs: seq<Finding>, p: RunPolicy,
        notices: seq<Notice>, cs: seq<Contribution>)
    ensures var e := EnvelopeWith(d, x, fs, p, notices, cs);
      && e.id == e.basis && e.basis.runId == d.runId && e.basis.rejected == d.rejected && e.basis.evidence == x.evidence
      && e.basis.notices == notices && e.basis.contributions == cs
      && e.basis.budget == p.perIntervention && e.basis.cooling == p.cooling &&
         e.basis.constraints.noNonIdempotentRepeat
      && |e.basis.gaps| == |d.causes| && forall i | 0 <= i < |d.causes| :: e.basis.gaps[i] == GapOf(d.causes[i])
  {
  }

  /** What an envelope carries over: the run, the notices, the contributions, and the
      policy's budget per intervention and its cooling conditions. */
  lemma {:induction false} EnvelopeCarries(s: Trace, fs: seq<Finding>, p: RunPolicy, notices: seq<Notice>,
        semanticIds: set<FindingId>)
    requires s != [] && EnvelopeOf(s, fs, p, notices, semanticIds).Ok?
    ensures var e := EnvelopeOf(s, fs, p, notices, semanticIds).value;
      && e.id == e.basis && e.basis.runId == s[0].runId && e.basis.notices == notices
      && e.basis.budget == p.perIntervention && e.basis.cooling == p.cooling &&
         e.basis.constraints.noNonIdempotentRepeat
      && e.basis.contributions == Contributions(fs, p, semanticIds, |fs|)
  {
    var d := DiagnosisOf(s, fs);
    EnvelopeParts(s, fs, p, notices, semanticIds);
    AssembledFields(d, SelectionOf(d, fs, p).value, fs, p, notices, Contributions(fs, p, semanticIds, |fs|));
  }

  // --------------------------------------------------- one more soft finding

  ghost predicate IsSoft(f: Finding) {
    ValidFinding(f) && f.findingClass in {RepetitionClass, NoProgressClass}
  }

  lemma {:induction false} SoftFindingIsNoCause(s: Trace, fs: seq<Finding>, f: Finding)
    requires s != [] && IsSoft(f)
    ensures DiagnosisOf(s, fs + [f]) == DiagnosisOf(s, fs)
    ensures Diagnosis.Diagnosable(s[0].runId, Diagnosis.Readings(s, fs + [f])) <==>
      Diagnosis.Diagnosable(s[0].runId, Diagnosis.Readings(s, fs))
  {
    var xs, ys := Diagnosis.Readings(s, fs), Diagnosis.Readings(s, fs + [f]);
    var silent := Diagnosis.FindingReading(f);
    SameReadings(fs, [f], |fs|);
    assert ys == xs + [silent];
    assert ys[..|ys| - 1] == xs;
    assert Diagnosis.AllSupport(ys) == Diagnosis.AllSupport(xs);
    assert Diagnosis.AllRejected(ys) == Diagnosis.AllRejected(xs);
    assert Diagnosis.ObservedCauses(ys) == Diagnosis.ObservedCauses(xs);
  }

  lemma {:induction false} SameReadings(fs: seq<Finding>, gs: seq<Finding>, n: nat)
    requires n <= |fs|
    ensures Diagnosis.FindingReadings(fs + gs, n) == Diagnosis.FindingReadings(fs, n)
  {
    if n > 0 {
      SameReadings(fs, gs, n - 1);
    }
  }

  lemma {:induction false} SameSupport(fs: seq<Finding>, gs: seq<Finding>, n: nat)
    requires n <= |fs|
    ensures MatchedSupport(fs + gs, n) == MatchedSupport(fs, n)
  {
    if n > 0 {
      SameSupport(fs, gs, n - 1);
    }
  }

  lemma {:induction false} LessEvidence(d: Diagnosis.Record, fs: seq<Finding>, f: Finding)
    ensures EvidenceOf(d, fs) <= EvidenceOf(d, fs + [f])
  {
    SameSupport(fs, [f], |fs|);
    var more := if f.matched then f.eventIds else [];
    DedupPrefix(d.evidence + MatchedSupport(fs, |fs|), more);
    assert d.evidence + MatchedSupport(fs, |fs|) + more == d.evidence + MatchedSupport(fs + [f], |fs + [f]|);
  }

  lemma {:induction false} FewerFindings(d: Diagnosis.Record, fs: seq<Finding>, f: Finding)
    requires FindingsProblem(d, fs + [f]).None?
    ensures FindingsProblem(d, fs).None?
  {
    forall g | g in fs
      ensures g in fs + [f]
    {
    }
    forall i, j | 0 <= i < j < |fs|
      ensures fs[i].id != fs[j].id
    {
      assert (fs + [f])[i] == fs[i] && (fs + [f])[j] == fs[j];
    }
  }

  /** Without the last finding there still is a selection. */
  lemma {:induction false} SelectionWithoutLast(d: Diagnosis.Record, fs: seq<Finding>, f: Finding, p: RunPolicy,
        q: RunPolicy)
    requires SelectionOf(d, fs + [f], p).Ok? && ValidPolicy(q)
    ensures SelectionOf(d, fs, q).Ok?
  {
    FewerFindings(d, fs, f);
    LessEvidence(d, fs, f);
    SelectionFailsExactly(d, fs + [f], p);
    SelectionFailsExactly(d, fs, q);
    forall g | g in fs
      ensures g in fs + [f]
    {
    }
  }

  predicate SameLadder(p: RunPolicy, q: RunPolicy) {
    p.ladder == q.ladder && p.maxRecoveryEpisodes == q.maxRecoveryEpisodes
  }

  lemma {:induction false} LadderDecides(causes: seq<Diagnosis.Cause>, fs: seq<Finding>, p: RunPolicy, q: RunPolicy)
    requires SameLadder(p, q)
    ensures DecisionFor(causes, fs, p) == DecisionFor(causes, fs, q)
  {
  }

  /** How a decision may move when a soft finding joins: it stays, or stops, or a run that
      was only monitored gets an intervention. */
  predicate NotRelaxed(before: Decision, after: Decision) {
    Severity(before) <= Severity(after) && (after == before || after.Stop? || before.Continue?)
  }

  /** A soft finding never relaxes the decision made without it, and never is what makes
      one possible at all. */
  lemma {:induction false} SoftFindingNeverRelaxes(s: Trace, fs: seq<Finding>, f: Finding, p: RunPolicy, q: RunPolicy,
                                notices: seq<Notice>, semanticIds: set<FindingId>)
    requires s != [] && IsSoft(f) && |fs| <= MAX_CONTRIBUTIONS
    requires ValidPolicy(q) && SameLadder(p, q)
    requires EnvelopeOf(s, fs + [f], p, notices, semanticIds).Ok?
    ensures EnvelopeOf(s, fs, q, [], {}).Ok?
    ensures NotRelaxed(EnvelopeOf(s, fs, q, [], {}).value.basis.decision,
                       EnvelopeOf(s, fs + [f], p, notices, semanticIds).value.basis.decision)
  {
    var d := DiagnosisOf(s, fs);
    SoftFindingIsNoCause(s, fs, f);
    EnvelopeParts(s, fs + [f], p, notices, semanticIds);
    SelectionParts(d, fs + [f], p);
    SelectionWithoutLast(d, fs, f, p, q);
    AssembledIsValid(s, fs, q, [], {});
    EnvelopeParts(s, fs, q, [], {});
    SelectionParts(d, fs, q);
    LadderDecides(d.causes, fs, p, q);
    AnotherFindingNeverRelaxes(d.causes, fs, f, p);
  }

  /** The same findings get the same decision, whatever the notices and weights. */
  lemma {:induction false} FindingsDecide(s: Trace, fs: seq<Finding>, p: RunPolicy, q: RunPolicy,
        notices: seq<Notice>,
        semanticIds: set<FindingId>)
    requires s != [] && |fs| <= MAX_CONTRIBUTIONS && ValidPolicy(q) && SameLadder(p, q)
    requires EnvelopeOf(s, fs, p, notices, semanticIds).Ok?
    ensures EnvelopeOf(s, fs, q, [], {}).Ok?
    ensures EnvelopeOf(s, fs, q, [], {}).value.basis.decision ==
      EnvelopeOf(s, fs, p, notices, semanticIds).value.basis.decision
  {
    var d := DiagnosisOf(s, fs);
    EnvelopeParts(s, fs, p, notices, semanticIds);
    SelectionParts(d, fs, p);
    SelectionFailsExactly(d, fs, p);
    SelectionFailsExactly(d, fs, q);
    AssembledIsValid(s, fs, q, [], {});
    EnvelopeParts(s, fs, q, [], {});
    SelectionParts(d, fs, q);
    LadderDecides(d.causes, fs, p, q);
  }

  // -------------------------------------------------------------------- scores

  /** The weight of a finding: the semantic detector's for the injected one, and otherwise
      that of its class. */
  ghost predicate Weighs(f: Finding, p: RunPolicy, injected: bool, weight: real) {
    if injected then p.semantic.Some? && weight == p.semantic.value.weight
    else
      match f.findingClass
      case RepetitionClass => weight == p.weights.repetition
      case NoProgressClass => weight == p.weights.noProgress
      case RiskClass => weight == p.weights.risk
      case BudgetClass => weight == p.weights.budget
  }

  /** A contribution is a matched finding with its weight. */
  ghost predicate Contributed(x: Contribution, f: Finding, p: RunPolicy, injected: bool) {
    && f.matched && x.matched && x.id == f.id && x.findingClass == f.findingClass && x.score == f.score
    && Weighs(f, p, injected, x.weight) && x.weightedScore == x.weight * x.score
  }

  /** Contributions are exactly the matched findings, each with its weight. */
  lemma {:induction false} ContributionsAreWeighed(fs: seq<Finding>, p: RunPolicy, semanticIds: set<FindingId>)
    requires WithinContract(p) && (forall f | f in fs :: ValidFinding(f)) && (semanticIds != {} ==> p.semantic.Some?)
    ensures forall x | x in Contributions(fs, p, semanticIds, |fs|) ::
      exists f :: f in fs && Contributed(x, f, p, f.id in semanticIds)
    ensures forall f | f in fs && f.matched ::
      exists x :: x in Contributions(fs, p, semanticIds, |fs|) && Contributed(x, f, p, f.id in semanticIds)
  {
    var cs := Contributions(fs, p, semanticIds, |fs|);
    forall x | x in cs
      ensures exists f :: f in fs && Contributed(x, f, p, f.id in semanticIds)
    {
      ContributionsMeaning(fs, p, semanticIds, |fs|, x);
      var i :| 0 <= i < |fs| && fs[i].matched && x == ContributionOf(fs[i], p, semanticIds);
      IsContributed(fs[i], p, semanticIds);
    }
    forall f | f in fs && f.matched
      ensures exists x :: x in cs && Contributed(x, f, p, f.id in semanticIds)
    {
      var i :| 0 <= i < |fs| && fs[i] == f;
      ContributionsMeaning(fs, p, semanticIds, |fs|, ContributionOf(f, p, semanticIds));
      IsContributed(f, p, semanticIds);
    }
  }

  lemma {:induction false} IsContributed(f: Finding, p: RunPolicy, semanticIds: set<FindingId>)
    requires WithinContract(p) && ValidFinding(f) && f.matched && (semanticIds != {} ==> p.semantic.Some?)
    ensures Contributed(ContributionOf(f, p, semanticIds), f, p, f.id in semanticIds)
  {
    WeightedScoreIsProduct(f, p, semanticIds);
  }

  lemma {:induction false} WeightIsFraction(p: RunPolicy, c: FindingClass)
    requires WithinContract(p)
    ensures Fraction(p.weights.Of(c))
  {
    match c
    case RepetitionClass =>
    case NoProgressClass =>
    case RiskClass =>
    case BudgetClass =>
  }

  ghost predicate ObservedBelow(fs: seq<Finding>, n: nat, c: FindingClass)
    requires n <= |fs|
  {
    exists i :: 0 <= i < n && fs[i].matched && fs[i].findingClass == c
  }

  lemma {:induction false} ScoreAt(fs: seq<Finding>, p: RunPolicy, n: nat, c: FindingClass)
    requires n <= |fs| && WithinContract(p)
    requires forall f | f in fs && f.matched :: f.score == 1.0
    ensures Score(Contributions(fs, p, {}, n), c) == if ObservedBelow(fs, n, c) then p.weights.Of(c) else 0.0
  {
    if n > 0 {
      ScoreAt(fs, p, n - 1, c);
      var last := fs[n - 1];
      assert last in fs;
      assert ObservedBelow(fs, n, c) <==> ObservedBelow(fs, n - 1, c) || (last.matched && last.findingClass == c);
      if last.matched {
        var x := ContributionOf(last, p, {});
        ScoreStep(Contributions(fs, p, {}, n - 1), x, c);
        WeightIsFraction(p, last.findingClass);
        assert x.weightedScore == p.weights.Of(last.findingClass);
      } else {
        assert Contributions(fs, p, {}, n) == Contributions(fs, p, {}, n - 1);
      }
    }
  }

  /** Deterministic findings match with score 1, so a class scores its weight or nothing. */
  lemma {:induction false} ScoreIsWeight(fs: seq<Finding>, p: RunPolicy, c: FindingClass)
    requires WithinContract(p) && forall f | f in fs && f.matched :: f.score == 1.0
    ensures Score(Contributions(fs, p, {}, |fs|), c) == if Observed(fs, c) then p.weights.Of(c) else 0.0
  {
    ScoreAt(fs, p, |fs|, c);
    if f :| f in fs && f.matched && f.findingClass == c {
      var i :| 0 <= i < |fs| && fs[i] == f;
    }
  }

  ghost predicate CarriesWeight(fs: seq<Finding>, p: RunPolicy, semanticIds: set<FindingId>, c: FindingClass) {
    exists f :: f in fs && f.matched && f.findingClass == c && WeightFor(f, p, semanticIds) * f.score > 0.0
  }

  /** In general: a class carries weight exactly when a matched finding of it does. */
  lemma {:induction false} ScoreIsPositive(fs: seq<Finding>, p: RunPolicy, semanticIds: set<FindingId>, c: FindingClass)
    requires WithinContract(p) && forall f | f in fs :: ValidFinding(f)
    ensures Score(Contributions(fs, p, semanticIds, |fs|), c) > 0.0 <==> CarriesWeight(fs, p, semanticIds, c)
  {
    var cs := Contributions(fs, p, semanticIds, |fs|);
    ClassMaxMeaning(cs, |cs|, c);
    if Score(cs, c) > 0.0 {
      var i :| 0 <= i < |cs| && cs[i].findingClass == c && cs[i].weightedScore == Score(cs, c);
      ContributionsMeaning(fs, p, semanticIds, |fs|, cs[i]);
      var k :| 0 <= k < |fs| && fs[k].matched && cs[i] == ContributionOf(fs[k], p, semanticIds);
      WeightedScoreIsProduct(fs[k], p, semanticIds);
    }
    if f :| f in fs && f.matched && f.findingClass == c && WeightFor(f, p, semanticIds) * f.score > 0.0 {
      var k :| 0 <= k < |fs| && fs[k] == f;
      var x := ContributionOf(f, p, semanticIds);
      ContributionsMeaning(fs, p, semanticIds, |fs|, x);
      WeightedScoreIsProduct(f, p, semanticIds);
      var i :| 0 <= i < |cs| && cs[i] == x;
    }
  }
}

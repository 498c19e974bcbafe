/** One analysis: a trace and a policy, with at most one injected finding, become one
    advisory decision. */
module Controller {
  import opened Prelude
  import opened TraceEvents
  import opened RunPolicies
  import opened Detectors
  import opened HardStops
  import opened Envelopes
  import Decisions

  /** What the injected detector does when it is called, if there is one. */
  datatype SemanticAnswer = Absent | Raised | NotARecord | NonConforming | Returned(finding: Finding, name: string)

  datatype AnalysisError =
    | EmptyTrace | TraceItemLimit | InvalidTrace(problem: DetectorError) | InvalidRunPolicy
    | RequiredDetectorUnavailable | InvalidSemanticFinding
    | DetectorExecutionFailed | FindingItemLimit | InvalidDetectorFinding | DuplicateFindingId
    | HardStopFailed(stop: StopError) | Assembly(assembly: EnvelopeError)

  const MAX_ITEMS: nat := 10000

  ghost function InputProblem(s: Trace, p: RunPolicy): Option<AnalysisError> {
    if s == [] then Some(EmptyTrace)
    else if |s| > MAX_ITEMS then Some(TraceItemLimit)
    else if TraceProblem(s).Some? then Some(InvalidTrace(TraceProblem(s).value))
    else if !ValidPolicy(p) then Some(AnalysisError.InvalidRunPolicy)
    else None
  }

  method CheckInputs(s: Trace, p: RunPolicy) returns (problem: Option<AnalysisError>)
    ensures problem == InputProblem(s, p)
  {
    if s == [] {
      return Some(EmptyTrace);
    }
    if |s| > MAX_ITEMS {
      return Some(TraceItemLimit);
    }
    var invalid := CheckTrace(s);
    if invalid.Some? {
      return Some(InvalidTrace(invalid.value));
    }
    return if ValidPolicy(p) then None else Some(AnalysisError.InvalidRunPolicy);
  }

  // -------------------------------------------------------- the optional detector

  datatype SemanticResult = SemanticResult(finding: Option<Finding>, notices: seq<Notice>)

  /** A missing or failing optional detector is a notice; a malformed answer, or one in
      a class that could stop the run, always is an error. */
  function SemanticOf(p: RunPolicy, answer: SemanticAnswer, runId: string): Result<SemanticResult, AnalysisError> {
    if p.semantic.None? || !p.semantic.value.enabled then Ok(SemanticResult(None, []))
    else
      match answer
      case Absent => Excused(p, Notice("semantic_detector", Unavailable))
      case Raised => Excused(p, Notice("semantic_detector", Degraded))
      case NotARecord => Err(InvalidSemanticFinding)
      case NonConforming => Err(AnalysisError.InvalidDetectorFinding)
      case Returned(f, name) =>
        if !ValidFinding(f) || f.runId != runId then Err(AnalysisError.InvalidDetectorFinding)
        else if f.findingClass in {RiskClass, BudgetClass} then Err(InvalidSemanticFinding)
        else if f.availability.Available? then Ok(SemanticResult(Some(f), []))
        else Excused(p, Notice(name, f.availability))
  }

  function Excused(p: RunPolicy, notice: Notice): Result<SemanticResult, AnalysisError>
    requires p.semantic.Some?
  {
    if p.semantic.value.required then Err(RequiredDetectorUnavailable) else Ok(SemanticResult(None, [notice]))
  }

  // ------------------------------------------------------------------- findings

  const DETECTORS: seq<Detector> := [ExactRepetition, Cycle, RepeatedError, UnchangedState, AcceptanceStall, BudgetBurn]

  ghost function Detections(ds: seq<Detector>, s: Trace, p: RunPolicy,
        n: nat): (rs: seq<Result<Finding, DetectorError>>)
    requires n <= |ds| && WithinContract(p)
    ensures |rs| == n
  {
    if n == 0 then [] else Detections(ds, s, p, n - 1) + [DetectionOf(ds[n - 1], s, p)]
  }

  lemma {:induction false} DetectionAt(ds: seq<Detector>, s: Trace, p: RunPolicy, n: nat, k: nat)
    requires k < n <= |ds| && WithinContract(p)
    ensures Detections(ds, s, p, n)[k] == DetectionOf(ds[k], s, p)
  {
    if k < n - 1 {
      DetectionAt(ds, s, p, n - 1, k);
    }
  }

  ghost function DetectorFindings(ds: seq<Detector>, s: Trace, p: RunPolicy): Result<seq<Finding>, DetectorError>
    requires WithinContract(p)
  {
    AllOk(Detections(ds, s, p, |ds|), |ds|)
  }

  method RunDetectors(ds: seq<Detector>, s: Trace, p: RunPolicy) returns (r: Result<seq<Finding>, DetectorError>)
    requires WithinContract(p)
    ensures r == DetectorFindings(ds, s, p)
  {
    ghost var rs := Detections(ds, s, p, |ds|);
    var findings: seq<Finding> := [];
    for n := 0 to |ds|
      invariant AllOk(rs, n) == Ok(findings)
    {
      DetectionAt(ds, s, p, |ds|, n);
      var finding := Detect(ds[n], s, p);
      if finding.Err? {
        FailureIsFinal(rs, n + 1, |ds|);
        return Err(finding.error);
      }
      findings := findings + [finding.value];
    }
    return Ok(findings);
  }

  function FindingsError(fs: seq<Finding>, runId: string): Option<AnalysisError> {
    if |fs| > MAX_ITEMS then Some(FindingItemLimit)
    else if exists f | f in fs :: !ValidFinding(f) || f.runId != runId then Some(AnalysisError.InvalidDetectorFinding)
    else if !Decisions.DistinctIds(fs) then Some(AnalysisError.DuplicateFindingId)
    else None
  }

  function Listed<T>(o: Option<T>): seq<T> {
    if o.Some? then [o.value] else []
  }

  function Stopped(settled: Settled): seq<Finding> {
    if settled.Some? && settled.value.Ok? then [settled.value.value] else []
  }

  predicate Failed(settled: Settled) {
    settled.Some? && settled.value.Err?
  }

  datatype Collected = Collected(findings: seq<Finding>, notices: seq<Notice>, semanticIds: set<FindingId>)

  /** Deterministic findings first, then the hard stops, then the injected one. */
  function Combine(found: seq<Finding>, budget: Settled, risk: Settled, semantic: SemanticResult): Collected {
    Collected(found + Stopped(budget) + Stopped(risk) + Listed(semantic.finding), semantic.notices,
              if semantic.finding.Some? then {semantic.finding.value.id} else {})
  }

  function Accept(c: Collected, runId: string): Result<Collected, AnalysisError> {
    if FindingsError(c.findings, runId).Some? then Err(FindingsError(c.findings, runId).value) else Ok(c)
  }

  ghost function WithHardStops(s: Trace, p: RunPolicy, found: seq<Finding>,
        semantic: SemanticResult): Result<Collected, AnalysisError>
    requires s != []
  {
    var budget, risk := HardBudgetOf(s, p.wholeRun), HardRiskOf(s, p.repeatsNonIdempotent);
    if Failed(budget) then Err(HardStopFailed(budget.value.error))
    else if Failed(risk) then Err(HardStopFailed(risk.value.error))
    else Accept(Combine(found, budget, risk, semantic), s[0].runId)
  }

  ghost function CollectedOf(s: Trace, p: RunPolicy, answer: SemanticAnswer): Result<Collected, AnalysisError>
    requires s != [] && WithinContract(p)
  {
    var semantic := SemanticOf(p, answer, s[0].runId);
    if semantic.Err? then Err(semantic.error)
    else
      var found := DetectorFindings(DETECTORS, s, p);
      if found.Err? then Err(DetectorExecutionFailed)
      else if FindingsError(found.value, s[0].runId).Some? then Err(FindingsError(found.value, s[0].runId).value)
      else WithHardStops(s, p, found.value, semantic.value)
  }

  method Collect(s: Trace, p: RunPolicy, answer: SemanticAnswer) returns (r: Result<Collected, AnalysisError>)
    requires s != [] && WithinContract(p)
    ensures r == CollectedOf(s, p, answer)
  {
    var semantic := SemanticOf(p, answer, s[0].runId);
    if semantic.Err? {
      return Err(semantic.error);
    }
    var found := RunDetectors(DETECTORS, s, p);
    if found.Err? {
      return Err(DetectorExecutionFailed);
    }
    var problem := FindingsError(found.value, s[0].runId);
    if problem.Some? {
      return Err(problem.value);
    }
    var budget := HardBudget(s, p.wholeRun);
    if Failed(budget) {
      return Err(HardStopFailed(budget.value.error));
    }
    var risk := HardRisk(s, p.repeatsNonIdempotent);
    if Failed(risk) {
      return Err(HardStopFailed(risk.value.error));
    }
    return Accept(Combine(found.value, budget, risk, semantic.value), s[0].runId);
  }

  // ------------------------------------------------------------------- analysis

  ghost function AnalysisOf(s: Trace, p: RunPolicy, answer: SemanticAnswer): Result<Envelope, AnalysisError> {
    if InputProblem(s, p).Some? then Err(InputProblem(s, p).value)
    else
      var collected := CollectedOf(s, p, answer);
      if collected.Err? then Err(collected.error)
      else
        var c := collected.value;
        var envelope := EnvelopeOf(s, c.findings, p, c.notices, c.semanticIds);
        if envelope.Err? then Err(Assembly(envelope.error)) else Ok(envelope.value)
  }

  method Analyze(s: Trace, p: RunPolicy, answer: SemanticAnswer) returns (r: Result<Envelope, AnalysisError>)
    ensures r == AnalysisOf(s, p, answer)
  {
    var problem := CheckInputs(s, p);
    if problem.Some? {
      return Err(problem.value);
    }
    var collected := Collect(s, p, answer);
    if collected.Err? {
      return Err(collected.error);
    }
    var Collected(findings, notices, semanticIds) := collected.value;
    var envelope := BuildEnvelope(s, findings, p, notices, semanticIds);
    return if envelope.Err? then Err(Assembly(envelope.error)) else Ok(envelope.value);
  }

  // ---------------------------------------------------------------- instruction

  datatype ToolCategory = ReadOnlyTools | AnalysisTools | ValidationTools

  datatype ForbiddenAction = CredentialAccess | AuthorityGrant | NetworkPublish | NonIdempotentRepeat

  datatype Order = Order(
    runId: string,
    gaps: seq<GapKind>,
    budget: BudgetCounters,
    allowedTools: set<ToolCategory>,
    forbidden: set<ForbiddenAction>,
    evidence: seq<string>,
    rejected: seq<string>,
    cooling: Cooling,
    advisoryOnly: bool,
    grantsAuthority: bool)

  datatype InstructionError = InvalidRecoveryDecision

  /** The instruction id is a digest of everything else. */
  datatype Instruction = Instruction(id: Order, order: Order)

  /** The ranges of the instruction contract. */
  predicate ValidInstruction(x: Instruction) {
    var o := x.order;
    && SchemaIdentifier(o.runId)
    && |o.gaps| <= 16
    && |o.evidence| <= 1000 && Distinct(o.evidence) && (forall id | id in o.evidence :: SchemaIdentifier(id))
    && |o.rejected| <= 100 && Distinct(o.rejected)
    && o.advisoryOnly && !o.grantsAuthority
  }

  /** An instruction carries over what the decision found, and grants nothing. */
  predicate Carries(x: Instruction, e: Envelope) {
    var o := x.order;
    && x.id == o
    && o.runId == e.basis.runId && o.gaps == e.basis.gaps && o.budget == e.basis.budget
    && o.evidence == e.basis.evidence && o.rejected == e.basis.rejected && o.cooling == e.basis.cooling
    && o.allowedTools == {ReadOnlyTools, AnalysisTools, ValidationTools}
    && o.forbidden == {CredentialAccess, AuthorityGrant, NetworkPublish, NonIdempotentRepeat}
    && o.advisoryOnly && !o.grantsAuthority
  }

  /** The second boundary: nothing for any other decision, a refusal for a reheat that is
      not recoverable, and otherwise an instruction, which its own contract accepts. */
  method BuildRecoveryInstruction(e: Envelope) returns (r: Result<Option<Instruction>, InstructionError>)
    requires ValidEnvelope(e)
    ensures r.Err? <==> e.basis.decision.Reheat? && !Recoverable(e)
    ensures r.Ok? ==> (r.value.Some? <==> e.basis.decision.Reheat?)
    ensures r.Ok? && r.value.Some? ==> Carries(r.value.value, e) && ValidInstruction(r.value.value)
  {
    if !e.basis.decision.Reheat? {
      return Ok(None);
    }
    var accepted := ValidateRecoveryDecision(e);
    if !accepted {
      return Err(InvalidRecoveryDecision);
    }
    var b := e.basis;
    var order := Order(b.runId, b.gaps, b.budget, {ReadOnlyTools, AnalysisTools, ValidationTools},
                       {CredentialAccess, AuthorityGrant, NetworkPublish, NonIdempotentRepeat},
                       b.evidence, b.rejected, b.cooling, true, false);
    var instruction := Instruction(order, order);
    return if ValidInstruction(instruction) then Ok(Some(instruction)) else Err(InvalidRecoveryDecision);
  }
}

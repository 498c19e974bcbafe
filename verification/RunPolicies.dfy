/** The host's validated policy, and the closed records findings are reported in. */
module RunPolicies {
  import opened Prelude
  import opened TraceEvents

  datatype FindingClass = RepetitionClass | NoProgressClass | RiskClass | BudgetClass

  datatype Stage = Stage(permitted: bool, requiresHostAction: bool)

  datatype Ladder = Ladder(nudge: Stage, diagnose: Stage, reheat: Stage, restart: Stage, escalate: Stage, stop: Stage)

  /** One number per finding class; used for thresholds and for weights. */
  datatype PerClass = PerClass(repetition: real, noProgress: real, risk: real, budget: real) {
    function Of(c: FindingClass): real {
      match c
      case RepetitionClass => repetition
      case NoProgressClass => noProgress
      case RiskClass => risk
      case BudgetClass => budget
    }
  }

  datatype SemanticConfig = SemanticConfig(enabled: bool, weight: real, required: bool, canRelaxHardStops: bool)

  /** What the host has to wait for; it is only handed on. */
  datatype Cooling = Cooling(minimumElapsedSeconds: real, requireNewEvidence: bool, minimumAcceptanceGain: real)

  datatype RunPolicy = RunPolicy(
    repetitionEvents: nat,
    noProgressEvents: nat,
    thresholds: PerClass,
    weights: PerClass,
    semantic: Option<SemanticConfig>,
    requiredClasses: set<FindingClass>,
    minimumCount: nat,
    budgetCanSubstitute: bool,
    ladder: Ladder,
    perIntervention: BudgetCounters,
    wholeRun: BudgetCounters,
    cooling: Cooling,
    maxRecoveryEpisodes: nat,
    repeatableEffects: set<EffectClass>,
    repeatsNonIdempotent: bool,
    repeatsUnknown: bool)

  predicate Fraction(x: real) {
    0.0 <= x <= 1.0
  }

  predicate Fractions(p: PerClass) {
    Fraction(p.repetition) && Fraction(p.noProgress) && Fraction(p.risk) && Fraction(p.budget)
  }

  /** The numeric ranges of the policy contract. */
  predicate WithinContract(p: RunPolicy) {
    && p.repetitionEvents >= 1 && p.noProgressEvents >= 1
    && Fractions(p.thresholds) && Fractions(p.weights)
    && (p.semantic.Some? ==> Fraction(p.semantic.value.weight))
  }

  predicate CoversEach(whole: BudgetCounters, part: BudgetCounters) {
    && whole.turns >= part.turns && whole.toolCalls >= part.toolCalls && whole.tokens >= part.tokens
    && whole.elapsedSeconds >= part.elapsedSeconds && whole.cost >= part.cost
  }

  /** The semantic safety rules every policy is rechecked against. */
  predicate IsSafe(p: RunPolicy) {
    && CoversEach(p.wholeRun, p.perIntervention)
    && p.requiredClasses == {RepetitionClass, NoProgressClass}
    && p.minimumCount == 2
    && !p.budgetCanSubstitute
    && p.ladder.restart.requiresHostAction
    && p.ladder.escalate.requiresHostAction
    && p.ladder.escalate.permitted
    && p.ladder.stop.permitted
    && !(p.ladder.reheat.permitted && p.maxRecoveryEpisodes == 0)
    && !p.repeatsNonIdempotent
    && !p.repeatsUnknown
    && p.repeatableEffects <= {ReadOnly, IdempotentWrite}
    && (p.semantic.Some? ==> !p.semantic.value.canRelaxHardStops)
  }

  predicate ValidPolicy(p: RunPolicy) {
    WithinContract(p) && IsSafe(p)
  }

  predicate AllowsReheat(p: RunPolicy) {
    p.ladder.reheat.permitted && p.maxRecoveryEpisodes > 0
  }

  // ----------------------------------------------------------------- findings

  datatype ReasonCode =
    | RepetitionDetected | NoProgressDetected | RiskDetected | BudgetLimitReached
    | DetectorDegraded | DetectorUnavailable

  /** A derived id stands for a digest over exactly these parts. */
  datatype FindingId = Derived(detector: string, runId: string, eventIds: seq<string>) | External(id: string)

  datatype Availability = Available | Degraded | Unavailable

  /** What is said instead of a finding; the wording follows from the status. */
  datatype Notice = Notice(detector: string, status: Availability)

  datatype Finding = Finding(
    runId: string,
    id: FindingId,
    matched: bool,
    score: real,
    findingClass: FindingClass,
    eventIds: seq<string>,
    reason: ReasonCode,
    availability: Availability)

  const MAX_SUPPORT: nat := 1000

  /** The finding contract. */
  predicate ValidFinding(f: Finding) {
    && SchemaIdentifier(f.runId)
    && Fraction(f.score)
    && 1 <= |f.eventIds| <= MAX_SUPPORT
    && Distinct(f.eventIds)
    && forall id | id in f.eventIds :: SchemaIdentifier(id)
  }

  function ReasonOf(c: FindingClass): ReasonCode {
    match c
    case RepetitionClass => RepetitionDetected
    case NoProgressClass => NoProgressDetected
    case RiskClass => RiskDetected
    case BudgetClass => BudgetLimitReached
  }
}

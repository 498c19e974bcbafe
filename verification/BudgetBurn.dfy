/** Budget burn: cumulative counters rise while nothing shows progress. */
module BudgetBurn {
  import opened Prelude
  import opened TraceEvents
  import opened DetectorOutcomes
  import opened FirstOutcomes

  predicate IsBudget(e: TraceEvent) {
    e.kind.Budget? && e.budgetCounters.Some?
  }

  function Counters(e: TraceEvent): BudgetCounters
    requires IsBudget(e)
  {
    e.budgetCounters.value
  }

  predicate IsReset(current: BudgetCounters, prior: BudgetCounters) {
    || current.turns < prior.turns
    || current.toolCalls < prior.toolCalls
    || current.tokens < prior.tokens
    || current.elapsedSeconds < prior.elapsedSeconds
    || current.cost < prior.cost
  }

  /** No counter falls and some counter rises. */
  predicate IsBurnCandidate(current: BudgetCounters, baseline: BudgetCounters) {
    && (current.turns >= baseline.turns && current.toolCalls >= baseline.toolCalls &&
        current.tokens >= baseline.tokens &&
        current.elapsedSeconds >= baseline.elapsedSeconds && current.cost >= baseline.cost)
    && (current.turns > baseline.turns || current.toolCalls > baseline.toolCalls || current.tokens > baseline.tokens ||
        current.elapsedSeconds > baseline.elapsedSeconds || current.cost > baseline.cost)
  }

  /** The last budget event before position `n`. */
  function PriorBudget(s: Trace, n: nat): (p: Option<nat>)
    requires n <= |s|
    ensures p.Some? ==> p.value < n && IsBudget(s[p.value])
  {
    if n == 0 then None
    else if IsBudget(s[n - 1]) then Some(n - 1)
    else PriorBudget(s, n - 1)
  }

  /** The first event of the run of equal readings that ends at `p`. */
  function PlateauStart(s: Trace, p: nat): (start: nat)
    requires p < |s| && IsBudget(s[p])
    ensures start <= p && IsBudget(s[start]) && Counters(s[start]) == Counters(s[p])
  {
    var q := PriorBudget(s, p);
    if q.Some? && Counters(s[q.value]) == Counters(s[p]) then PlateauStart(s, q.value) else p
  }

  /** The simple form: only the adjacent budget reading matters, and where its plateau began. */
  ghost function BurnVerdict(s: Trace, j: nat): Option<Outcome>
    requires j < |s|
  {
    var p := PriorBudget(s, j);
    if IsBudget(s[j]) && p.Some? && IsBurnCandidate(Counters(s[j]), Counters(s[p.value])) &&
       !ShowsProgress(s[PlateauStart(s, p.value)..j + 1])
    then Some(Match([PlateauStart(s, p.value), j]))
    else None
  }

  ghost function BurnVerdicts(s: Trace): Verdicts {
    seq(|s|, j requires 0 <= j < |s| => BurnVerdict(s, j))
  }

  /** The scan's baseline is always the start of the current plateau, and its `prior`
      counters always equal the baseline's. */
  ghost predicate Tracks(s: Trace, n: nat, baseline: Option<nat>, prior: Option<BudgetCounters>)
    requires n <= |s|
  {
    var p := PriorBudget(s, n);
    && (baseline.Some? <==> p.Some?)
    && (p.Some? ==> baseline.value == PlateauStart(s, p.value) && prior == Some(Counters(s[p.value])))
  }

  /** The loop body: reset, no change, or a rise that burns or rebases. */
  method Burn(window: Trace, position: nat, baseline: Option<nat>, prior: Option<BudgetCounters>)
    returns (outcome: Option<Outcome>, baseline': Option<nat>, prior': Option<BudgetCounters>)
    requires Contiguous(window) && position < |window| && Tracks(window, position, baseline, prior)
    ensures outcome == BurnVerdict(window, position)
    ensures outcome.None? ==> Tracks(window, position + 1, baseline', prior')
  {
    var event := window[position];
    if !IsBudget(event) {
      return None, baseline, prior;
    }
    var counters := Counters(event);
    if baseline.None? {
      return None, Some(position), Some(counters);
    }
    if IsReset(counters, prior.value) {
      return None, Some(position), Some(counters);
    }
    if !IsBurnCandidate(counters, Counters(window[baseline.value])) {
      return None, baseline, Some(counters);
    }
    var made := ProgressBetween(window, baseline.value, position);
    if !made {
      return Some(Match([baseline.value, position])), baseline, Some(counters);
    }
    return None, Some(position), Some(counters);
  }

  method DetectBudgetBurn(window: Trace) returns (outcome: Option<Outcome>)
    requires Contiguous(window)
    ensures outcome == FirstOutcome(BurnVerdicts(window))
  {
    ghost var verdicts := BurnVerdicts(window);
    var baseline: Option<nat> := None;
    var prior: Option<BudgetCounters> := None;
    for position := 0 to |window|
      invariant FirstOutcome(verdicts[..position]).None?
      invariant Tracks(window, position, baseline, prior)
    {
      ScanStep(verdicts, position);
      outcome, baseline, prior := Burn(window, position, baseline, prior);
      if outcome.Some? {
        return outcome;
      }
    }
    ScanEnd(verdicts);
    return None;
  }

  lemma {:induction false} NoBudgetBetween(s: Trace, n: nat)
    requires n <= |s|
    ensures forall i | 0 <= i < n && IsBudget(s[i]) :: PriorBudget(s, n).Some? && i <= PriorBudget(s, n).value
  {
    if n > 0 && !IsBudget(s[n - 1]) {
      NoBudgetBetween(s, n - 1);
    }
  }

  /** A plateau is a longest run of equal readings. */
  lemma {:induction false} PlateauMeaning(s: Trace, p: nat)
    requires p < |s| && IsBudget(s[p])
    ensures var start := PlateauStart(s, p);
      && (forall i | start <= i <= p && IsBudget(s[i]) :: Counters(s[i]) == Counters(s[p]))
      && (PriorBudget(s, start).Some? ==> Counters(s[PriorBudget(s, start).value]) != Counters(s[start]))
  {
    NoBudgetBetween(s, p);
    var q := PriorBudget(s, p);
    if q.Some? && Counters(s[q.value]) == Counters(s[p]) {
      PlateauMeaning(s, q.value);
    }
  }

  /** Two budget readings with none between. */
  ghost predicate AdjacentReadings(s: Trace, m: nat, n: nat) {
    m < n < |s| && IsBudget(s[m]) && IsBudget(s[n]) && forall x | m < x < n :: !IsBudget(s[x])
  }

  /** Between `i` and `j` the readings stay what they are at `i`, the first of that value;
      at `j` they rise, and nothing from `i` to `j` shows progress. */
  ghost predicate Burns(s: Trace, i: nat, j: nat) {
    && i < j < |s| && IsBudget(s[i]) && IsBudget(s[j])
    && (forall m: nat | AdjacentReadings(s, m, i) :: Counters(s[m]) != Counters(s[i]))
    && (forall m | i < m < j && IsBudget(s[m]) :: Counters(s[m]) == Counters(s[i]))
    && IsBurnCandidate(Counters(s[j]), Counters(s[i]))
    && !ShowsProgress(s[i..j + 1])
  }

  lemma {:induction false} PriorIsAdjacent(s: Trace, n: nat)
    requires n < |s| && IsBudget(s[n])
    ensures PriorBudget(s, n).None? ==> forall m: nat :: !AdjacentReadings(s, m, n)
    ensures PriorBudget(s, n).Some? ==> AdjacentReadings(s, PriorBudget(s, n).value, n)
    ensures forall m: nat | AdjacentReadings(s, m, n) :: PriorBudget(s, n) == Some(m)
  {
    NoBudgetBetween(s, n);
  }

  /** A run of equal readings that starts where they differed before is the plateau. */
  lemma {:induction false} PlateauIs(s: Trace, p: nat, i: nat)
    requires i <= p < |s| && IsBudget(s[i]) && IsBudget(s[p])
    requires forall m: nat | AdjacentReadings(s, m, i) :: Counters(s[m]) != Counters(s[i])
    requires forall m | i < m <= p && IsBudget(s[m]) :: Counters(s[m]) == Counters(s[i])
    ensures PlateauStart(s, p) == i
  {
    PriorIsAdjacent(s, p);
    if i < p {
      NoBudgetBetween(s, p);
      PlateauIs(s, PriorBudget(s, p).value, i);
    }
  }

  lemma {:induction false} VerdictBurns(s: Trace, j: nat)
    requires j < |s| && BurnVerdict(s, j).Some?
    ensures |BurnVerdict(s, j).value.support| == 2
    ensures Burns(s, BurnVerdict(s, j).value.support[0], j)
  {
    var p := PriorBudget(s, j).value;
    var i := PlateauStart(s, p);
    PlateauMeaning(s, p);
    PriorIsAdjacent(s, i);
    PriorIsAdjacent(s, j);
  }

  lemma {:induction false} BurningIsReported(s: Trace, i: nat, j: nat)
    requires Burns(s, i, j)
    ensures BurnVerdict(s, j) == Some(Match([i, j]))
  {
    NoBudgetBetween(s, j);
    var p := PriorBudget(s, j).value;
    PlateauIs(s, p, i);
  }

  ghost predicate EndsBurn(s: Trace, j: nat) {
    exists i: nat :: Burns(s, i, j)
  }

  lemma {:induction false} DecidesExactly(s: Trace, j: nat)
    requires j < |s|
    ensures BurnVerdicts(s)[j].Some? <==> EndsBurn(s, j)
  {
    if BurnVerdict(s, j).Some? {
      VerdictBurns(s, j);
    }
    if i: nat :| Burns(s, i, j) {
      BurningIsReported(s, i, j);
    }
  }

  /** A burn is reported exactly when some rise of the readings ends a plateau without
      progress. */
  lemma {:induction false} BurnMeaning(s: Trace)
    ensures FirstOutcome(BurnVerdicts(s)).Some? <==> exists j :: 0 <= j < |s| && EndsBurn(s, j)
  {
    var verdicts := BurnVerdicts(s);
    forall j: nat | j < |s|
      ensures verdicts[j].Some? <==> EndsBurn(s, j)
    {
      DecidesExactly(s, j);
    }
    OutcomeIfAny(verdicts);
  }

  /** What is reported is the earliest such rise, with the plateau's first event. */
  lemma {:induction false} EarliestBurn(s: Trace) returns (i: nat, j: nat)
    requires FirstOutcome(BurnVerdicts(s)).Some?
    ensures Burns(s, i, j) && FirstOutcome(BurnVerdicts(s)) == Some(Match([i, j]))
    ensures forall k: nat | k < j :: !EndsBurn(s, k)
  {
    j := OutcomeIsFirst(BurnVerdicts(s));
    DecidesExactly(s, j);
    i :| Burns(s, i, j);
    BurningIsReported(s, i, j);
    forall k: nat | k < j
      ensures !EndsBurn(s, k)
    {
      DecidesExactly(s, k);
    }
  }

  lemma {:induction false} PriorBudgetLocal(s: Trace, t: Trace, n: nat)
    requires n <= |s|
    ensures PriorBudget(s + t, n) == PriorBudget(s, n)
  {
    if n > 0 {
      PriorBudgetLocal(s, t, n - 1);
    }
  }

  lemma {:induction false} PlateauStartLocal(s: Trace, t: Trace, p: nat)
    requires p < |s| && IsBudget(s[p])
    ensures PlateauStart(s + t, p) == PlateauStart(s, p)
  {
    PriorBudgetLocal(s, t, p);
    var q := PriorBudget(s, p);
    if q.Some? && Counters(s[q.value]) == Counters(s[p]) {
      PlateauStartLocal(s, t, q.value);
    }
  }

  lemma {:induction false} BurnVerdictLocal(s: Trace, t: Trace, j: nat)
    requires j < |s|
    ensures BurnVerdict(s + t, j) == BurnVerdict(s, j)
  {
    PriorBudgetLocal(s, t, j);
    var p := PriorBudget(s, j);
    if p.Some? {
      PlateauStartLocal(s, t, p.value);
      assert (s + t)[PlateauStart(s, p.value)..j + 1] == s[PlateauStart(s, p.value)..j + 1];
    }
  }

  lemma {:induction false} SupportInWindow(s: Trace, j: nat)
    requires j < |s| && BurnVerdicts(s)[j].Some? && BurnVerdicts(s)[j].value.Match?
    ensures forall p | p in BurnVerdicts(s)[j].value.support :: p <= j
  {
  }
}

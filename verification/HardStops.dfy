/** The two deterministic hard stops: a whole-run budget that was reached, and an unsafe
    tool call that was repeated. */
module HardStops {
  import opened Prelude
  import opened FirstOutcomes
  import opened TraceEvents
  import opened RunPolicies

  datatype StopError = InvalidPayloadIdentity | InvalidSyntheticFinding

  /** What an event settles, if it settles anything. */
  type Settled = Option<Result<Finding, StopError>>

  function Synthetic(detector: string, c: FindingClass, runId: string, ids: seq<string>): Result<Finding, StopError> {
    var finding := Finding(runId, Derived(detector, runId, ids), true, 1.0, c, ids, ReasonOf(c), Available);
    if ValidFinding(finding) then Ok(finding) else Err(InvalidSyntheticFinding)
  }

  // ----------------------------------------------------------------- the budget

  predicate Reaches(e: TraceEvent, limit: BudgetCounters) {
    e.budgetCounters.Some? &&
    var counters := e.budgetCounters.value;
    || counters.turns >= limit.turns || counters.toolCalls >= limit.toolCalls || counters.tokens >= limit.tokens
    || counters.elapsedSeconds >= limit.elapsedSeconds || counters.cost >= limit.cost
  }

  function BudgetFinding(e: TraceEvent): Result<Finding, StopError> {
    Synthetic("hard-budget", BudgetClass, e.runId, [e.eventId])
  }

  ghost function BudgetSettled(s: Trace, limit: BudgetCounters, n: nat): (xs: seq<Settled>)
    requires n <= |s|
    ensures |xs| == n
  {
    if n == 0 then []
    else BudgetSettled(s, limit, n - 1) + [if Reaches(s[n - 1], limit) then Some(BudgetFinding(s[n - 1])) else None]
  }

  ghost function HardBudgetOf(s: Trace, limit: BudgetCounters): Settled {
    FirstOutcome(BudgetSettled(s, limit, |s|))
  }

  lemma {:induction false} BudgetSettledAt(s: Trace, limit: BudgetCounters, n: nat, j: nat)
    requires j < n <= |s|
    ensures BudgetSettled(s, limit, n)[j] == if Reaches(s[j], limit) then Some(BudgetFinding(s[j])) else None
  {
    if j < n - 1 {
      BudgetSettledAt(s, limit, n - 1, j);
    }
  }

  method HardBudget(s: Trace, limit: BudgetCounters) returns (settled: Settled)
    ensures settled == HardBudgetOf(s, limit)
  {
    ghost var all := BudgetSettled(s, limit, |s|);
    for j := 0 to |s|
      invariant FirstOutcome(all[..j]).None?
    {
      BudgetSettledAt(s, limit, |s|, j);
      ScanStep(all, j);
      if Reaches(s[j], limit) {
        return Some(BudgetFinding(s[j]));
      }
    }
    ScanEnd(all);
    return None;
  }

  /** The first event that reaches any limit, if there is one. */
  lemma {:induction false} BudgetMeaning(s: Trace, limit: BudgetCounters)
    ensures HardBudgetOf(s, limit).Some? <==> exists j :: 0 <= j < |s| && Reaches(s[j], limit)
    ensures HardBudgetOf(s, limit).Some? ==>
      exists j :: 0 <= j < |s| && Reaches(s[j], limit) && HardBudgetOf(s, limit).value == BudgetFinding(s[j]) &&
        forall k | 0 <= k < j :: !Reaches(s[k], limit)
  {
    var all := BudgetSettled(s, limit, |s|);
    forall j: nat | j < |s|
      ensures all[j].Some? <==> Reaches(s[j], limit)
    {
      BudgetSettledAt(s, limit, |s|, j);
    }
    if HardBudgetOf(s, limit).Some? {
      var j := OutcomeIsFirst(all);
      BudgetSettledAt(s, limit, |s|, j);
    } else if j :| 0 <= j < |s| && Reaches(s[j], limit) {
      SomeOutcome(all, j);
    }
  }

  lemma {:induction false} BudgetLocal(s: Trace, t: Trace, limit: BudgetCounters, n: nat)
    requires n <= |s|
    ensures BudgetSettled(s + t, limit, n) == BudgetSettled(s, limit, n)
  {
    if n > 0 {
      BudgetLocal(s, t, limit, n - 1);
    }
  }

  lemma {:induction false} BudgetPrefix(s: Trace, limit: BudgetCounters, m: nat, n: nat)
    requires m <= n <= |s|
    ensures BudgetSettled(s, limit, m) <= BudgetSettled(s, limit, n)
  {
    if m < n {
      BudgetPrefix(s, limit, m, n - 1);
    }
  }

  /** A run that was hard-stopped by its budget stays so: the same finding, whatever
      happens next. */
  lemma {:induction false} HardBudgetStays(s: Trace, t: Trace, limit: BudgetCounters)
    requires HardBudgetOf(s, limit).Some?
    ensures HardBudgetOf(s + t, limit) == HardBudgetOf(s, limit)
  {
    BudgetLocal(s, t, limit, |s|);
    BudgetPrefix(s + t, limit, |s|, |s + t|);
    var before, after := BudgetSettled(s, limit, |s|), BudgetSettled(s + t, limit, |s + t|);
    assert before + after[|before|..] == after;
    OutcomeIsStable(before, after[|before|..]);
  }

  // ------------------------------------------------------------ repeated calls

  predicate UnsafePair(a: EffectClass, b: EffectClass, mayRepeat: bool) {
    a.Unknown? || b.Unknown? || (!mayRepeat && (a.NonIdempotentWrite? || b.NonIdempotentWrite?))
  }

  ghost predicate IsCall(e: TraceEvent, identity: Identity) {
    e.kind.ToolCall? && IdentityOf(e) == Ok(Some(identity))
  }

  /** The first call with the identity, which is the one the scan remembers. */
  ghost function FirstCall(s: Trace, identity: Identity, n: nat): (first: Option<nat>)
    requires n <= |s|
    ensures first.Some? ==> first.value < n && IsCall(s[first.value], identity)
    ensures first.Some? ==> forall i | 0 <= i < first.value :: !IsCall(s[i], identity)
    ensures first.None? ==> forall i | 0 <= i < n :: !IsCall(s[i], identity)
  {
    if n == 0 then None
    else
      var before := FirstCall(s, identity, n - 1);
      if before.Some? then before else if IsCall(s[n - 1], identity) then Some(n - 1) else None
  }

  function RiskFinding(first: TraceEvent, later: TraceEvent): Result<Finding, StopError> {
    Synthetic("repeated-risky-call", RiskClass, later.runId, [first.eventId, later.eventId])
  }

  ghost function CallSettles(s: Trace, mayRepeat: bool, j: nat): Settled
    requires j < |s|
  {
    if !s[j].kind.ToolCall? then None
    else if IdentityOf(s[j]).Err? then Some(Err(StopError.InvalidPayloadIdentity))
    else if IdentityOf(s[j]).value.None? then None
    else
      var first := FirstCall(s, IdentityOf(s[j]).value.value, j);
      if first.Some? && UnsafePair(s[first.value].effectClass, s[j].effectClass, mayRepeat)
      then Some(RiskFinding(s[first.value], s[j]))
      else None
  }

  ghost function RiskSettled(s: Trace, mayRepeat: bool, n: nat): (xs: seq<Settled>)
    requires n <= |s|
    ensures |xs| == n
  {
    if n == 0 then [] else RiskSettled(s, mayRepeat, n - 1) + [CallSettles(s, mayRepeat, n - 1)]
  }

  ghost function HardRiskOf(s: Trace, mayRepeat: bool): Settled {
    FirstOutcome(RiskSettled(s, mayRepeat, |s|))
  }

  lemma {:induction false} RiskSettledAt(s: Trace, mayRepeat: bool, n: nat, j: nat)
    requires j < n <= |s|
    ensures RiskSettled(s, mayRepeat, n)[j] == CallSettles(s, mayRepeat, j)
  {
    if j < n - 1 {
      RiskSettledAt(s, mayRepeat, n - 1, j);
    }
  }

  /** One entry per identity: its first call. */
  ghost predicate RemembersFirst(s: Trace, n: nat, seen: map<Identity, nat>)
    requires n <= |s|
  {
    forall identity ::
      && (identity in seen <==> FirstCall(s, identity, n).Some?)
      && (identity in seen ==> seen[identity] == FirstCall(s, identity, n).value)
  }

  method Settle(s: Trace, j: nat, mayRepeat: bool, seen: map<Identity, nat>)
    returns (settled: Settled, seen': map<Identity, nat>)
    requires j < |s| && RemembersFirst(s, j, seen)
    ensures settled == CallSettles(s, mayRepeat, j)
    ensures settled.None? ==> RemembersFirst(s, j + 1, seen')
  {
    settled, seen' := None, seen;
    if !s[j].kind.ToolCall? {
      return;
    }
    var r := ComputeIdentity(s[j]);
    if r.Err? {
      settled := Some(Err(StopError.InvalidPayloadIdentity));
    } else if r.value.Some? {
      var identity := r.value.value;
      if identity !in seen {
        seen' := seen[identity := j];
      } else if UnsafePair(s[seen[identity]].effectClass, s[j].effectClass, mayRepeat) {
        settled := Some(RiskFinding(s[seen[identity]], s[j]));
      }
    }
  }

  method HardRisk(s: Trace, mayRepeat: bool) returns (settled: Settled)
    ensures settled == HardRiskOf(s, mayRepeat)
  {
    ghost var all := RiskSettled(s, mayRepeat, |s|);
    var seen: map<Identity, nat> := map[];
    for j := 0 to |s|
      invariant FirstOutcome(all[..j]).None? && RemembersFirst(s, j, seen)
    {
      RiskSettledAt(s, mayRepeat, |s|, j);
      ScanStep(all, j);
      settled, seen := Settle(s, j, mayRepeat, seen);
      if settled.Some? {
        return;
      }
    }
    ScanEnd(all);
    return None;
  }

  // ------------------------------------------------------------- all the pairs

  /** Two equivalent calls, in either order of danger. */
  ghost predicate RiskyRepeat(s: Trace, mayRepeat: bool, i: nat, j: nat)
    requires i < |s| && j < |s|
  {
    && s[i].kind.ToolCall? && s[j].kind.ToolCall?
    && IdentityOf(s[i]) == IdentityOf(s[j]) && IdentityOf(s[j]).Ok? && IdentityOf(s[j]).value.Some?
    && UnsafePair(s[i].effectClass, s[j].effectClass, mayRepeat)
  }

  ghost predicate HasNoIdentity(e: TraceEvent) {
    e.kind.ToolCall? && IdentityOf(e).Err?
  }

  /** A call that completes a risky pair with any earlier call, or cannot be identified. */
  ghost predicate Alarming(s: Trace, mayRepeat: bool, j: nat)
    requires j < |s|
  {
    HasNoIdentity(s[j]) || exists i :: 0 <= i < j && RiskyRepeat(s, mayRepeat, i, j)
  }

  ghost predicate FirstAlarm(s: Trace, mayRepeat: bool, j: nat)
    requires j < |s|
  {
    Alarming(s, mayRepeat, j) && forall k | 0 <= k < j :: !Alarming(s, mayRepeat, k)
  }

  /** What an alarming call is reported as: with an earlier call it repeats. */
  ghost predicate SettledBy(s: Trace, mayRepeat: bool, j: nat, settled: Settled)
    requires j < |s|
  {
    if HasNoIdentity(s[j]) then settled == Some(Err(StopError.InvalidPayloadIdentity))
    else exists i :: 0 <= i < j && RiskyRepeat(s, mayRepeat, i, j) && settled == Some(RiskFinding(s[i], s[j]))
  }

  /** Remembering the first call only: an alarming call settles the scan at once or
      an earlier one has. */
  lemma {:induction false} AlarmIsSettled(s: Trace, mayRepeat: bool, j: nat)
    requires j < |s| && Alarming(s, mayRepeat, j)
    ensures exists k :: 0 <= k <= j && CallSettles(s, mayRepeat, k).Some?
  {
    if CallSettles(s, mayRepeat, j).Some? {
      assert 0 <= j <= j;
    } else {
      var i :| 0 <= i < j && RiskyRepeat(s, mayRepeat, i, j);
      var identity := IdentityOf(s[j]).value.value;
      assert IsCall(s[i], identity);
      var first := FirstCall(s, identity, j).value;
      assert UnsafePair(s[first].effectClass, s[i].effectClass, mayRepeat);
      SameFirst(s, identity, i, j);
      assert CallSettles(s, mayRepeat, i).Some?;
    }
  }

  lemma {:induction false} SameFirst(s: Trace, identity: Identity, i: nat, j: nat)
    requires i <= j <= |s| && FirstCall(s, identity, j).Some? && FirstCall(s, identity, j).value < i
    ensures FirstCall(s, identity, i) == FirstCall(s, identity, j)
  {
  }

  lemma {:induction false} SettledIsAlarming(s: Trace, mayRepeat: bool, j: nat)
    requires j < |s| && CallSettles(s, mayRepeat, j).Some?
    ensures Alarming(s, mayRepeat, j)
    ensures SettledBy(s, mayRepeat, j, CallSettles(s, mayRepeat, j))
  {
    if !HasNoIdentity(s[j]) {
      var i := FirstCall(s, IdentityOf(s[j]).value.value, j).value;
      assert RiskyRepeat(s, mayRepeat, i, j);
    }
  }

  /** The index of first calls loses nothing: the scan is settled exactly when some call
      alarms, over all pairs, and by the earliest such call. */
  lemma {:induction false} RiskMeaning(s: Trace, mayRepeat: bool)
    ensures HardRiskOf(s, mayRepeat).Some? <==> exists j :: 0 <= j < |s| && Alarming(s, mayRepeat, j)
    ensures HardRiskOf(s, mayRepeat).Some? ==>
      exists j :: 0 <= j < |s| && FirstAlarm(s, mayRepeat, j) && SettledBy(s, mayRepeat, j, HardRiskOf(s, mayRepeat))
  {
    var all := RiskSettled(s, mayRepeat, |s|);
    forall j: nat | j < |s|
      ensures all[j] == CallSettles(s, mayRepeat, j)
    {
      RiskSettledAt(s, mayRepeat, |s|, j);
    }
    if HardRiskOf(s, mayRepeat).Some? {
      var j := OutcomeIsFirst(all);
      SettledIsAlarming(s, mayRepeat, j);
      forall k | 0 <= k < j
        ensures !Alarming(s, mayRepeat, k)
      {
        if Alarming(s, mayRepeat, k) {
          AlarmIsSettled(s, mayRepeat, k);
        }
      }
    } else if j :| 0 <= j < |s| && Alarming(s, mayRepeat, j) {
      AlarmIsSettled(s, mayRepeat, j);
      var k :| 0 <= k <= j && CallSettles(s, mayRepeat, k).Some?;
      SomeOutcome(all, k);
    }
  }

  lemma {:induction false} FirstCallLocal(s: Trace, t: Trace, identity: Identity, n: nat)
    requires n <= |s|
    ensures FirstCall(s + t, identity, n) == FirstCall(s, identity, n)
  {
    if n > 0 {
      FirstCallLocal(s, t, identity, n - 1);
    }
  }

  lemma {:induction false} CallSettlesLocal(s: Trace, t: Trace, mayRepeat: bool, j: nat)
    requires j < |s|
    ensures CallSettles(s + t, mayRepeat, j) == CallSettles(s, mayRepeat, j)
  {
    if IdentityOf(s[j]).Ok? && IdentityOf(s[j]).value.Some? {
      FirstCallLocal(s, t, IdentityOf(s[j]).value.value, j);
    }
  }

  lemma {:induction false} RiskLocal(s: Trace, t: Trace, mayRepeat: bool, n: nat)
    requires n <= |s|
    ensures RiskSettled(s + t, mayRepeat, n) == RiskSettled(s, mayRepeat, n)
  {
    if n > 0 {
      RiskLocal(s, t, mayRepeat, n - 1);
      CallSettlesLocal(s, t, mayRepeat, n - 1);
    }
  }

  lemma {:induction false} RiskPrefix(s: Trace, mayRepeat: bool, m: nat, n: nat)
    requires m <= n <= |s|
    ensures RiskSettled(s, mayRepeat, m) <= RiskSettled(s, mayRepeat, n)
  {
    if m < n {
      RiskPrefix(s, mayRepeat, m, n - 1);
    }
  }

  /** A run that was hard-stopped by a repeated unsafe call stays so, with the same pair. */
  lemma {:induction false} HardRiskStays(s: Trace, t: Trace, mayRepeat: bool)
    requires HardRiskOf(s, mayRepeat).Some?
    ensures HardRiskOf(s + t, mayRepeat) == HardRiskOf(s, mayRepeat)
  {
    RiskLocal(s, t, mayRepeat, |s|);
    RiskPrefix(s + t, mayRepeat, |s|, |s + t|);
    var before, after := RiskSettled(s, mayRepeat, |s|), RiskSettled(s + t, mayRepeat, |s + t|);
    assert before + after[|before|..] == after;
    OutcomeIsStable(before, after[|before|..]);
  }
}

/** What the two hard stops look for, on the events themselves, and what they report. */
module HardStopEvents {
  import opened Prelude
  import opened TraceEvents
  import opened RunPolicies
  import opened HardStops

  // ----------------------------------------------------------------- the budget

  /** Every counter of the event is below its limit. */
  ghost predicate Within(e: TraceEvent, limit: BudgetCounters) {
    forall c | e.budgetCounters == Some(c) ::
      && c.turns < limit.turns && c.toolCalls < limit.toolCalls && c.tokens < limit.tokens
      && c.elapsedSeconds < limit.elapsedSeconds && c.cost < limit.cost
  }

  lemma {:induction false} ReachesIs(e: TraceEvent, limit: BudgetCounters)
    ensures Reaches(e, limit) <==> !Within(e, limit)
  {
  }

  /** A finding that nothing but a hard stop makes. */
  ghost predicate IsHardFinding(f: Finding, detector: string, c: FindingClass, reason: ReasonCode, runId: string,
        ids: seq<string>) {
    && f.id == Derived(detector, runId, ids) && f.runId == runId && f.eventIds == ids
    && f.matched && f.score == 1.0 && f.findingClass == c && f.reason == reason && f.availability == Available
  }

  /** The budget stops a run exactly when some counter of some event is not below its
      limit; what is reported is the first such event. */
  lemma {:induction false} BudgetOnEvents(s: Trace, limit: BudgetCounters)
    ensures HardBudgetOf(s, limit).None? <==> forall j | 0 <= j < |s| :: Within(s[j], limit)
    ensures HardBudgetOf(s, limit).Some? && HardBudgetOf(s, limit).value.Ok? ==>
      exists j :: 0 <= j < |s| && !Within(s[j], limit) && (forall k | 0 <= k < j :: Within(s[k], limit)) &&
        IsHardFinding(HardBudgetOf(s, limit).value.value, "hard-budget", BudgetClass, BudgetLimitReached,
                      s[j].runId, [s[j].eventId])
  {
    BudgetMeaning(s, limit);
    forall j | 0 <= j < |s|
      ensures Reaches(s[j], limit) <==> !Within(s[j], limit)
    {
      ReachesIs(s[j], limit);
    }
  }

  // ------------------------------------------------------------- repeated calls

  /** A call that may be made twice. */
  ghost predicate Repeatable(e: TraceEvent, mayRepeat: bool) {
    e.effectClass in {ReadOnly, IdempotentWrite} + if mayRepeat then {NonIdempotentWrite} else {}
  }

  /** One call made twice, of which at least one may not be. */
  ghost predicate RepeatsCall(a: TraceEvent, b: TraceEvent, mayRepeat: bool) {
    && a.kind == ToolCall && b.kind == ToolCall && Alike(a, b)
    && !(Repeatable(a, mayRepeat) && Repeatable(b, mayRepeat))
  }

  lemma {:induction false} RiskIs(s: Trace, mayRepeat: bool, i: nat, j: nat)
    requires i < |s| && j < |s|
    ensures RiskyRepeat(s, mayRepeat, i, j) <==> RepeatsCall(s[i], s[j], mayRepeat)
  {
    AlikeExactly(s[i], s[j]);
  }

  /** A call that repeats an earlier one, or cannot be identified. */
  ghost predicate Alarms(s: Trace, mayRepeat: bool, j: nat)
    requires j < |s|
  {
    || (s[j].kind == ToolCall && CannotBeIdentified(s[j]))
    || exists i :: 0 <= i < j && RepeatsCall(s[i], s[j], mayRepeat)
  }

  lemma {:induction false} AlarmingIs(s: Trace, mayRepeat: bool, j: nat)
    requires j < |s|
    ensures Alarming(s, mayRepeat, j) <==> Alarms(s, mayRepeat, j)
  {
    IdentityMeaning(s[j]);
    forall i | 0 <= i < j
      ensures RiskyRepeat(s, mayRepeat, i, j) <==> RepeatsCall(s[i], s[j], mayRepeat)
    {
      RiskIs(s, mayRepeat, i, j);
    }
  }

  ghost predicate ReportsRepeat(s: Trace, mayRepeat: bool, i: nat, j: nat, f: Finding)
    requires i < |s| && j < |s|
  {
    && RepeatsCall(s[i], s[j], mayRepeat)
    && IsHardFinding(f, "repeated-risky-call", RiskClass, RiskDetected, s[j].runId, [s[i].eventId, s[j].eventId])
  }

  /** Risk stops a run exactly when some call alarms; what is reported is the first call
      that does, with one that it repeats. */
  lemma {:induction false} RiskOnEvents(s: Trace, mayRepeat: bool)
    ensures HardRiskOf(s, mayRepeat).None? <==> forall j | 0 <= j < |s| :: !Alarms(s, mayRepeat, j)
    ensures HardRiskOf(s, mayRepeat).Some? && HardRiskOf(s, mayRepeat).value.Ok? ==>
      exists i, j :: 0 <= i < j < |s| && (forall k | 0 <= k < j :: !Alarms(s, mayRepeat, k)) &&
        ReportsRepeat(s, mayRepeat, i, j, HardRiskOf(s, mayRepeat).value.value)
  {
    RiskMeaning(s, mayRepeat);
    forall j | 0 <= j < |s|
      ensures Alarming(s, mayRepeat, j) <==> Alarms(s, mayRepeat, j)
    {
      AlarmingIs(s, mayRepeat, j);
    }
    if HardRiskOf(s, mayRepeat).Some? && HardRiskOf(s, mayRepeat).value.Ok? {
      var j :| 0 <= j < |s| && FirstAlarm(s, mayRepeat, j) && SettledBy(s, mayRepeat, j, HardRiskOf(s, mayRepeat));
      var i :| 0 <= i < j && RiskyRepeat(s, mayRepeat, i, j) &&
               HardRiskOf(s, mayRepeat) == Some(RiskFinding(s[i], s[j]));
      RiskIs(s, mayRepeat, i, j);
      assert ReportsRepeat(s, mayRepeat, i, j, HardRiskOf(s, mayRepeat).value.value);
    }
  }
}

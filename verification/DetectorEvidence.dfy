/** What the comparing detectors compare, on the events themselves: which calls, results,
    errors and checks count as the same, and which readings as a rise. */
module DetectorEvidence {
  import opened Prelude
  import opened TraceEvents
  import opened FirstOutcomes
  import opened DetectorOutcomes
  import opened PayloadProgress
  import ExactRepetition
  import RepeatedError
  import AcceptanceStall
  import BudgetBurn

  // ------------------------------------------------------------ exact repetition

  /** `i` is the result of the earlier tool call `a`, which has an identity. */
  ghost predicate ResultOf(s: Trace, a: nat, i: nat) {
    && a < i < |s| && s[a].kind == ToolCall && s[i].kind == ToolResult
    && s[i].parentEventId == Some(s[a].eventId) && Alike(s[a], s[a])
  }

  /** Two results of different calls: the calls are alike, and so are the results. */
  ghost predicate SameExchange(s: Trace, a: nat, i: nat, b: nat, j: nat) {
    ResultOf(s, a, i) && ResultOf(s, b, j) && a != b && Alike(s[a], s[b]) && Alike(s[i], s[j])
  }

  ghost predicate Exchanged(s: Trace, i: nat, j: nat) {
    exists a: nat, b: nat :: SameExchange(s, a, i, b, j)
  }

  /** A call, or the result of an identified call, that cannot be identified itself. */
  ghost predicate BrokenExchange(s: Trace, j: nat)
    requires j < |s|
  {
    CannotBeIdentified(s[j]) && (s[j].kind == ToolCall || exists a: nat :: ResultOf(s, a, j))
  }

  lemma {:induction false} NamedCallIs(e: TraceEvent)
    ensures ExactRepetition.IsNamedCall(e) <==> e.kind == ToolCall && Alike(e, e)
  {
    AlikeExactly(e, e);
  }

  lemma {:induction false} ParentIs(s: Trace, j: nat, a: nat)
    requires UniqueIds(s) && j < |s| && s[j].kind == ToolResult
    ensures ExactRepetition.ParentCall(s, j) == Some(a) <==> ResultOf(s, a, j)
  {
    forall i | 0 <= i < j
      ensures ExactRepetition.IsNamedCall(s[i]) <==> s[i].kind == ToolCall && Alike(s[i], s[i])
    {
      NamedCallIs(s[i]);
    }
    var call := ExactRepetition.ParentCallBelow(s, j, j);
    if call.Some? && ResultOf(s, a, j) {
      assert s[a].eventId == s[call.value].eventId;
    }
  }

  lemma {:induction false} PairIs(s: Trace, i: nat, j: nat)
    requires UniqueIds(s) && i < |s| && j < |s|
    ensures ExactRepetition.SamePair(s, i, j) <==> Exchanged(s, i, j)
  {
    if ExactRepetition.SamePair(s, i, j) {
      var a, b := ExactRepetition.AnswerOf(s, i).pair.call, ExactRepetition.AnswerOf(s, j).pair.call;
      ParentIs(s, i, a);
      ParentIs(s, j, b);
      AlikeExactly(s[a], s[b]);
      AlikeExactly(s[i], s[j]);
      assert SameExchange(s, a, i, b, j);
    }
    if a: nat, b: nat :| SameExchange(s, a, i, b, j) {
      ParentIs(s, i, a);
      ParentIs(s, j, b);
      AlikeExactly(s[a], s[b]);
      AlikeExactly(s[i], s[j]);
    }
  }

  lemma {:induction false} BrokenExchangeIs(s: Trace, j: nat)
    requires UniqueIds(s) && j < |s|
    ensures ExactRepetition.AnswerOf(s, j).Unidentifiable? <==> BrokenExchange(s, j)
  {
    IdentityMeaning(s[j]);
    if s[j].kind == ToolResult {
      if ExactRepetition.ParentCall(s, j).Some? {
        ParentIs(s, j, ExactRepetition.ParentCall(s, j).value);
      }
      if a: nat :| ResultOf(s, a, j) {
        ParentIs(s, j, a);
      }
    }
  }

  /** The detector has an outcome exactly when two exchanges are the same, or one is broken. */
  lemma {:induction false} RepetitionOnEvents(s: Trace)
    requires UniqueIds(s)
    ensures FirstOutcome(ExactRepetition.RepetitionVerdicts(s)).Some? <==>
      || (exists j :: 0 <= j < |s| && BrokenExchange(s, j))
      || (exists i, j :: 0 <= i < j < |s| && Exchanged(s, i, j))
  {
    ExactRepetition.ExactRepetitionMeaning(s);
    forall j | 0 <= j < |s|
      ensures ExactRepetition.Decides(s, j) <==>
        BrokenExchange(s, j) || exists i :: 0 <= i < j && Exchanged(s, i, j)
    {
      ExchangeDecides(s, j);
    }
    if FirstOutcome(ExactRepetition.RepetitionVerdicts(s)).Some? {
      var j :| 0 <= j < |s| && ExactRepetition.Decides(s, j);
      assert BrokenExchange(s, j) || exists i :: 0 <= i < j && Exchanged(s, i, j);
    }
    if i, j :| 0 <= i < j < |s| && Exchanged(s, i, j) {
      assert ExactRepetition.Decides(s, j);
    }
    if j :| 0 <= j < |s| && BrokenExchange(s, j) {
      assert ExactRepetition.Decides(s, j);
    }
  }

  lemma {:induction false} ExchangeDecides(s: Trace, j: nat)
    requires UniqueIds(s) && j < |s|
    ensures ExactRepetition.Decides(s, j) <==>
      BrokenExchange(s, j) || exists i :: 0 <= i < j && Exchanged(s, i, j)
  {
    BrokenExchangeIs(s, j);
    forall i | 0 <= i < j
      ensures ExactRepetition.SamePair(s, i, j) <==> Exchanged(s, i, j)
    {
      PairIs(s, i, j);
    }
  }

  // -------------------------------------------------------------- repeated errors

  /** `a` is the last tool call before `i`. */
  ghost predicate LastCall(s: Trace, a: nat, i: nat) {
    a < i <= |s| && s[a].kind == ToolCall && forall k | a < k < i :: s[k].kind != ToolCall
  }

  /** Two positions are under the same call, under calls that are alike, or under none. */
  ghost predicate SameCall(s: Trace, i: nat, j: nat)
    requires i <= |s| && j <= |s|
  {
    || (forall k | 0 <= k < i || 0 <= k < j :: s[k].kind != ToolCall)
    || exists a: nat, b: nat :: LastCall(s, a, i) && LastCall(s, b, j) && (a == b || Alike(s[a], s[b]))
  }

  /** The same declared error twice under the same call. */
  ghost predicate SameFailure(s: Trace, i: nat, j: nat)
    requires i < |s| && j < |s|
  {
    SameCall(s, i, j) && exists error :: FailsWith(s[i], error) && FailsWith(s[j], error)
  }

  lemma {:induction false} ContextIs(s: Trace, n: nat) returns (a: Option<nat>)
    requires n <= |s|
    ensures a.None? ==> RepeatedError.ContextAt(s, n) == RepeatedError.NoCall
    ensures a.None? ==> forall k | 0 <= k < n :: s[k].kind != ToolCall
    ensures a.Some? ==> LastCall(s, a.value, n)
    ensures a.Some? ==> RepeatedError.ContextAt(s, n) == RepeatedError.ContextAfter(s[a.value])
  {
    if n == 0 {
      a := None;
    } else if s[n - 1].kind == ToolCall {
      a := Some(n - 1);
    } else {
      a := ContextIs(s, n - 1);
    }
  }

  lemma {:induction false} CallContextIs(x: TraceEvent, y: TraceEvent)
    ensures Alike(x, y) ==> RepeatedError.ContextAfter(x) == RepeatedError.ContextAfter(y)
    ensures RepeatedError.ContextAfter(x) == RepeatedError.ContextAfter(y) ==> Alike(x, y) || x.eventId == y.eventId
  {
    AlikeExactly(x, y);
  }

  lemma {:induction false} SameContext(s: Trace, i: nat, j: nat)
    requires UniqueIds(s) && i <= |s| && j <= |s|
    ensures RepeatedError.ContextAt(s, i) == RepeatedError.ContextAt(s, j) <==> SameCall(s, i, j)
  {
    var a := ContextIs(s, i);
    var b := ContextIs(s, j);
    if a.Some? && b.Some? {
      CallContextIs(s[a.value], s[b.value]);
      assert LastCall(s, a.value, i) && LastCall(s, b.value, j);
    }
  }

  lemma {:induction false} ErrorIs(s: Trace, i: nat, j: nat)
    requires UniqueIds(s) && i < |s| && j < |s|
    ensures RepeatedError.SameError(s, i, j) <==> SameFailure(s, i, j)
  {
    SameContext(s, i, j);
    if RepeatedError.SameError(s, i, j) {
      assert FailsWith(s[i], RepeatedError.EntryOf(s, i).error) && FailsWith(s[j], RepeatedError.EntryOf(s, i).error);
    }
  }

  /** The detector has an outcome exactly when two failures are the same, or a call cannot
      be identified. */
  lemma {:induction false} ErrorsOnEvents(s: Trace)
    requires UniqueIds(s)
    ensures FirstOutcome(RepeatedError.ErrorVerdicts(s)).Some? <==>
      || (exists j :: 0 <= j < |s| && s[j].kind == ToolCall && CannotBeIdentified(s[j]))
      || (exists i, j :: 0 <= i < j < |s| && SameFailure(s, i, j))
  {
    RepeatedError.RepeatedErrorMeaning(s);
    forall j | 0 <= j < |s|
      ensures RepeatedError.Decides(s, j) <==>
        (s[j].kind == ToolCall && CannotBeIdentified(s[j])) || exists i :: 0 <= i < j && SameFailure(s, i, j)
    {
      FailureDecides(s, j);
    }
  }

  lemma {:induction false} FailureDecides(s: Trace, j: nat)
    requires UniqueIds(s) && j < |s|
    ensures RepeatedError.Decides(s, j) <==>
      (s[j].kind == ToolCall && CannotBeIdentified(s[j])) || exists i :: 0 <= i < j && SameFailure(s, i, j)
  {
    IdentityMeaning(s[j]);
    forall i | 0 <= i < j
      ensures RepeatedError.SameError(s, i, j) <==> SameFailure(s, i, j)
    {
      ErrorIs(s, i, j);
    }
  }

  // ------------------------------------------------------------ repeated checks

  /** Two runs of one acceptance check. */
  ghost predicate SameCheck(a: TraceEvent, b: TraceEvent) {
    && a.kind == AcceptanceCheck && b.kind == AcceptanceCheck && Alike(a, b)
    && a.acceptanceDelta.Some? && b.acceptanceDelta.Some?
  }

  /** A check is repeated: it reports the delta of the latest earlier run again. */
  lemma {:induction false} RepeatsOnEvents(s: Trace, i: nat, e: nat)
    ensures AcceptanceStall.Repeats(s, i, e) <==>
      && i < e < |s| && SameCheck(s[i], s[e]) && s[i].acceptanceDelta == s[e].acceptanceDelta
      && forall k | i < k < e :: !SameCheck(s[k], s[e])
  {
    if i < e < |s| {
      forall k | i <= k < e
        ensures AlikeChecks(s[k], s[e])
      {
        ChecksAre(s[k], s[e]);
      }
      ChecksAre(s[e], s[e]);
      assert AlikeChecks(s[i], s[e]);
    }
  }

  ghost predicate AlikeChecks(a: TraceEvent, b: TraceEvent) {
    var x, y := AcceptanceStall.CheckOf(a), AcceptanceStall.CheckOf(b);
    && (y.Check? ==> (AcceptanceStall.IsCheckOf(x, y.identity) <==> SameCheck(a, b)))
    && (y.Check? && x == y <==> SameCheck(a, b) && a.acceptanceDelta == b.acceptanceDelta)
    && (SameCheck(a, b) ==> y.Check?)
  }

  lemma {:induction false} ChecksAre(a: TraceEvent, b: TraceEvent)
    ensures AlikeChecks(a, b)
  {
    AlikeExactly(a, b);
  }

  // ------------------------------------------------------------------ budget rises

  ghost predicate Reads(e: TraceEvent, counters: BudgetCounters) {
    e.kind == TraceKind.Budget && e.budgetCounters == Some(counters)
  }

  /** A plateau of equal readings that starts at `i`, and at `j` the next reading, which
      differs and falls short of it in nothing. */
  ghost predicate RisesFrom(s: Trace, i: nat, j: nat, low: BudgetCounters, high: BudgetCounters)
    requires i < j < |s|
  {
    && Reads(s[i], low) && Reads(s[j], high) && low != high
    && low.turns <= high.turns && low.toolCalls <= high.toolCalls && low.tokens <= high.tokens
    && low.elapsedSeconds <= high.elapsedSeconds && low.cost <= high.cost
    && (forall m, c | i < m < j && Reads(s[m], c) :: c == low)
    && forall m | 0 <= m < i && Reads(s[m], low) :: exists k, c :: m < k < i && Reads(s[k], c)
  }

  lemma {:induction false} PlateauIsFirst(s: Trace, i: nat, j: nat)
    requires BudgetBurn.Burns(s, i, j)
    ensures forall m | 0 <= m < i && Reads(s[m], s[i].budgetCounters.value) ::
      exists k, c :: m < k < i && Reads(s[k], c)
  {
    forall m: nat | m < i && Reads(s[m], s[i].budgetCounters.value)
      ensures exists k, c :: m < k < i && Reads(s[k], c)
    {
      assert !BudgetBurn.AdjacentReadings(s, m, i);
      var k :| m < k < i && BudgetBurn.IsBudget(s[k]);
      assert Reads(s[k], s[k].budgetCounters.value);
    }
  }

  lemma {:induction false} RiseBurns(s: Trace, i: nat, j: nat, low: BudgetCounters, high: BudgetCounters)
    requires i < j < |s| && RisesFrom(s, i, j, low, high) && !ShowsProgress(s[i..j + 1])
    ensures BudgetBurn.Burns(s, i, j)
  {
    forall m: nat | BudgetBurn.AdjacentReadings(s, m, i)
      ensures BudgetBurn.Counters(s[m]) != BudgetBurn.Counters(s[i])
    {
      assert !Reads(s[m], low);
    }
    forall m | i < m < j && BudgetBurn.IsBudget(s[m])
      ensures BudgetBurn.Counters(s[m]) == BudgetBurn.Counters(s[i])
    {
      assert Reads(s[m], BudgetBurn.Counters(s[m]));
    }
  }

  /** A burn is such a rise with no progress from the first event to the last. */
  lemma {:induction false} BurnsOnEvents(s: Trace, i: nat, j: nat)
    ensures BudgetBurn.Burns(s, i, j) <==>
      i < j < |s| && (exists low, high :: RisesFrom(s, i, j, low, high)) && !ShowsProgress(s[i..j + 1])
  {
    if BudgetBurn.Burns(s, i, j) {
      PlateauIsFirst(s, i, j);
      assert RisesFrom(s, i, j, s[i].budgetCounters.value, s[j].budgetCounters.value);
    } else if i < j < |s| && !ShowsProgress(s[i..j + 1]) {
      if low, high :| RisesFrom(s, i, j, low, high) {
        RiseBurns(s, i, j, low, high);
      }
    }
  }
}

/** The books of a campaign, field by field: what events report, what a run adds up, and
    what an emitted result says was consumed. */
module CampaignTotals {
  import opened Prelude
  import opened CampaignRuns
  import opened CampaignArtifacts
  import opened CampaignTheorems

  ghost function Sum(xs: seq<real>): real {
    if xs == [] then 0.0 else Sum(xs[..|xs| - 1]) + xs[|xs| - 1]
  }

  // ------------------------------------------------------------------ one event

  /** What an event says about a field: an absent elapsed time is the clock's, any other
      absent number is 0. */
  ghost function Said(e: RunnerEvent, field: Field): Number
    requires e.Event? && e.usage.Some?
  {
    var usage := e.usage.value;
    match field
    case Turns => if usage.turns.Some? then usage.turns.value else Number(0.0)
    case Tokens => if usage.tokens.Some? then usage.tokens.value else Number(0.0)
    case ToolCalls => if usage.toolCalls.Some? then usage.toolCalls.value else Number(0.0)
    case ElapsedSeconds => if usage.elapsedSeconds.Some? then usage.elapsedSeconds.value else e.clock
    case Cost => if usage.cost.Some? then usage.cost.value else Number(0.0)
  }

  ghost predicate SaysAmount(e: RunnerEvent, field: Field)
    requires e.Event? && e.usage.Some?
  {
    Said(e, field).Number? && Said(e, field).value >= 0.0
  }

  /** Events that a run accepts. */
  ghost predicate Proper(e: RunnerEvent) {
    e.Event? && e.outcome != Some(UnknownOutcome) && e.usage.Some? && forall field: Field :: SaysAmount(e, field)
  }

  ghost function AmountOf(e: RunnerEvent, field: Field): real
    requires Proper(e)
  {
    assert SaysAmount(e, field);
    Said(e, field).value
  }

  /** The outcome that an event names; without a name it is not accepted. */
  ghost predicate Ends(e: RunnerEvent, outcome: Outcome) {
    e.Event? && (e.outcome == Some(Known(outcome)) || (e.outcome == None && outcome == NotAccepted))
  }

  lemma {:induction false} ProperFields(e: RunnerEvent)
    requires e.Event? && e.usage.Some?
    ensures (forall field: Field :: SaysAmount(e, field)) <==>
      && SaysAmount(e, Turns) && SaysAmount(e, Tokens) && SaysAmount(e, ToolCalls)
      && SaysAmount(e, ElapsedSeconds) && SaysAmount(e, Cost)
  {
    if SaysAmount(e, Turns) && SaysAmount(e, Tokens) && SaysAmount(e, ToolCalls) &&
       SaysAmount(e, ElapsedSeconds) && SaysAmount(e, Cost) {
      forall field: Field
        ensures SaysAmount(e, field)
      {
        match field
        case Turns =>
        case Tokens =>
        case ToolCalls =>
        case ElapsedSeconds =>
        case Cost =>
      }
    }
  }

  /** Exactly the proper events are charged, with what they report. */
  lemma {:induction false} ChargeMeaning(e: RunnerEvent)
    ensures Charge(e).Ok? <==> Proper(e)
    ensures Charge(e).Ok? ==>
      var u := Charge(e).value.0;
      && u.turns == AmountOf(e, Turns) && u.spent.tokens == AmountOf(e, Tokens)
      && u.spent.toolCalls == AmountOf(e, ToolCalls) && u.spent.elapsedSeconds == AmountOf(e, ElapsedSeconds)
      && u.spent.cost == AmountOf(e, Cost) && Ends(e, Charge(e).value.1)
    ensures Charge(e).Err? ==>
      Charge(e).error == if e.NotAMapping? then RunnerEventInvalid
                         else if e.outcome == Some(UnknownOutcome) then RunnerOutcomeInvalid
                         else RunnerEventUsageInvalid
  {
    if e.Event? && e.usage.Some? {
      ProperFields(e);
    }
  }

  // -------------------------------------------------------------------- one run

  ghost predicate AllProper(events: seq<RunnerEvent>, n: nat)
    requires n <= |events|
  {
    forall i | 0 <= i < n :: Proper(events[i])
  }

  /** What the first `n` events report for a field. */
  ghost function Amounts(events: seq<RunnerEvent>, field: Field, n: nat): seq<real>
    requires n <= |events| && AllProper(events, n)
  {
    seq(n, i requires 0 <= i < n => AmountOf(events[i], field))
  }

  lemma {:induction false} SumOneAmount(events: seq<RunnerEvent>, field: Field, n: nat)
    requires n < |events| && AllProper(events, n + 1)
    ensures Sum(Amounts(events, field, n + 1)) == Sum(Amounts(events, field, n)) + AmountOf(events[n], field)
  {
    assert Amounts(events, field, n + 1)[..n] == Amounts(events, field, n);
  }

  ghost predicate Adds(u: Usage, events: seq<RunnerEvent>, n: nat)
    requires n <= |events| && AllProper(events, n)
  {
    && u.turns == Sum(Amounts(events, Turns, n))
    && u.spent.tokens == Sum(Amounts(events, Tokens, n))
    && u.spent.toolCalls == Sum(Amounts(events, ToolCalls, n))
    && u.spent.elapsedSeconds == Sum(Amounts(events, ElapsedSeconds, n))
    && u.spent.cost == Sum(Amounts(events, Cost, n))
  }

  /** What the first `n` events report adds up to less than every cap. */
  ghost predicate UnderCaps(events: seq<RunnerEvent>, caps: Caps, n: nat)
    requires n <= |events| && AllProper(events, n)
  {
    && (caps.turns.Some? ==> Sum(Amounts(events, Turns, n)) < caps.turns.value)
    && Sum(Amounts(events, Tokens, n)) < caps.spent.tokens
    && Sum(Amounts(events, ToolCalls, n)) < caps.spent.toolCalls
    && Sum(Amounts(events, ElapsedSeconds, n)) < caps.spent.elapsedSeconds
    && Sum(Amounts(events, Cost, n)) < caps.spent.cost
  }

  lemma {:induction false} TotalAdds(events: seq<RunnerEvent>, n: nat)
    requires n <= |events| && AllCharge(events, n)
    ensures AllProper(events, n) && Adds(Total(events, n), events, n)
  {
    if n > 0 {
      TotalAdds(events, n - 1);
      ChargeMeaning(events[n - 1]);
      SumOneAmount(events, Turns, n - 1);
      SumOneAmount(events, Tokens, n - 1);
      SumOneAmount(events, ToolCalls, n - 1);
      SumOneAmount(events, ElapsedSeconds, n - 1);
      SumOneAmount(events, Cost, n - 1);
    }
  }

  /** A run's usage is, in each of its five fields, the sum of what its consumed events report. */
  lemma {:induction false} RunTotals(events: seq<RunnerEvent>, caps: Caps, n: nat)
    requires n <= |events| && RunOf(events, caps, n).Ok?
    ensures var run := RunOf(events, caps, n).value;
      run.consumed <= n && AllProper(events, run.consumed) && Adds(run.usage, events, run.consumed)
  {
    RunMeaning(events, caps, n);
    TotalAdds(events, RunOf(events, caps, n).value.consumed);
  }

  /** Event `i` is improper, and the run gets that far. */
  ghost predicate BreaksAt(events: seq<RunnerEvent>, caps: Caps, i: nat)
    requires i < |events|
  {
    AllProper(events, i) && !Proper(events[i]) && forall k | 0 < k <= i :: UnderCaps(events, caps, k)
  }

  /** A run fails exactly on an improper event that no cap keeps it from. */
  lemma {:induction false} RunBreaksExactly(events: seq<RunnerEvent>, caps: Caps, n: nat)
    requires n <= |events|
    ensures RunOf(events, caps, n).Err? <==> exists i :: 0 <= i < n && BreaksAt(events, caps, i)
  {
    if n > 0 {
      RunBreaksExactly(events, caps, n - 1);
      if RunOf(events, caps, n - 1).Ok? {
        LastBreaks(events, caps, n - 1);
      }
    }
  }

  lemma {:induction false} LastBreaks(events: seq<RunnerEvent>, caps: Caps, n: nat)
    requires n < |events| && RunOf(events, caps, n).Ok?
    ensures BreaksAt(events, caps, n) <==> RunOf(events, caps, n).value.cap.None? && !Proper(events[n])
    ensures Charge(events[n]).Ok? <==> Proper(events[n])
  {
    var m := RunOf(events, caps, n).value.consumed;
    RunMeaning(events, caps, n);
    ChargeMeaning(events[n]);
    forall k | 0 <= k <= m
      ensures AllProper(events, k) && (Below(Total(events, k), caps) <==> UnderCaps(events, caps, k))
    {
      BelowIsUnder(events, caps, k);
    }
    if m == 0 {
      NothingConsumed(events, caps, n);
    }
  }

  /** The status that a last event gives to a run which reached no cap. */
  ghost predicate Concludes(status: Status, last: RunnerEvent) {
    match status
    case RunAccepted => Ends(last, Accepted)
    case RunNotAccepted => Ends(last, NotAccepted)
    case Failed(failure) => failure in {ProviderError, SafetyRefusal, InfrastructureFailure} && Ends(last, failure)
    case Interrupted => false
  }

  /** A record read off its events: the run consumed the shortest nonempty front whose
      reports reach a cap in some field, or all of them; its usage is, field by field, the
      sum of what they report; and it was interrupted, or ended as its last event says. */
  ghost predicate Accounts(r: Record, events: seq<RunnerEvent>, caps: Caps, m: nat)
    requires m <= |events| && AllProper(events, m)
  {
    && (forall k | 0 < k < m :: UnderCaps(events, caps, k))
    && (m < |events| ==> m > 0 && !UnderCaps(events, caps, m))
    && r.spent.tokens == Sum(Amounts(events, Tokens, m))
    && r.spent.toolCalls == Sum(Amounts(events, ToolCalls, m))
    && r.spent.elapsedSeconds == Sum(Amounts(events, ElapsedSeconds, m))
    && r.spent.cost == Sum(Amounts(events, Cost, m))
    && (r.stopped <==> m > 0 && !UnderCaps(events, caps, m))
    && if r.stopped then r.status == Interrupted
       else if m == 0 then r.status == RunNotAccepted
       else Concludes(r.status, events[m - 1])
  }

  lemma {:induction false} BelowIsUnder(events: seq<RunnerEvent>, caps: Caps, n: nat)
    requires n <= |events| && AllCharge(events, n)
    ensures AllProper(events, n)
    ensures Below(Total(events, n), caps) <==> UnderCaps(events, caps, n)
  {
    TotalAdds(events, n);
  }

  lemma {:induction false} StatusConcludes(run: Run, last: RunnerEvent)
    requires run.cap.None? && Ends(last, run.outcome)
    ensures Concludes(StatusOf(run), last)
  {
  }

  /** Every record accounts for the events it consumed. */
  lemma {:induction false} RunAccounts(cell: Cell, events: seq<RunnerEvent>, caps: Caps) returns (m: nat)
    requires RecordOf(cell, Response(events), caps).Ok?
    ensures RecordOf(cell, Response(events), caps).value.cell == cell
    ensures m <= |events| && AllProper(events, m)
    ensures Accounts(RecordOf(cell, Response(events), caps).value, events, caps, m)
  {
    var run := RunOf(events, caps, |events|).value;
    RunMeaning(events, caps, |events|);
    m := run.consumed;
    forall k | 0 < k <= m
      ensures AllProper(events, k) && (Below(Total(events, k), caps) <==> UnderCaps(events, caps, k))
    {
      BelowIsUnder(events, caps, k);
    }
    TotalAdds(events, m);
    if m > 0 && run.cap.None? {
      ChargeMeaning(events[m - 1]);
      StatusConcludes(run, events[m - 1]);
    }
    if m == 0 {
      NothingConsumed(events, caps, |events|);
    }
  }

  lemma {:induction false} NothingConsumed(events: seq<RunnerEvent>, caps: Caps, n: nat)
    requires n <= |events| && RunOf(events, caps, n).Ok? && RunOf(events, caps, n).value.consumed == 0
    ensures RunOf(events, caps, n).value == Run(Usage(0.0, NOTHING), NotAccepted, None, 0)
  {
    if n > 0 && RunOf(events, caps, n - 1).value.consumed == 0 {
      NothingConsumed(events, caps, n - 1);
    }
  }

  // ------------------------------------------------------------------- a campaign

  /** One field of the usage of each record. */
  ghost function TokensOf(rs: seq<Record>): seq<real> {
    seq(|rs|, i requires 0 <= i < |rs| => rs[i].spent.tokens)
  }

  ghost function ToolCallsOf(rs: seq<Record>): seq<real> {
    seq(|rs|, i requires 0 <= i < |rs| => rs[i].spent.toolCalls)
  }

  ghost function SecondsOf(rs: seq<Record>): seq<real> {
    seq(|rs|, i requires 0 <= i < |rs| => rs[i].spent.elapsedSeconds)
  }

  ghost function CostsOf(rs: seq<Record>): seq<real> {
    seq(|rs|, i requires 0 <= i < |rs| => rs[i].spent.cost)
  }

  /** Field by field, a usage object is the sum over the records. */
  ghost predicate AddsUp(x: Spending, rs: seq<Record>) {
    && x.tokens == Sum(TokensOf(rs)) && x.toolCalls == Sum(ToolCallsOf(rs))
    && x.elapsedSeconds == Sum(SecondsOf(rs)) && x.cost == Sum(CostsOf(rs))
  }

  lemma {:induction false} SumAddsUp(rs: seq<Record>)
    ensures AddsUp(SumOf(rs), rs)
  {
    if rs != [] {
      var front := rs[..|rs| - 1];
      SumAddsUp(front);
      assert TokensOf(rs)[..|front|] == TokensOf(front) && ToolCallsOf(rs)[..|front|] == ToolCallsOf(front);
      assert SecondsOf(rs)[..|front|] == SecondsOf(front) && CostsOf(rs)[..|front|] == CostsOf(front);
    }
  }

  /** The records add up to less than every limit of a campaign. */
  ghost predicate UnderLimits(rs: seq<Record>) {
    && Sum(TokensOf(rs)) < 2000000.0 && Sum(ToolCallsOf(rs)) < 4320.0
    && Sum(SecondsOf(rs)) < 86400.0 && Sum(CostsOf(rs)) < 40.0
  }

  lemma {:induction false} BelowIsUnderLimits(rs: seq<Record>, c: Config)
    requires Approved(c)
    ensures BelowCampaign(rs, c) <==> UnderLimits(rs)
  {
    SumAddsUp(rs);
  }

  /** What the schedule of an approved campaign holds: it ended where a limit was reached,
      and its spending is, field by field, that of its records. */
  lemma {:induction false} ScheduleTotals(cells: seq<Cell>, responses: seq<Response>, c: Config, n: nat)
    requires Approved(c) && n <= |cells| <= |responses| && ScheduleOf(cells, responses, c, n).Ok?
    ensures var x := ScheduleOf(cells, responses, c, n).value;
      && AddsUp(x.spent, x.records)
      && (forall k | 0 < k < |x.records| :: UnderLimits(x.records[..k]))
      && (x.records != [] ==> (x.blocker.None? <==> UnderLimits(x.records)))
  {
    ScheduleMeaning(cells, responses, c, n);
    var x := ScheduleOf(cells, responses, c, n).value;
    SumAddsUp(x.records);
    forall k | 0 < k <= |x.records|
      ensures BelowCampaign(x.records[..k], c) <==> UnderLimits(x.records[..k])
    {
      BelowIsUnderLimits(x.records[..k], c);
    }
    assert x.records[..|x.records|] == x.records;
  }

  /** Each record is that of its own cell's answer. */
  ghost predicate Answered(rs: seq<Record>, cells: seq<Cell>, responses: seq<Response>, caps: Caps)
    requires |rs| <= |cells| <= |responses|
  {
    forall i | 0 <= i < |rs| :: RecordOf(cells[i], responses[i], caps) == Ok(rs[i])
  }

  lemma {:induction false} RecordCount(cells: seq<Cell>, responses: seq<Response>, c: Config, n: nat)
    requires n <= |cells| <= |responses| && ScheduleOf(cells, responses, c, n).Ok?
    ensures var x := ScheduleOf(cells, responses, c, n).value;
      |x.records| <= n && (x.blocker.None? ==> |x.records| == n)
  {
    ScheduleMeaning(cells, responses, c, n);
  }

  lemma {:induction false} ScheduleAnswers(cells: seq<Cell>, responses: seq<Response>, c: Config, n: nat)
    requires n <= |cells| <= |responses| && ScheduleOf(cells, responses, c, n).Ok?
    ensures |ScheduleOf(cells, responses, c, n).value.records| <= n
    ensures Answered(ScheduleOf(cells, responses, c, n).value.records, cells, responses, c.perRunCaps)
  {
    RecordCount(cells, responses, c, n);
    if n > 0 {
      ScheduleAnswers(cells, responses, c, n - 1);
      RecordCount(cells, responses, c, n - 1);
    }
  }

  lemma {:induction false} EmittedIsScheduled(c: Config, limit: Option<int>, responses: seq<Response>)
    requires |responses| >= |Matrix(c)| && CampaignOf(c, limit, responses).Ok?
    ensures var cells := Limited(Matrix(c), limit);
      && Approved(c) && cells <= Matrix(c) && ScheduleOf(cells, responses, c, |cells|).Ok?
      && CampaignOf(c, limit, responses).value.0.results == ScheduleOf(cells, responses, c, |cells|).value.records
      && CampaignOf(c, limit, responses).value.0.consumed == SumOf(CampaignOf(c, limit, responses).value.0.results)
  {
    LimitedIsPrefix(Matrix(c), limit);
  }

  /** The consumption that an emitted result declares is, in each of its four fields, the
      sum of that field over its records; each record is that of its cell's answer; and
      before the last record every sum was below its limit. */
  lemma {:induction false} EmittedTotals(c: Config, limit: Option<int>, responses: seq<Response>)
    requires |responses| >= |Matrix(c)| && CampaignOf(c, limit, responses).Ok?
    ensures var result := CampaignOf(c, limit, responses).value.0;
      && AddsUp(result.consumed, result.results)
      && (forall k | 0 < k < |result.results| :: UnderLimits(result.results[..k]))
      && |result.results| <= |Matrix(c)| && Answered(result.results, Matrix(c), responses, c.perRunCaps)
  {
    var cells := Limited(Matrix(c), limit);
    EmittedIsScheduled(c, limit, responses);
    ScheduleTotals(cells, responses, c, |cells|);
    ScheduleAnswers(cells, responses, c, |cells|);
    SumAddsUp(CampaignOf(c, limit, responses).value.0.results);
  }

  /** The first limit, in the order tokens, tool calls, seconds and cost, that the records
      reach together. */
  ghost predicate FirstReached(field: Field, rs: seq<Record>) {
    match field
    case Turns => false
    case Tokens => Sum(TokensOf(rs)) >= 2000000.0
    case ToolCalls => Sum(TokensOf(rs)) < 2000000.0 && Sum(ToolCallsOf(rs)) >= 4320.0
    case ElapsedSeconds =>
      Sum(TokensOf(rs)) < 2000000.0 && Sum(ToolCallsOf(rs)) < 4320.0 && Sum(SecondsOf(rs)) >= 86400.0
    case Cost =>
      && Sum(TokensOf(rs)) < 2000000.0 && Sum(ToolCallsOf(rs)) < 4320.0 && Sum(SecondsOf(rs)) < 86400.0
      && Sum(CostsOf(rs)) >= 40.0
  }

  lemma {:induction false} BlockerIsFirstReached(cells: seq<Cell>, responses: seq<Response>, c: Config, n: nat)
    requires Approved(c) && n <= |cells| <= |responses| && ScheduleOf(cells, responses, c, n).Ok?
    ensures var x := ScheduleOf(cells, responses, c, n).value;
      x.blocker.Some? ==> FirstReached(x.blocker.value, x.records)
  {
    if n > 0 {
      BlockerIsFirstReached(cells, responses, c, n - 1);
      var x := ScheduleOf(cells, responses, c, n).value;
      ScheduleMeaning(cells, responses, c, n);
      SumAddsUp(x.records);
    }
  }

  /** The manifest names the limit that ended the campaign, if one did, and both artifacts
      carry the campaign's own name and scope. */
  lemma {:induction false} EmittedManifest(c: Config, limit: Option<int>, responses: seq<Response>)
    requires |responses| >= |Matrix(c)| && CampaignOf(c, limit, responses).Ok?
    ensures var result, manifest := CampaignOf(c, limit, responses).value.0, CampaignOf(c, limit, responses).value.1;
      && result.campaignId == manifest.campaignId == c.id && result.kind == manifest.kind
      && result.stacks == c.stacks && result.tasks == c.tasks && result.arms == c.arms && result.replicates == 3
      && manifest.plannedCount == 108 && manifest.recordedCount == |result.results|
      && (manifest.status == if result.kind == Executed then StatusCompleted else StatusPartial)
      && |manifest.blockers| == (if UnderLimits(result.results) then 0 else 1)
      && forall field | field in manifest.blockers :: FirstReached(field, result.results)
  {
    var cells := Limited(Matrix(c), limit);
    EmittedIsScheduled(c, limit, responses);
    ApprovedMatrix(c);
    ScheduleTotals(cells, responses, c, |cells|);
    ScheduleMeaning(cells, responses, c, |cells|);
    BlockerIsFirstReached(cells, responses, c, |cells|);
  }

  /** The validator's reconciliation: the declared consumption is the sum, field by field. */
  lemma {:induction false} ReconciledExactly(d: ResultSet)
    ensures SumOf(d.results) == d.consumed <==> AddsUp(d.consumed, d.results)
    ensures ValidResults(d) ==> AddsUp(d.consumed, d.results)
  {
    SumAddsUp(d.results);
  }
}

/** When a campaign's own artifacts pass its validators. */
module CampaignTheorems {
  import opened Prelude
  import opened CampaignRuns
  import opened CampaignArtifacts

  lemma {:induction false} DistinctCardinality<T>(xs: seq<T>)
    requires Distinct(xs)
    ensures |Elements(xs)| == |xs|
  {
    if xs != [] {
      var front := xs[..|xs| - 1];
      DistinctCardinality(front);
      DistinctOneMore(xs, |front|);
      ElementsOneMore(xs, |front|);
      assert xs[..|front| + 1] == xs;
    }
  }

  lemma {:induction false} LimitedIsPrefix(cells: seq<Cell>, limit: Option<int>)
    ensures Limited(cells, limit) <= cells
  {
  }

  /** A limit is a slice bound: so many cells from the front, or all but so many from the
      back, and never more or fewer than there are. */
  lemma {:induction false} LimitedMeaning(cells: seq<Cell>, n: int)
    ensures Limited(cells, None) == cells
    ensures Limited(cells, Some(n)) <= cells
    ensures n >= 0 ==> |Limited(cells, Some(n))| == n || (n > |cells| && Limited(cells, Some(n)) == cells)
    ensures n < 0 ==> |cells| - |Limited(cells, Some(n))| == -n || (-n > |cells| && Limited(cells, Some(n)) == [])
  {
  }

  /** A prefix of the matrix covers it exactly when it is all of it. */
  lemma {:induction false} PrefixCovers<T>(xs: seq<T>, n: nat)
    requires Distinct(xs) && n <= |xs|
    ensures Distinct(xs[..n]) && (Elements(xs[..n]) == Elements(xs) <==> n == |xs|)
    ensures forall x | x in xs[..n] :: x in xs
  {
    DistinctPrefix(xs, n);
    DistinctCardinality(xs);
    DistinctCardinality(xs[..n]);
    assert n == |xs| ==> xs[..n] == xs;
  }

  /** Each usage object of the result set is within the schema's ranges. */
  predicate Representable(x: Schedule) {
    InSchema(SumOf(x.records)) && forall r | r in x.records :: InSchema(r.spent)
  }

  predicate CapOnLastCell(x: Schedule, full: seq<Cell>) {
    x.blocker.Some? && |x.records| == |full|
  }

  lemma {:induction false} ScheduleInMatrix(c: Config, limit: Option<int>, responses: seq<Response>)
    returns (x: Schedule)
    requires Approved(c) && |responses| >= |Matrix(c)| && Limited(Matrix(c), limit) != []
    requires ScheduleOf(Limited(Matrix(c), limit), responses, c, |Limited(Matrix(c), limit)|).Ok?
    ensures ScheduleOf(Limited(Matrix(c), limit), responses, c, |Limited(Matrix(c), limit)|) == Ok(x)
    ensures 1 <= |x.records| <= FULL_SIZE == |Matrix(c)| && CellsOf(x.records) == Matrix(c)[..|x.records|]
    ensures Distinct(Matrix(c)) && forall y | y in Matrix(c) :: InScope(c, y)
    ensures x.blocker.Some? ==> !x.blocker.value.Turns?
  {
    ApprovedMatrix(c);
    LimitedIsPrefix(Matrix(c), limit);
    var cells := Limited(Matrix(c), limit);
    x := ScheduleOf(cells, responses, c, |cells|).value;
    ScheduleMeaning(cells, responses, c, |cells|);
    BlockerIsNoTurnLimit(cells, responses, c, |cells|);
  }

  lemma {:induction false} BlockerIsNoTurnLimit(cells: seq<Cell>, responses: seq<Response>, c: Config, n: nat)
    requires Approved(c) && n <= |cells| <= |responses| && ScheduleOf(cells, responses, c, n).Ok?
    ensures var x := ScheduleOf(cells, responses, c, n).value; x.blocker.Some? ==> !x.blocker.value.Turns?
  {
    if n > 0 {
      BlockerIsNoTurnLimit(cells, responses, c, n - 1);
    }
  }

  /** The length the artifact schemas put on identifiers, and the configuration schemas
      do not. */
  predicate NamesFit(c: Config) {
    |c.id| <= MAX_ID_CHARS && forall id | id in c.stacks + c.tasks :: |id| <= MAX_ID_CHARS
  }

  lemma {:induction false} CellNames(c: Config)
    requires Approved(c) && NamesFit(c)
    ensures ArtifactId(c.id)
    ensures forall x | InScope(c, x) :: ArtifactCell(x)
  {
    forall x | InScope(c, x)
      ensures ArtifactCell(x)
    {
      assert x.stack in c.stacks + c.tasks && x.task in c.stacks + c.tasks;
    }
  }

  lemma {:induction false} ScopeIsInSchema(c: Config)
    requires Approved(c)
    ensures NamesFit(c) <==>
      && ArtifactId(c.id)
      && (forall id | id in c.stacks :: ArtifactId(id)) && (forall id | id in c.tasks :: ArtifactId(id))
  {
    forall id | id in c.stacks || id in c.tasks
      ensures id in c.stacks + c.tasks
    {
    }
  }

  lemma {:induction false} WithinSchemaExactly(c: Config, x: Schedule)
    requires Approved(c)
    requires 1 <= |x.records| <= FULL_SIZE == |Matrix(c)| && CellsOf(x.records) == Matrix(c)[..|x.records|]
    requires forall y | y in Matrix(c) :: InScope(c, y)
    ensures WithinSchema(ResultDocument(c, x)) <==> NamesFit(c) && Representable(x)
  {
    ScopeIsInSchema(c);
    if NamesFit(c) {
      CellNames(c);
      RecordedInScope(c, x);
    }
  }

  lemma {:induction false} ResultsAreValidExactly(c: Config, x: Schedule)
    requires Approved(c)
    requires 1 <= |x.records| <= FULL_SIZE == |Matrix(c)| && CellsOf(x.records) == Matrix(c)[..|x.records|]
    requires Distinct(Matrix(c)) && forall y | y in Matrix(c) :: InScope(c, y)
    ensures ValidResults(ResultDocument(c, x)) <==>
      NamesFit(c) && Representable(x) && !CapOnLastCell(x, Matrix(c))
  {
    WithinSchemaExactly(c, x);
    PrefixCovers(Matrix(c), |x.records|);
    DistinctCardinality(Matrix(c));
    assert x.records[0].cell in CellsOf(x.records) by {
      assert CellsOf(x.records)[0] == x.records[0].cell;
    }
    assert x.records[0].cell in Elements(CellsOf(x.records));
  }

  lemma {:induction false} RecordedInScope(c: Config, x: Schedule)
    requires |x.records| <= |Matrix(c)| && CellsOf(x.records) == Matrix(c)[..|x.records|]
    requires forall y | y in Matrix(c) :: InScope(c, y)
    ensures forall r | r in x.records :: InScope(c, r.cell)
  {
    forall r | r in x.records
      ensures InScope(c, r.cell)
    {
      var i :| 0 <= i < |x.records| && x.records[i] == r;
      assert CellsOf(x.records)[i] == r.cell == Matrix(c)[i];
    }
  }

  lemma {:induction false} ManifestIsValid(c: Config, x: Schedule)
    requires Approved(c) && NamesFit(c)
    requires 1 <= |x.records| <= FULL_SIZE == |Matrix(c)| && CellsOf(x.records) == Matrix(c)[..|x.records|]
    requires forall y | y in Matrix(c) :: InScope(c, y)
    requires Distinct(Matrix(c)) && (x.blocker.Some? ==> !x.blocker.value.Turns?)
    ensures ValidManifest(ManifestDocument(c, x))
  {
    CellNames(c);
    PrefixCovers(Matrix(c), |x.records|);
    DistinctCardinality(Matrix(c));
    DistinctCardinality(CellsOf(x.records));
  }

  /** Exactly when a campaign hands its artifacts on: it was approved, it runs some cell,
      every run answered properly, no identifier is longer than the artifacts allow, every
      usage object - the total included - stays within the caps, and no cap was first
      reached on the very last cell of the matrix. The manifest never is what fails. */
  lemma {:induction false} CampaignSucceedsExactly(c: Config, limit: Option<int>, responses: seq<Response>)
    requires |responses| >= |Matrix(c)|
    ensures var cells := Limited(Matrix(c), limit);
      CampaignOf(c, limit, responses).Ok? <==>
      && Approved(c) && cells != [] && ScheduleOf(cells, responses, c, |cells|).Ok?
      && NamesFit(c) && Representable(ScheduleOf(cells, responses, c, |cells|).value)
      && !CapOnLastCell(ScheduleOf(cells, responses, c, |cells|).value, Matrix(c))
    ensures CampaignOf(c, limit, responses) != Err(InvalidManifestArtifact)
  {
    var cells := Limited(Matrix(c), limit);
    if Approved(c) && cells != [] && ScheduleOf(cells, responses, c, |cells|).Ok? {
      var x := ScheduleInMatrix(c, limit, responses);
      ResultsAreValidExactly(c, x);
      if NamesFit(c) {
        ManifestIsValid(c, x);
      }
    }
    if Approved(c) {
      ApprovedMatrix(c);
    }
  }

  /** What an emitted pair of artifacts guarantees: the records are those of a prefix of
      the Cartesian matrix, the usage is theirs, and every total before the last record
      was strictly below every campaign cap. */
  lemma {:induction false} EmittedArtifacts(c: Config, limit: Option<int>, responses: seq<Response>)
    requires |responses| >= |Matrix(c)| && CampaignOf(c, limit, responses).Ok?
    ensures var result, manifest := CampaignOf(c, limit, responses).value.0, CampaignOf(c, limit, responses).value.1;
      && |result.results| <= |Matrix(c)|
      && CellsOf(result.results) == Matrix(c)[..|result.results|] == manifest.recorded
      && result.planned == Matrix(c) == manifest.planned
      && result.consumed == SumOf(result.results) && InSchema(result.consumed)
      && (forall k | 0 < k < |result.results| :: BelowCampaign(result.results[..k], c))
      && (result.kind.Executed? <==> |result.results| == |Matrix(c)|)
  {
    var cells := Limited(Matrix(c), limit);
    CampaignSucceedsExactly(c, limit, responses);
    var x := ScheduleInMatrix(c, limit, responses);
    LimitedIsPrefix(Matrix(c), limit);
    ScheduleMeaning(cells, responses, c, |cells|);
  }

  // ------------------------------------------------------------- refused for a name

  /** Every run answers, without a single event. */
  function Silent(): seq<Response> {
    seq(FULL_SIZE, _ => Response([]))
  }

  lemma {:induction false} SilentRecord(cell: Cell, events: seq<RunnerEvent>, caps: Caps)
    requires events == []
    ensures RecordOf(cell, Response(events), caps) == Ok(Record(cell, RunNotAccepted, false, NOTHING))
  {
  }

  lemma {:induction false} SilentSchedule(c: Config, n: nat)
    requires Approved(c) && |Matrix(c)| == FULL_SIZE && n <= FULL_SIZE
    ensures ScheduleOf(Matrix(c), Silent(), c, n).Ok?
    ensures var x := ScheduleOf(Matrix(c), Silent(), c, n).value;
      && |x.records| == n && x.spent == NOTHING && x.blocker.None?
      && SumOf(x.records) == NOTHING && forall r | r in x.records :: r.spent == NOTHING
  {
    if n > 0 {
      SilentSchedule(c, n - 1);
      SilentRecord(Matrix(c)[n - 1], [], c.perRunCaps);
      var before := ScheduleOf(Matrix(c), Silent(), c, n - 1).value.records;
      SumOneMore(before, Record(Matrix(c)[n - 1], RunNotAccepted, false, NOTHING));
    }
  }

  lemma {:induction false} SilentIsRepresentable(c: Config)
    requires Approved(c)
    ensures |Silent()| >= |Matrix(c)| == FULL_SIZE
    ensures ScheduleOf(Matrix(c), Silent(), c, |Matrix(c)|).Ok?
    ensures var x := ScheduleOf(Matrix(c), Silent(), c, |Matrix(c)|).value;
      Representable(x) && !CapOnLastCell(x, Matrix(c))
  {
    ApprovedMatrix(c);
    SilentSchedule(c, |Matrix(c)|);
  }

  /** A campaign that is refused for its names, after all its runs. */
  lemma {:induction false} LongNamesAreRefused(c: Config, limit: Option<int>, responses: seq<Response>)
    requires Approved(c) && !NamesFit(c) && |responses| >= |Matrix(c)| && Limited(Matrix(c), limit) != []
    requires ScheduleOf(Limited(Matrix(c), limit), responses, c, |Limited(Matrix(c), limit)|).Ok?
    ensures CampaignOf(c, limit, responses) == Err(InvalidResultArtifact)
  {
    var x := ScheduleInMatrix(c, limit, responses);
    ResultsAreValidExactly(c, x);
  }

  /** A full campaign in which nothing happens at all hands its artifacts on exactly when
      its names fit: nothing that approves a configuration asks for that. */
  lemma {:induction false} SilentCampaignSucceedsExactly(c: Config)
    requires Approved(c)
    ensures |Silent()| >= |Matrix(c)|
    ensures CampaignOf(c, None, Silent()).Ok? <==> NamesFit(c)
    ensures !NamesFit(c) ==> CampaignOf(c, None, Silent()) == Err(InvalidResultArtifact)
  {
    SilentIsRepresentable(c);
    if NamesFit(c) {
      CampaignSucceedsExactly(c, None, Silent());
    } else {
      LongNamesAreRefused(c, None, Silent());
    }
  }

  /** Two stacks, and six tasks of which the first is named by so many letters. */
  function Named(n: nat): Config {
    Config("c", ["s", "t"], [seq(n, _ => 'a'), "b", "d", "e", "f", "g"], ALL_ARMS, 3,
           PER_RUN_CAPS, CAMPAIGN_CAPS, false)
  }

  lemma {:induction false} NamedIsApproved(n: nat)
    requires n > 0
    ensures Approved(Named(n)) && (NamesFit(Named(n)) <==> n <= MAX_ID_CHARS)
  {
    var tasks := Named(n).tasks;
    assert tasks[0][0] == 'a' && tasks[1][0] == 'b' && tasks[2][0] == 'd';
    assert tasks[3][0] == 'e' && tasks[4][0] == 'f' && tasks[5][0] == 'g';
    assert Named(n).stacks[0][0] == 's' && Named(n).stacks[1][0] == 't';
    var names := Named(n).stacks + tasks;
    assert names[2] == tasks[0] && names[2] in names;
  }

  /** A task name of 129 letters: approved, run to the end, and refused. With one letter
      less the same campaign is handed on. */
  lemma {:induction false} LongNameIsRefused()
    ensures Approved(Named(129)) && |Silent()| >= |Matrix(Named(129))|
    ensures CampaignOf(Named(129), None, Silent()) == Err(InvalidResultArtifact)
    ensures Approved(Named(128)) && |Silent()| >= |Matrix(Named(128))|
    ensures CampaignOf(Named(128), None, Silent()).Ok?
  {
    NamedIsApproved(129);
    NamedIsApproved(128);
    SilentCampaignSucceedsExactly(Named(129));
    SilentCampaignSucceedsExactly(Named(128));
  }

  // -------------------------------------------------------------- a concrete refusal

  /** An event that reports nothing but tool calls. */
  function CallsOnly(calls: real): RunnerEvent {
    Event(None, Some(RawUsage(None, None, Some(Number(calls)), None, None)), Number(0.0))
  }

  /** Every run of the matrix makes forty tool calls: exactly its limit. */
  function AtTheLimit(): seq<Response> {
    seq(FULL_SIZE, _ => Response([CallsOnly(40.0)]))
  }

  lemma {:induction false} OneEventRecord(cell: Cell, e: RunnerEvent, usage: Usage, outcome: Outcome, caps: Caps)
    requires Charge(e) == Ok((usage, outcome))
    requires PlusUsage(Usage(0.0, NOTHING), usage) == usage && CapReached(usage, caps).Some?
    ensures RecordOf(cell, Response([e]), caps) == Ok(Record(cell, Interrupted, true, usage.spent))
  {
    var events := [e];
    var none: nat := 0;
    assert RunOf(events, caps, none) == Ok(Run(Usage(0.0, NOTHING), NotAccepted, None, 0));
    assert RunOf(events, caps, none + 1) == Ok(Run(usage, outcome, CapReached(usage, caps), 1));
  }

  lemma {:induction false} CallsAreCharged(calls: real)
    requires calls >= 0.0
    ensures Charge(CallsOnly(calls)) == Ok((Usage(0.0, Spending(0.0, calls, 0.0, 0.0)), NotAccepted))
  {
  }

  lemma {:induction false} FortyCallsReachTheCap(usage: Usage, caps: Caps)
    requires usage == Usage(0.0, Spending(0.0, 40.0, 0.0, 0.0)) && caps == PER_RUN_CAPS
    ensures PlusUsage(Usage(0.0, NOTHING), usage) == usage && CapReached(usage, caps) == Some(ToolCalls)
  {
  }

  lemma {:induction false} FortyCallsRecord(cell: Cell, e: RunnerEvent, usage: Usage, caps: Caps)
    requires e == CallsOnly(40.0) && usage == Usage(0.0, Spending(0.0, 40.0, 0.0, 0.0)) && caps == PER_RUN_CAPS
    ensures RecordOf(cell, Response([e]), caps) == Ok(Record(cell, Interrupted, true, usage.spent))
  {
    CallsAreCharged(40.0);
    FortyCallsReachTheCap(usage, caps);
    OneEventRecord(cell, e, usage, NotAccepted, caps);
  }

  lemma {:induction false} LimitSchedule(c: Config, n: nat)
    requires Approved(c) && |Matrix(c)| == FULL_SIZE && n <= FULL_SIZE
    ensures ScheduleOf(Matrix(c), AtTheLimit(), c, n).Ok?
    ensures var x := ScheduleOf(Matrix(c), AtTheLimit(), c, n).value;
      && |x.records| == n && x.spent == Spending(0.0, 40.0 * n as real, 0.0, 0.0)
      && x.blocker == if n == FULL_SIZE then Some(ToolCalls) else None
  {
    if n > 0 {
      LimitSchedule(c, n - 1);
      FortyCallsRecord(Matrix(c)[n - 1], CallsOnly(40.0), Usage(0.0, Spending(0.0, 40.0, 0.0, 0.0)), c.perRunCaps);
    }
  }

  /** A campaign in which every run uses exactly its forty tool calls reaches the campaign
      limit of 4320 with its last cell. It covers the whole matrix and overshoots nothing,
      and its own validator refuses it. */
  lemma {:induction false} FullCampaignCanBeRefused(c: Config)
    requires Approved(c)
    ensures |AtTheLimit()| >= |Matrix(c)|
    ensures CampaignOf(c, None, AtTheLimit()) == Err(InvalidResultArtifact)
  {
    ApprovedMatrix(c);
    LimitSchedule(c, FULL_SIZE);
    var x := ScheduleInMatrix(c, None, AtTheLimit());
    ResultsAreValidExactly(c, x);
  }
}

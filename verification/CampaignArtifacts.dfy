/** A capped campaign: the scheduler, the result and manifest it emits, and the validators
    both have to pass before anything is handed on. */
module CampaignArtifacts {
  import opened Prelude
  import opened CampaignRuns

  // ------------------------------------------------------------------ scheduling

  datatype Schedule = Schedule(records: seq<Record>, spent: Spending, blocker: Option<Field>)

  /** The first `n` cells. It ends with the cell that reaches a campaign cap. */
  function ScheduleOf(cells: seq<Cell>, responses: seq<Response>, c: Config, n: nat): Result<Schedule, RunError>
    requires n <= |cells| <= |responses|
  {
    if n == 0 then Ok(Schedule([], NOTHING, None))
    else
      var before := ScheduleOf(cells, responses, c, n - 1);
      if before.Err? || before.value.blocker.Some? then before
      else
        var record := RecordOf(cells[n - 1], responses[n - 1], c.perRunCaps);
        if record.Err? then Err(record.error)
        else
          var spent := Plus(before.value.spent, record.value.spent);
          Ok(Schedule(before.value.records + [record.value], spent, CapReached(Usage(0.0, spent), c.campaignCaps)))
  }

  lemma {:induction false} ScheduleIsFinal(cells: seq<Cell>, responses: seq<Response>, c: Config, m: nat, n: nat)
    requires m <= n <= |cells| <= |responses|
    requires ScheduleOf(cells, responses, c, m).Err? || ScheduleOf(cells, responses, c, m).value.blocker.Some?
    ensures ScheduleOf(cells, responses, c, n) == ScheduleOf(cells, responses, c, m)
  {
    if m < n {
      ScheduleIsFinal(cells, responses, c, m, n - 1);
    }
  }

  function SumOf(records: seq<Record>): Spending {
    if records == [] then NOTHING else Plus(SumOf(records[..|records| - 1]), records[|records| - 1].spent)
  }

  lemma {:induction false} SumOneMore(records: seq<Record>, r: Record)
    ensures SumOf(records + [r]) == Plus(SumOf(records), r.spent)
  {
    assert (records + [r])[..|records|] == records;
  }

  /** The cells of the records, in order. */
  function CellsOf(records: seq<Record>): (cells: seq<Cell>)
    ensures |cells| == |records|
  {
    seq(|records|, i requires 0 <= i < |records| => records[i].cell)
  }

  ghost predicate BelowCampaign(records: seq<Record>, c: Config) {
    Below(Usage(0.0, SumOf(records)), c.campaignCaps)
  }

  /** The records are those of a prefix of the cells, their spending is the campaign's,
      and before the last record every total was strictly below every campaign cap. */
  lemma {:induction false} ScheduleMeaning(cells: seq<Cell>, responses: seq<Response>, c: Config, n: nat)
    requires n <= |cells| <= |responses| && ScheduleOf(cells, responses, c, n).Ok?
    ensures var x := ScheduleOf(cells, responses, c, n).value;
      && |x.records| <= n && CellsOf(x.records) == cells[..|x.records|]
      && x.spent == SumOf(x.records)
      && (forall k | 0 < k < |x.records| :: BelowCampaign(x.records[..k], c))
      && (x.blocker.None? ==> |x.records| == n)
      && (x.records != [] ==> (x.blocker.None? <==> BelowCampaign(x.records, c)))
      && (n > 0 ==> x.records != [])
      && (x.records == [] ==> x.blocker.None?)
  {
    if n > 0 {
      ScheduleMeaning(cells, responses, c, n - 1);
      var before := ScheduleOf(cells, responses, c, n - 1).value;
      var x := ScheduleOf(cells, responses, c, n).value;
      if before.blocker.None? {
        SumOneMore(before.records, x.records[n - 1]);
        ScheduleStep(cells, before.records, x.records[n - 1], c);
      }
    }
  }

  lemma {:induction false} ScheduleStep(cells: seq<Cell>, before: seq<Record>, r: Record, c: Config)
    requires |before| < |cells| && CellsOf(before) == cells[..|before|] && r.cell == cells[|before|]
    requires forall k | 0 < k < |before| :: BelowCampaign(before[..k], c)
    requires before != [] ==> BelowCampaign(before, c)
    ensures CellsOf(before + [r]) == cells[..|before| + 1]
    ensures forall k | 0 < k < |before + [r]| :: BelowCampaign((before + [r])[..k], c)
  {
    forall k | 0 < k < |before + [r]|
      ensures BelowCampaign((before + [r])[..k], c)
    {
      assert (before + [r])[..k] == if k == |before| then before else before[..k];
    }
  }

  method RunCells(cells: seq<Cell>, responses: seq<Response>, c: Config) returns (r: Result<Schedule, RunError>)
    requires |cells| <= |responses|
    ensures r == ScheduleOf(cells, responses, c, |cells|)
  {
    var schedule := Schedule([], NOTHING, None);
    for n := 0 to |cells|
      invariant ScheduleOf(cells, responses, c, n) == Ok(schedule) && schedule.blocker.None?
    {
      var record := RecordForRun(cells[n], responses[n], c.perRunCaps);
      if record.Err? {
        ScheduleIsFinal(cells, responses, c, n + 1, |cells|);
        return Err(record.error);
      }
      var spent := Plus(schedule.spent, record.value.spent);
      schedule := Schedule(schedule.records + [record.value], spent, CapReached(Usage(0.0, spent), c.campaignCaps));
      if schedule.blocker.Some? {
        ScheduleIsFinal(cells, responses, c, n + 1, |cells|);
        break;
      }
    }
    return Ok(schedule);
  }

  // -------------------------------------------------------------------- artifacts

  datatype SourceKind = Blocked | Partial | Executed

  const MAX_ID_CHARS: nat := 128

  /** An identifier of an artifact: the same pattern, and a length. */
  predicate ArtifactId(id: string) {
    SlugPattern(id) && |id| <= MAX_ID_CHARS
  }

  predicate ArtifactCell(x: Cell) {
    ArtifactId(x.stack) && ArtifactId(x.task) && 1 <= x.replicate <= 3
  }

  datatype ResultSet = ResultSet(
    campaignId: string,
    kind: SourceKind,
    stacks: seq<string>,
    tasks: seq<string>,
    arms: seq<Arm>,
    replicates: nat,
    consumed: Spending,
    planned: seq<Cell>,
    results: seq<Record>)

  predicate IsWhole(x: real) {
    x.Floor as real == x
  }

  /** The result schema's ranges for a usage object; they are the campaign's own caps. */
  predicate InSchema(x: Spending) {
    && IsWhole(x.tokens) && 0.0 <= x.tokens <= 2000000.0
    && IsWhole(x.toolCalls) && 0.0 <= x.toolCalls <= 4320.0
    && 0.0 <= x.elapsedSeconds <= 86400.0
    && 0.0 <= x.cost <= 40.0
  }

  predicate WithinSchema(d: ResultSet) {
    && ArtifactId(d.campaignId)
    && 1 <= |d.stacks| <= FULL_SIZE && (forall id | id in d.stacks :: ArtifactId(id))
    && 1 <= |d.tasks| <= 6 && Distinct(d.tasks) && (forall id | id in d.tasks :: ArtifactId(id))
    && 1 <= |d.arms| <= 3 && Distinct(d.arms) && 1 <= d.replicates <= 3
    && InSchema(d.consumed)
    && (forall x | x in d.planned :: ArtifactCell(x))
    && (forall r | r in d.results :: InSchema(r.spent) && ArtifactCell(r.cell))
    && 1 <= |d.planned| <= FULL_SIZE && |d.results| <= FULL_SIZE
    && match d.kind
       case Blocked => |d.results| == 0
       case Partial => |d.results| >= 1
       case Executed => |d.planned| >= FULL_SIZE && |d.results| >= FULL_SIZE
  }

  predicate Planned(d: ResultSet, x: Cell) {
    x.stack in d.stacks && x.task in d.tasks && x.arm in d.arms && 1 <= x.replicate <= d.replicates
  }

  /** The set comparisons that separate a partial from an executed campaign. */
  predicate KindMatches(kind: SourceKind, recorded: set<Cell>, planned: set<Cell>) {
    match kind
    case Blocked => recorded == {}
    case Partial => recorded != {} && recorded != planned
    case Executed => |planned| == FULL_SIZE && recorded == planned
  }

  /** What a result set has to satisfy. */
  ghost predicate ValidResults(d: ResultSet) {
    && WithinSchema(d)
    && Distinct(d.planned) && (forall x | x in d.planned :: Planned(d, x))
    && Distinct(CellsOf(d.results)) && (forall x | x in CellsOf(d.results) :: x in d.planned)
    && SumOf(d.results) == d.consumed
    && KindMatches(d.kind, Elements(CellsOf(d.results)), Elements(d.planned))
  }

  lemma {:induction false} ElementsOneMore<T>(xs: seq<T>, n: nat)
    requires n < |xs|
    ensures Elements(xs[..n + 1]) == Elements(xs[..n]) + {xs[n]}
  {
    assert xs[..n + 1] == xs[..n] + [xs[n]];
  }

  lemma {:induction false} DistinctOneMore<T>(xs: seq<T>, n: nat)
    requires n < |xs|
    ensures Distinct(xs[..n + 1]) <==> Distinct(xs[..n]) && xs[n] !in Elements(xs[..n])
  {
    var head := xs[..n + 1];
    assert head == xs[..n] + [xs[n]];
    if xs[n] in xs[..n] {
      var i :| 0 <= i < n && xs[..n][i] == xs[n];
      assert head[i] == head[n];
    }
  }

  lemma {:induction false} DistinctPrefix<T>(xs: seq<T>, n: nat)
    requires n <= |xs|
    ensures Distinct(xs) ==> Distinct(xs[..n])
  {
  }

  /** The planned keys, unless one comes twice or is out of scope. */
  method CollectPlanned(d: ResultSet) returns (keys: Option<set<Cell>>)
    ensures keys.Some? <==> Distinct(d.planned) && forall x | x in d.planned :: Planned(d, x)
    ensures keys.Some? ==> keys.value == Elements(d.planned)
  {
    var seen: set<Cell> := {};
    for n := 0 to |d.planned|
      invariant seen == Elements(d.planned[..n]) && Distinct(d.planned[..n])
      invariant forall i | 0 <= i < n :: Planned(d, d.planned[i])
    {
      ElementsOneMore(d.planned, n);
      DistinctOneMore(d.planned, n);
      var key := d.planned[n];
      if key in seen || !Planned(d, key) {
        DistinctPrefix(d.planned, n + 1);
        return None;
      }
      seen := seen + {key};
    }
    assert d.planned[..|d.planned|] == d.planned;
    return Some(seen);
  }

  datatype Recorded = Recorded(keys: set<Cell>, total: Spending)

  /** The recorded keys and their total, unless one comes twice or is not planned. */
  method CollectRecorded(records: seq<Record>, planned: set<Cell>) returns (r: Option<Recorded>)
    ensures r.Some? <==> Distinct(CellsOf(records)) && forall x | x in CellsOf(records) :: x in planned
    ensures r.Some? ==> r.value == Recorded(Elements(CellsOf(records)), SumOf(records))
  {
    ghost var cells := CellsOf(records);
    var keys: set<Cell> := {};
    var total := NOTHING;
    for n := 0 to |records|
      invariant keys == Elements(cells[..n]) && Distinct(cells[..n])
      invariant forall i | 0 <= i < n :: cells[i] in planned
      invariant total == SumOf(records[..n])
    {
      ElementsOneMore(cells, n);
      DistinctOneMore(cells, n);
      SumOneMore(records[..n], records[n]);
      assert records[..n] + [records[n]] == records[..n + 1];
      var key := records[n].cell;
      if key in keys || key !in planned {
        DistinctPrefix(cells, n + 1);
        assert cells[n] in cells;
        return None;
      }
      keys := keys + {key};
      total := Plus(total, records[n].spent);
    }
    assert cells[..|cells|] == cells && records[..|records|] == records;
    return Some(Recorded(keys, total));
  }

  method ValidateResults(d: ResultSet) returns (ok: bool)
    ensures ok <==> ValidResults(d)
  {
    if !WithinSchema(d) {
      return false;
    }
    var planned := CollectPlanned(d);
    if planned.None? {
      return false;
    }
    var recorded := CollectRecorded(d.results, planned.value);
    if recorded.None? || recorded.value.total != d.consumed {
      return false;
    }
    return KindMatches(d.kind, recorded.value.keys, planned.value);
  }

  datatype ManifestStatus = StatusBlocked | StatusPartial | StatusCompleted

  datatype Manifest = Manifest(
    campaignId: string,
    kind: SourceKind,
    status: ManifestStatus,
    blockers: seq<Field>,
    plannedCount: nat,
    recordedCount: nat,
    planned: seq<Cell>,
    recorded: seq<Cell>)

  predicate ManifestInSchema(m: Manifest) {
    && ArtifactId(m.campaignId) && (forall x | x in m.planned + m.recorded :: ArtifactCell(x))
    && |m.blockers| <= 8 && Distinct(m.blockers)
    && 1 <= m.plannedCount <= FULL_SIZE && m.recordedCount <= FULL_SIZE
    && 1 <= |m.planned| <= FULL_SIZE && |m.recorded| <= FULL_SIZE
    && (forall b | b in m.blockers :: !b.Turns?)
    && match m.kind
       case Blocked => m.status.StatusBlocked? && m.recordedCount == 0 && |m.recorded| == 0
       case Partial => m.status.StatusPartial? && m.recordedCount >= 1 && |m.recorded| >= 1
       case Executed =>
         m.status.StatusCompleted? && m.plannedCount == FULL_SIZE && m.recordedCount == FULL_SIZE
         && |m.planned| >= FULL_SIZE && |m.recorded| >= FULL_SIZE
  }

  ghost predicate ValidManifest(m: Manifest) {
    && ManifestInSchema(m)
    && Distinct(m.planned) && Distinct(m.recorded)
    && (forall x | x in m.recorded :: x in m.planned)
    && m.plannedCount == |Elements(m.planned)| && m.recordedCount == |Elements(m.recorded)|
  }

  method CollectKeys(cells: seq<Cell>, allowed: Option<set<Cell>>) returns (keys: Option<set<Cell>>)
    ensures keys.Some? <==> Distinct(cells) && (allowed.Some? ==> forall x | x in cells :: x in allowed.value)
    ensures keys.Some? ==> keys.value == Elements(cells)
  {
    var seen: set<Cell> := {};
    for n := 0 to |cells|
      invariant seen == Elements(cells[..n]) && Distinct(cells[..n])
      invariant allowed.Some? ==> forall i | 0 <= i < n :: cells[i] in allowed.value
    {
      ElementsOneMore(cells, n);
      DistinctOneMore(cells, n);
      if cells[n] in seen || (allowed.Some? && cells[n] !in allowed.value) {
        DistinctPrefix(cells, n + 1);
        return None;
      }
      seen := seen + {cells[n]};
    }
    assert cells[..|cells|] == cells;
    return Some(seen);
  }

  method ValidateManifest(m: Manifest) returns (ok: bool)
    ensures ok <==> ValidManifest(m)
  {
    if !ManifestInSchema(m) {
      return false;
    }
    var planned := CollectKeys(m.planned, None);
    if planned.None? {
      return false;
    }
    var recorded := CollectKeys(m.recorded, planned);
    if recorded.None? {
      return false;
    }
    return m.plannedCount == |planned.value| && m.recordedCount == |recorded.value|;
  }

  // ------------------------------------------------------------------- execution

  datatype CampaignError =
    | ConfigurationBlocked | MatrixNotBounded | RunFailed(error: RunError)
    | InvalidResultArtifact | InvalidManifestArtifact

  /** Python's `matrix[:limit]`. */
  function Limited(cells: seq<Cell>, limit: Option<int>): seq<Cell> {
    if limit.None? || limit.value >= |cells| then cells
    else if limit.value >= 0 then cells[..limit.value]
    else if |cells| + limit.value > 0 then cells[..|cells| + limit.value]
    else []
  }

  function KindOf(x: Schedule, full: seq<Cell>): SourceKind {
    if x.blocker.Some? || |x.records| < |full| then Partial else Executed
  }

  function ResultDocument(c: Config, x: Schedule): ResultSet {
    ResultSet(c.id, KindOf(x, Matrix(c)), c.stacks, c.tasks, c.arms, c.replicates,
              SumOf(x.records), Matrix(c), x.records)
  }

  function ManifestDocument(c: Config, x: Schedule): Manifest {
    Manifest(c.id, KindOf(x, Matrix(c)), if KindOf(x, Matrix(c)).Partial? then StatusPartial else StatusCompleted,
             if x.blocker.Some? then [x.blocker.value] else [],
             |Matrix(c)|, |x.records|, Matrix(c), CellsOf(x.records))
  }

  /** A campaign, as a function of its configuration and of what its runs answer. */
  ghost function CampaignOf(c: Config, limit: Option<int>,
        responses: seq<Response>): Result<(ResultSet, Manifest), CampaignError>
    requires |responses| >= |Matrix(c)|
  {
    if !Approved(c) then Err(ConfigurationBlocked)
    else
      var cells := Limited(Matrix(c), limit);
      if cells == [] || |Matrix(c)| > FULL_SIZE then Err(MatrixNotBounded)
      else
        var schedule := ScheduleOf(cells, responses, c, |cells|);
        if schedule.Err? then Err(RunFailed(schedule.error))
        else if !ValidResults(ResultDocument(c, schedule.value)) then Err(InvalidResultArtifact)
        else if !ValidManifest(ManifestDocument(c, schedule.value)) then Err(InvalidManifestArtifact)
        else Ok((ResultDocument(c, schedule.value), ManifestDocument(c, schedule.value)))
  }

  method SumRecords(records: seq<Record>) returns (total: Spending)
    ensures total == SumOf(records)
  {
    total := NOTHING;
    for n := 0 to |records|
      invariant total == SumOf(records[..n])
    {
      SumOneMore(records[..n], records[n]);
      assert records[..n] + [records[n]] == records[..n + 1];
      total := Plus(total, records[n].spent);
    }
    assert records[..|records|] == records;
  }

  method ExecuteCampaign(c: Config, limit: Option<int>, responses: seq<Response>)
    returns (r: Result<(ResultSet, Manifest), CampaignError>)
    requires |responses| >= |Matrix(c)|
    ensures r == CampaignOf(c, limit, responses)
  {
    if !Approved(c) {
      return Err(ConfigurationBlocked);
    }
    var full := Matrix(c);
    var cells := Limited(full, limit);
    if cells == [] || |full| > FULL_SIZE {
      return Err(MatrixNotBounded);
    }
    var schedule := RunCells(cells, responses, c);
    if schedule.Err? {
      return Err(RunFailed(schedule.error));
    }
    var x := schedule.value;
    var consumed := SumRecords(x.records);
    var result := ResultSet(c.id, KindOf(x, full), c.stacks, c.tasks, c.arms, c.replicates, consumed, full, x.records);
    var valid := ValidateResults(result);
    if !valid {
      return Err(InvalidResultArtifact);
    }
    var manifest := ManifestDocument(c, x);
    valid := ValidateManifest(manifest);
    return if valid then Ok((result, manifest)) else Err(InvalidManifestArtifact);
  }
}

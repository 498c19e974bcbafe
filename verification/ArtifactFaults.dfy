/** What the validators of a campaign's artifacts refuse: the faults of a result set and of
    a manifest, one by one. */
module ArtifactFaults {
  import opened Prelude
  import opened CampaignRuns
  import opened CampaignArtifacts
  import opened CampaignTheorems
  import opened CampaignTotals

  // ----------------------------------------------------------------- shared parts

  ghost predicate Repeated<T>(xs: seq<T>) {
    exists i, j :: 0 <= i < j < |xs| && xs[i] == xs[j]
  }

  ghost predicate FaultyId(id: string) {
    |id| > 128 || !SlugPattern(id)
  }

  /** A name that is no identifier, or a replicate that there is not. */
  ghost predicate FaultyCell(x: Cell) {
    FaultyId(x.stack) || FaultyId(x.task) || x.replicate == 0 || x.replicate > 3
  }

  /** A count that is not whole, or an amount below 0 or over the limit of a campaign. */
  ghost predicate FaultyUsage(x: Spending) {
    || x.tokens != x.tokens.Floor as real || x.toolCalls != x.toolCalls.Floor as real
    || x.tokens < 0.0 || x.toolCalls < 0.0 || x.elapsedSeconds < 0.0 || x.cost < 0.0
    || x.tokens > 2000000.0 || x.toolCalls > 4320.0 || x.elapsedSeconds > 86400.0 || x.cost > 40.0
  }

  // ---------------------------------------------------------------- a result set

  ghost predicate FaultyScope(d: ResultSet) {
    || FaultyId(d.campaignId)
    || |d.stacks| == 0 || |d.stacks| > 108 || (exists id :: id in d.stacks && FaultyId(id))
    || |d.tasks| == 0 || |d.tasks| > 6 || Repeated(d.tasks) || (exists id :: id in d.tasks && FaultyId(id))
    || |d.arms| == 0 || |d.arms| > 3 || Repeated(d.arms)
    || d.replicates == 0 || d.replicates > 3
  }

  ghost predicate OutOfScope(d: ResultSet, x: Cell) {
    || x.stack !in d.stacks || x.task !in d.tasks || x.arm !in d.arms
    || x.replicate == 0 || x.replicate > d.replicates
  }

  ghost predicate FaultyPlan(d: ResultSet) {
    || |d.planned| == 0 || |d.planned| > 108 || Repeated(d.planned)
    || exists x :: x in d.planned && (FaultyCell(x) || OutOfScope(d, x))
  }

  ghost predicate FaultyRecords(d: ResultSet) {
    || |d.results| > 108
    || (exists i, j :: 0 <= i < j < |d.results| && d.results[i].cell == d.results[j].cell)
    || exists r :: r in d.results && (FaultyUsage(r.spent) || FaultyCell(r.cell) || r.cell !in d.planned)
  }

  /** A planned cell without a record. */
  ghost predicate Missed(d: ResultSet, x: Cell) {
    x in d.planned && forall r | r in d.results :: r.cell != x
  }

  ghost predicate FaultyKind(d: ResultSet) {
    match d.kind
    case Blocked => |d.results| > 0
    case Partial => |d.results| == 0 || forall x :: !Missed(d, x)
    case Executed => |d.planned| < 108 || |d.results| < 108 || exists x :: Missed(d, x)
  }

  lemma {:induction false} RepeatedIs<T>(xs: seq<T>)
    ensures Repeated(xs) <==> !Distinct(xs)
  {
  }

  lemma {:induction false} FaultyNames(id: string, x: Cell, u: Spending)
    ensures FaultyId(id) <==> !ArtifactId(id)
    ensures FaultyCell(x) <==> !ArtifactCell(x)
    ensures FaultyUsage(u) <==> !InSchema(u)
  {
  }

  lemma {:induction false} RecordedCells(d: ResultSet)
    ensures Distinct(CellsOf(d.results)) <==>
      forall i, j | 0 <= i < j < |d.results| :: d.results[i].cell != d.results[j].cell
    ensures forall x :: x in CellsOf(d.results) <==> exists r :: r in d.results && r.cell == x
    ensures (forall x | x in CellsOf(d.results) :: x in d.planned) <==> forall r | r in d.results :: r.cell in d.planned
  {
    var cells := CellsOf(d.results);
    assert forall i | 0 <= i < |cells| :: cells[i] == d.results[i].cell;
    forall r | r in d.results
      ensures r.cell in cells
    {
      var i :| 0 <= i < |d.results| && d.results[i] == r;
      assert cells[i] == r.cell;
    }
    forall x | x in cells
      ensures exists r :: r in d.results && r.cell == x
    {
      var i :| 0 <= i < |cells| && cells[i] == x;
      assert d.results[i] in d.results;
    }
  }

  lemma {:induction false} MissedIs(d: ResultSet)
    requires forall r | r in d.results :: r.cell in d.planned
    ensures Elements(CellsOf(d.results)) == Elements(d.planned) <==> forall x :: !Missed(d, x)
    ensures Elements(CellsOf(d.results)) == {} <==> d.results == []
  {
    RecordedCells(d);
    var recorded, planned := Elements(CellsOf(d.results)), Elements(d.planned);
    assert recorded <= planned;
    forall x: Cell
      ensures Missed(d, x) <==> x in planned && x !in recorded
    {
    }
    if d.results != [] {
      assert d.results[0] in d.results && d.results[0].cell in recorded;
    }
  }

  ghost predicate SizesFit(d: ResultSet) {
    match d.kind
    case Blocked => |d.results| == 0
    case Partial => |d.results| >= 1
    case Executed => |d.planned| >= FULL_SIZE && |d.results| >= FULL_SIZE
  }

  lemma {:induction false} KindIs(d: ResultSet)
    requires Distinct(d.planned) && |d.planned| <= 108 && forall r | r in d.results :: r.cell in d.planned
    ensures FaultyKind(d) <==>
      !(SizesFit(d) && KindMatches(d.kind, Elements(CellsOf(d.results)), Elements(d.planned)))
  {
    MissedIs(d);
    DistinctCardinality(d.planned);
  }

  ghost predicate ScopeFits(d: ResultSet) {
    && ArtifactId(d.campaignId)
    && 1 <= |d.stacks| <= FULL_SIZE && (forall id | id in d.stacks :: ArtifactId(id))
    && 1 <= |d.tasks| <= 6 && Distinct(d.tasks) && (forall id | id in d.tasks :: ArtifactId(id))
    && 1 <= |d.arms| <= 3 && Distinct(d.arms) && 1 <= d.replicates <= 3
  }

  lemma {:induction false} ScopeIs(d: ResultSet)
    ensures FaultyScope(d) <==> !ScopeFits(d)
  {
    RepeatedIs(d.tasks);
    RepeatedIs(d.arms);
  }

  ghost predicate PlanFits(d: ResultSet) {
    && 1 <= |d.planned| <= FULL_SIZE && Distinct(d.planned)
    && forall x | x in d.planned :: ArtifactCell(x) && Planned(d, x)
  }

  lemma {:induction false} PlanIs(d: ResultSet)
    ensures FaultyPlan(d) <==> !PlanFits(d)
  {
    RepeatedIs(d.planned);
  }

  ghost predicate RecordsFit(d: ResultSet) {
    && |d.results| <= FULL_SIZE && Distinct(CellsOf(d.results))
    && forall r | r in d.results :: InSchema(r.spent) && ArtifactCell(r.cell) && r.cell in d.planned
  }

  lemma {:induction false} RecordsAre(d: ResultSet)
    ensures FaultyRecords(d) <==> !RecordsFit(d)
  {
    RecordedCells(d);
  }

  lemma {:induction false} ValidIs(d: ResultSet)
    ensures ValidResults(d) <==>
      && ScopeFits(d) && InSchema(d.consumed) && PlanFits(d) && RecordsFit(d) && SumOf(d.results) == d.consumed
      && SizesFit(d) && KindMatches(d.kind, Elements(CellsOf(d.results)), Elements(d.planned))
  {
    RecordedCells(d);
  }

  /** Exactly which result sets are refused: a faulty scope, plan or record, consumption that
      is out of range or not the sum of the records, or a kind that the records belie. */
  lemma {:induction false} ResultsAreRefusedExactly(d: ResultSet)
    ensures !ValidResults(d) <==>
      || FaultyScope(d) || FaultyUsage(d.consumed) || FaultyPlan(d) || FaultyRecords(d)
      || !AddsUp(d.consumed, d.results) || FaultyKind(d)
  {
    ValidIs(d);
    ScopeIs(d);
    PlanIs(d);
    RecordsAre(d);
    ReconciledExactly(d);
    if PlanFits(d) && RecordsFit(d) {
      KindIs(d);
    }
  }

  // ------------------------------------------------------------------ a manifest

  /** Too few or too many planned or recorded cells, faulty ones, one twice, a recorded one
      that is not planned, or counts that are not theirs. */
  ghost predicate FaultyLists(m: Manifest) {
    || |m.planned| == 0 || |m.planned| > 108 || Repeated(m.planned)
    || |m.recorded| > 108 || Repeated(m.recorded)
    || (exists x :: x in m.planned && FaultyCell(x))
    || (exists x :: x in m.recorded && (FaultyCell(x) || x !in m.planned))
    || m.plannedCount != |m.planned| || m.recordedCount != |m.recorded|
  }

  /** A status that is not that of the kind, or a kind that the counts belie. */
  ghost predicate FaultyStatus(m: Manifest) {
    match m.kind
    case Blocked => m.status != StatusBlocked || m.recordedCount > 0
    case Partial => m.status != StatusPartial || m.recordedCount == 0
    case Executed => m.status != StatusCompleted || m.plannedCount != 108 || m.recordedCount != 108
  }

  ghost predicate ListsFit(m: Manifest) {
    && 1 <= |m.planned| <= FULL_SIZE && |m.recorded| <= FULL_SIZE
    && Distinct(m.planned) && Distinct(m.recorded)
    && (forall x | x in m.planned + m.recorded :: ArtifactCell(x)) && (forall x | x in m.recorded :: x in m.planned)
    && m.plannedCount == |Elements(m.planned)| && m.recordedCount == |Elements(m.recorded)|
  }

  lemma {:induction false} ListsAre(m: Manifest)
    ensures FaultyLists(m) <==> !ListsFit(m)
  {
    RepeatedIs(m.planned);
    RepeatedIs(m.recorded);
    assert forall x :: x in m.planned + m.recorded <==> x in m.planned || x in m.recorded;
    if Distinct(m.planned) && Distinct(m.recorded) {
      DistinctCardinality(m.planned);
      DistinctCardinality(m.recorded);
    }
  }

  /** Exactly which manifests are refused. */
  lemma {:induction false} ManifestsAreRefusedExactly(m: Manifest)
    ensures !ValidManifest(m) <==>
      || FaultyId(m.campaignId) || FaultyLists(m) || FaultyStatus(m)
      || |m.blockers| > 8 || Repeated(m.blockers) || Turns in m.blockers
  {
    ListsAre(m);
    RepeatedIs(m.blockers);
    if ListsFit(m) {
      DistinctCardinality(m.planned);
      DistinctCardinality(m.recorded);
    }
  }
}

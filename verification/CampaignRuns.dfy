/** The finite matrix of a live campaign, and one capped run of one of its cells. */
module CampaignRuns {
  import opened Prelude

  // --------------------------------------------------------------------- matrix

  datatype Arm = HardStopOnly | GenericRethink | SemanticReheating

  datatype Cell = Cell(stack: string, task: string, arm: Arm, replicate: nat)

  datatype Field = Turns | Tokens | ToolCalls | ElapsedSeconds | Cost

  datatype Spending = Spending(tokens: real, toolCalls: real, elapsedSeconds: real, cost: real)

  datatype Usage = Usage(turns: real, spent: Spending)

  /** Campaign caps have no turn limit. */
  datatype Caps = Caps(turns: Option<real>, spent: Spending)

  datatype Config = Config(
    id: string,
    stacks: seq<string>,
    tasks: seq<string>,
    arms: seq<Arm>,
    replicates: nat,
    perRunCaps: Caps,
    campaignCaps: Caps,
    otherBlockers: bool)

  const PER_RUN_CAPS := Caps(Some(30.0), Spending(50000.0, 40.0, 1200.0, 1.0))
  const CAMPAIGN_CAPS := Caps(None, Spending(2000000.0, 4320.0, 86400.0, 40.0))
  const ALL_ARMS: seq<Arm> := [HardStopOnly, GenericRethink, SemanticReheating]

  predicate SlugCharacter(c: char) {
    ('a' <= c <= 'z') || ('0' <= c <= '9')
  }

  /** Words of letters and digits, joined by single hyphens. */
  predicate IsSlug(id: string) {
    && id != ""
    && forall i | 0 <= i < |id| :: SlugCharacter(id[i]) || (id[i] == '-' && 0 < i < |id| - 1 && id[i - 1] != '-')
  }

  /** No hyphen is first, last, or next to another one. */
  lemma {:induction false} SlugMeaning(id: string)
    ensures IsSlug(id) <==>
      && |id| >= 1
      && (forall c | c in id :: 48 <= c as int <= 57 || 97 <= c as int <= 122 || c == '-')
      && forall i | 0 <= i < |id| && id[i] == '-' :: 0 < i < |id| - 1 && id[i - 1] != '-' && id[i + 1] != '-'
  {
    if forall c | c in id :: 48 <= c as int <= 57 || 97 <= c as int <= 122 || c == '-' {
      assert forall i | 0 <= i < |id| :: id[i] in id;
    }
    if IsSlug(id) {
      assert forall j | 0 < j < |id| && id[j] == '-' :: id[j - 1] != '-';
    }
  }

  /** The pattern as a schema applies it: its `$` also matches before a final newline. */
  predicate SlugPattern(id: string) {
    IsSlug(id) || (id != "" && id[|id| - 1] == '\n' && IsSlug(id[..|id| - 1]))
  }

  lemma {:induction false} SlugPatternMeaning(id: string)
    ensures SlugPattern(id) <==> IsSlug(id) || exists name: string :: IsSlug(name) && id == name + "\n"
  {
    if id != "" && id[|id| - 1] == '\n' {
      assert id == id[..|id| - 1] + "\n";
    }
    forall name: string | id == name + "\n"
      ensures id[..|id| - 1] == name && id[|id| - 1] == '\n'
    {
    }
  }

  /** What has to hold before anything is scheduled. The configuration schemas put no
      length on an identifier. */
  predicate Approved(c: Config) {
    && SlugPattern(c.id) && (forall id | id in c.stacks + c.tasks :: SlugPattern(id))
    && |c.stacks| == 2 && Distinct(c.stacks)
    && |c.tasks| == 6 && Distinct(c.tasks)
    && c.arms == ALL_ARMS
    && c.replicates == 3
    && c.perRunCaps == PER_RUN_CAPS && c.campaignCaps == CAMPAIGN_CAPS
    && !c.otherBlockers
  }

  /** A nested comprehension, one level. */
  function FlatMap<A, B>(xs: seq<A>, f: A -> seq<B>): seq<B> {
    if xs == [] then [] else FlatMap(xs[..|xs| - 1], f) + f(xs[|xs| - 1])
  }

  lemma {:induction false} FlatMapMembers<A, B>(xs: seq<A>, f: A -> seq<B>, key: B -> A, b: B)
    requires forall x | x in xs :: forall y | y in f(x) :: key(y) == x
    ensures b in FlatMap(xs, f) <==> key(b) in xs && b in f(key(b))
  {
    if xs != [] {
      var front, last := xs[..|xs| - 1], xs[|xs| - 1];
      FlatMapMembers(front, f, key, b);
      assert xs == front + [last];
    }
  }

  /** Different elements expand into different members, so nothing comes twice. */
  lemma {:induction false} FlatMapIsDistinct<A(!new), B(!new)>(xs: seq<A>, f: A -> seq<B>, key: B -> A)
    requires Distinct(xs)
    requires forall x | x in xs :: Distinct(f(x)) && forall y | y in f(x) :: key(y) == x
    ensures Distinct(FlatMap(xs, f))
  {
    if xs != [] {
      var front, last := xs[..|xs| - 1], xs[|xs| - 1];
      FlatMapIsDistinct(front, f, key);
      forall b | b in FlatMap(front, f)
        ensures b !in f(last)
      {
        FlatMapMembers(front, f, key, b);
        assert last !in front;
      }
      DistinctConcatenation(FlatMap(front, f), f(last));
    }
  }

  lemma {:induction false} DistinctConcatenation<T>(xs: seq<T>, ys: seq<T>)
    requires Distinct(xs) && Distinct(ys) && forall x | x in xs :: x !in ys
    ensures Distinct(xs + ys)
  {
    forall i, j | 0 <= i < j < |xs + ys|
      ensures (xs + ys)[i] != (xs + ys)[j]
    {
      if i < |xs| <= j {
        assert xs[i] in xs && ys[j - |xs|] in ys;
      }
    }
  }

  lemma {:induction false} FlatMapLength<A, B>(xs: seq<A>, f: A -> seq<B>, k: nat)
    requires forall x | x in xs :: |f(x)| == k
    ensures |FlatMap(xs, f)| == |xs| * k
  {
    if xs != [] {
      FlatMapLength(xs[..|xs| - 1], f, k);
      OneMoreTimes(|xs| - 1, k);
    }
  }

  lemma {:induction false} OneMoreTimes(n: nat, k: nat)
    ensures n * k + k == (n + 1) * k
  {
  }

  function Replicas(stack: string, task: string, arm: Arm, n: nat): seq<Cell> {
    seq(n, i requires 0 <= i < n => Cell(stack, task, arm, i + 1))
  }

  function ArmCells(c: Config, stack: string, task: string): seq<Cell> {
    FlatMap(c.arms, arm => Replicas(stack, task, arm, c.replicates))
  }

  function TaskCells(c: Config, stack: string): seq<Cell> {
    FlatMap(c.tasks, task => ArmCells(c, stack, task))
  }

  /** Stacks, tasks, arms and replicates, in this nesting. */
  function Matrix(c: Config): seq<Cell> {
    FlatMap(c.stacks, stack => TaskCells(c, stack))
  }

  predicate InScope(c: Config, x: Cell) {
    x.stack in c.stacks && x.task in c.tasks && x.arm in c.arms && 1 <= x.replicate <= c.replicates
  }

  lemma {:induction false} ArmCellsMeaning(c: Config, stack: string, task: string)
    requires Distinct(c.arms)
    ensures Distinct(ArmCells(c, stack, task)) && |ArmCells(c, stack, task)| == |c.arms| * c.replicates
    ensures forall x :: x in ArmCells(c, stack, task) <==>
      x.stack == stack && x.task == task && x.arm in c.arms && 1 <= x.replicate <= c.replicates
  {
    var f := arm => Replicas(stack, task, arm, c.replicates);
    var key := (x: Cell) => x.arm;
    FlatMapIsDistinct(c.arms, f, key);
    FlatMapLength(c.arms, f, c.replicates);
    forall x: Cell
      ensures x in ArmCells(c, stack, task) <==>
        x.stack == stack && x.task == task && x.arm in c.arms && 1 <= x.replicate <= c.replicates
    {
      FlatMapMembers(c.arms, f, key, x);
      ReplicaMembers(stack, task, x.arm, c.replicates, x);
    }
  }

  lemma {:induction false} ReplicaMembers(stack: string, task: string, arm: Arm, n: nat, x: Cell)
    ensures x in Replicas(stack, task, arm, n) <==>
      x.stack == stack && x.task == task && x.arm == arm && 1 <= x.replicate <= n
  {
    if x.stack == stack && x.task == task && x.arm == arm && 1 <= x.replicate <= n {
      assert Replicas(stack, task, arm, n)[x.replicate - 1] == x;
    }
  }

  lemma {:induction false} TaskCellsMeaning(c: Config, stack: string)
    requires Distinct(c.arms) && Distinct(c.tasks)
    ensures Distinct(TaskCells(c, stack)) && |TaskCells(c, stack)| == |c.tasks| * (|c.arms| * c.replicates)
    ensures forall x :: x in TaskCells(c, stack) <==>
      x.stack == stack && x.task in c.tasks && x.arm in c.arms && 1 <= x.replicate <= c.replicates
  {
    var f := task => ArmCells(c, stack, task);
    var key := (x: Cell) => x.task;
    forall task: string {
      ArmCellsMeaning(c, stack, task);
    }
    FlatMapIsDistinct(c.tasks, f, key);
    FlatMapLength(c.tasks, f, |c.arms| * c.replicates);
    forall x: Cell
      ensures x in TaskCells(c, stack) <==> key(x) in c.tasks && x in f(key(x))
    {
      FlatMapMembers(c.tasks, f, key, x);
    }
  }

  /** The matrix is the Cartesian product: every cell in scope, each exactly once. */
  lemma {:induction false} MatrixIsTheProduct(c: Config)
    requires Distinct(c.arms) && Distinct(c.tasks) && Distinct(c.stacks)
    ensures Distinct(Matrix(c)) && |Matrix(c)| == |c.stacks| * (|c.tasks| * (|c.arms| * c.replicates))
    ensures forall x :: x in Matrix(c) <==> InScope(c, x)
  {
    var f := stack => TaskCells(c, stack);
    var key := (x: Cell) => x.stack;
    forall stack: string {
      TaskCellsMeaning(c, stack);
    }
    FlatMapIsDistinct(c.stacks, f, key);
    FlatMapLength(c.stacks, f, |c.tasks| * (|c.arms| * c.replicates));
    forall x: Cell
      ensures x in Matrix(c) <==> key(x) in c.stacks && x in f(key(x))
    {
      FlatMapMembers(c.stacks, f, key, x);
    }
  }

  const FULL_SIZE: nat := 108

  lemma {:induction false} ApprovedMatrix(c: Config)
    requires Approved(c)
    ensures |Matrix(c)| == FULL_SIZE && Distinct(Matrix(c)) && forall x :: x in Matrix(c) <==> InScope(c, x)
  {
    MatrixIsTheProduct(c);
  }

  lemma {:induction false} FlatMapAt<A, B>(xs: seq<A>, f: A -> seq<B>, k: nat, i: nat, j: nat)
    requires i < |xs| && j < k && forall x | x in xs :: |f(x)| == k
    ensures 0 <= i * k + j < |FlatMap(xs, f)| && FlatMap(xs, f)[i * k + j] == f(xs[i])[j]
  {
    var front := xs[..|xs| - 1];
    FlatMapLength(xs, f, k);
    FlatMapLength(front, f, k);
    OneMoreTimes(|front|, k);
    if i < |front| {
      FlatMapAt(front, f, k, i, j);
    }
  }

  lemma {:induction false} ArmCellAt(c: Config, stack: string, task: string, k: nat, r: nat)
    requires c.arms == ALL_ARMS && c.replicates == 3 && k < 3 && r < 3
    ensures |ArmCells(c, stack, task)| == 9
    ensures ArmCells(c, stack, task)[3 * k + r] == Cell(stack, task, c.arms[k], r + 1)
  {
    var f := arm => Replicas(stack, task, arm, c.replicates);
    FlatMapLength(c.arms, f, 3);
    FlatMapAt(c.arms, f, 3, k, r);
  }

  lemma {:induction false} TaskCellAt(c: Config, stack: string, j: nat, k: nat, r: nat)
    requires c.arms == ALL_ARMS && c.replicates == 3 && |c.tasks| == 6 && j < 6 && k < 3 && r < 3
    ensures |TaskCells(c, stack)| == 54
    ensures TaskCells(c, stack)[9 * j + 3 * k + r] == Cell(stack, c.tasks[j], c.arms[k], r + 1)
  {
    var f := task => ArmCells(c, stack, task);
    forall task: string
      ensures |f(task)| == 9
    {
      ArmCellAt(c, stack, task, k, r);
    }
    ArmCellAt(c, stack, c.tasks[j], k, r);
    FlatMapLength(c.tasks, f, 9);
    FlatMapAt(c.tasks, f, 9, j, 3 * k + r);
  }

  /** Where a cell comes in the order: by stack, then task, then arm, then replicate. */
  lemma {:induction false} MatrixAt(c: Config, i: nat, j: nat, k: nat, r: nat)
    requires Approved(c) && i < 2 && j < 6 && k < 3 && r < 3
    ensures |Matrix(c)| == 108
    ensures Matrix(c)[54 * i + 9 * j + 3 * k + r] == Cell(c.stacks[i], c.tasks[j], c.arms[k], r + 1)
  {
    var f := stack => TaskCells(c, stack);
    forall stack: string
      ensures |f(stack)| == 54
    {
      TaskCellAt(c, stack, j, k, r);
    }
    TaskCellAt(c, c.stacks[i], j, k, r);
    FlatMapLength(c.stacks, f, 54);
    FlatMapAt(c.stacks, f, 54, i, 9 * j + 3 * k + r);
  }

  // -------------------------------------------------------------------- one run

  datatype Outcome = Accepted | NotAccepted | ProviderError | SafetyRefusal | InfrastructureFailure

  datatype Number = Number(value: real) | NotANumber

  /** Absent counters default to zero, an absent elapsed time to the clock. */
  datatype RawUsage = RawUsage(
    turns: Option<Number>,
    tokens: Option<Number>,
    toolCalls: Option<Number>,
    elapsedSeconds: Option<Number>,
    cost: Option<Number>)

  datatype Reported = Known(outcome: Outcome) | UnknownOutcome

  datatype RunnerEvent = NotAMapping | Event(outcome: Option<Reported>, usage: Option<RawUsage>, clock: Number)

  datatype Response = NotAResponse | Response(events: seq<RunnerEvent>)

  datatype RunError = RunnerResponseInvalid | RunnerEventInvalid | RunnerOutcomeInvalid | RunnerEventUsageInvalid

  const NOTHING := Spending(0.0, 0.0, 0.0, 0.0)

  function Plus(a: Spending, b: Spending): Spending {
    Spending(a.tokens + b.tokens, a.toolCalls + b.toolCalls, a.elapsedSeconds + b.elapsedSeconds, a.cost + b.cost)
  }

  function PlusUsage(a: Usage, b: Usage): Usage {
    Usage(a.turns + b.turns, Plus(a.spent, b.spent))
  }

  predicate IsAmount(n: Number) {
    n.Number? && n.value >= 0.0
  }

  function Default(n: Option<Number>, otherwise: Number): Number {
    if n.Some? then n.value else otherwise
  }

  /** What an event charges and reports. */
  function Charge(e: RunnerEvent): Result<(Usage, Outcome), RunError> {
    if e.NotAMapping? then Err(RunnerEventInvalid)
    else if e.outcome.Some? && e.outcome.value.UnknownOutcome? then Err(RunnerOutcomeInvalid)
    else if e.usage.None? then Err(RunnerEventUsageInvalid)
    else
      var zero := Number(0.0);
      var raw := e.usage.value;
      var turns, tokens, toolCalls := Default(raw.turns, zero), Default(raw.tokens, zero), Default(raw.toolCalls, zero);
      var elapsed, cost := Default(raw.elapsedSeconds, e.clock), Default(raw.cost, zero);
      if IsAmount(turns) && IsAmount(tokens) && IsAmount(toolCalls) && IsAmount(elapsed) && IsAmount(cost)
      then Ok((Usage(turns.value, Spending(tokens.value, toolCalls.value, elapsed.value, cost.value)),
               if e.outcome.Some? then e.outcome.value.outcome else NotAccepted))
      else Err(RunnerEventUsageInvalid)
  }

  /** The first cap, in the fixed order, that a total has reached. */
  function CapReached(u: Usage, caps: Caps): Option<Field> {
    if caps.turns.Some? && u.turns >= caps.turns.value then Some(Turns)
    else if u.spent.tokens >= caps.spent.tokens then Some(Tokens)
    else if u.spent.toolCalls >= caps.spent.toolCalls then Some(ToolCalls)
    else if u.spent.elapsedSeconds >= caps.spent.elapsedSeconds then Some(ElapsedSeconds)
    else if u.spent.cost >= caps.spent.cost then Some(Cost)
    else None
  }

  /** Strictly below every cap. */
  predicate Below(u: Usage, caps: Caps) {
    && (caps.turns.Some? ==> u.turns < caps.turns.value)
    && u.spent.tokens < caps.spent.tokens && u.spent.toolCalls < caps.spent.toolCalls
    && u.spent.elapsedSeconds < caps.spent.elapsedSeconds && u.spent.cost < caps.spent.cost
  }

  datatype Run = Run(usage: Usage, outcome: Outcome, cap: Option<Field>, consumed: nat)

  /** A run of the first `n` events. It ends with the event that reaches a cap. */
  function RunOf(events: seq<RunnerEvent>, caps: Caps, n: nat): Result<Run, RunError>
    requires n <= |events|
  {
    if n == 0 then Ok(Run(Usage(0.0, NOTHING), NotAccepted, None, 0))
    else
      var before := RunOf(events, caps, n - 1);
      if before.Err? || before.value.cap.Some? then before
      else
        var charge := Charge(events[n - 1]);
        if charge.Err? then Err(charge.error)
        else
          var usage := PlusUsage(before.value.usage, charge.value.0);
          Ok(Run(usage, charge.value.1, CapReached(usage, caps), n))
  }

  lemma {:induction false} RunIsFinal(events: seq<RunnerEvent>, caps: Caps, m: nat, n: nat)
    requires m <= n <= |events|
    requires RunOf(events, caps, m).Err? || RunOf(events, caps, m).value.cap.Some?
    ensures RunOf(events, caps, n) == RunOf(events, caps, m)
  {
    if m < n {
      RunIsFinal(events, caps, m, n - 1);
    }
  }

  predicate AllCharge(events: seq<RunnerEvent>, n: nat)
    requires n <= |events|
  {
    forall i | 0 <= i < n :: Charge(events[i]).Ok?
  }

  /** The sum of what the first `n` events charge. */
  function Total(events: seq<RunnerEvent>, n: nat): Usage
    requires n <= |events| && AllCharge(events, n)
  {
    if n == 0 then Usage(0.0, NOTHING) else PlusUsage(Total(events, n - 1), Charge(events[n - 1]).value.0)
  }

  /** Usage is conserved and overshoot is bounded: a run's usage is the sum over exactly
      the events it consumed, and before the last of them every total was strictly below
      every cap. It stops early only because a cap was reached. */
  lemma {:induction false} RunMeaning(events: seq<RunnerEvent>, caps: Caps, n: nat)
    requires n <= |events| && RunOf(events, caps, n).Ok?
    ensures var run := RunOf(events, caps, n).value;
      && run.consumed <= n && AllCharge(events, run.consumed)
      && run.usage == Total(events, run.consumed)
      && (forall k | 0 < k < run.consumed :: Below(Total(events, k), caps))
      && (run.cap.None? ==> run.consumed == n)
      && (run.consumed > 0 ==> (run.cap.None? <==> Below(run.usage, caps)))
      && (run.consumed > 0 ==> run.outcome == Charge(events[run.consumed - 1]).value.1)
  {
    if n > 0 {
      RunMeaning(events, caps, n - 1);
    }
  }

  datatype Status = RunAccepted | RunNotAccepted | Failed(failure: Outcome) | Interrupted

  datatype Record = Record(cell: Cell, status: Status, stopped: bool, spent: Spending)

  function StatusOf(run: Run): Status {
    if run.cap.Some? then Interrupted
    else
      match run.outcome
      case Accepted => RunAccepted
      case NotAccepted => RunNotAccepted
      case _ => Failed(run.outcome)
  }

  function RecordOf(cell: Cell, response: Response, caps: Caps): Result<Record, RunError> {
    if response.NotAResponse? then Err(RunnerResponseInvalid)
    else
      var run := RunOf(response.events, caps, |response.events|);
      if run.Err? then Err(run.error)
      else Ok(Record(cell, StatusOf(run.value), run.value.cap.Some?, run.value.usage.spent))
  }

  method RecordForRun(cell: Cell, response: Response, caps: Caps) returns (r: Result<Record, RunError>)
    ensures r == RecordOf(cell, response, caps)
  {
    if response.NotAResponse? {
      return Err(RunnerResponseInvalid);
    }
    var events := response.events;
    var run := Run(Usage(0.0, NOTHING), NotAccepted, None, 0);
    for n := 0 to |events|
      invariant RunOf(events, caps, n) == Ok(run) && run.cap.None?
    {
      var charge := Charge(events[n]);
      if charge.Err? {
        RunIsFinal(events, caps, n + 1, |events|);
        return Err(charge.error);
      }
      var usage := PlusUsage(run.usage, charge.value.0);
      run := Run(usage, charge.value.1, CapReached(usage, caps), n + 1);
      if run.cap.Some? {
        RunIsFinal(events, caps, n + 1, |events|);
        break;
      }
    }
    return Ok(Record(cell, StatusOf(run), run.cap.Some?, run.usage.spent));
  }
}

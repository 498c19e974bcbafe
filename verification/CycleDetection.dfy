/** Cycle: the observed state comes back after two to five steps, having been
    different in between, while nothing shows progress. */
module CycleDetection {
  import opened Prelude
  import opened TraceEvents
  import opened DetectorOutcomes
  import opened FirstOutcomes

  /** The positions of the state observations before `n`. */
  function Observed(s: Trace, n: nat): (os: seq<nat>)
    requires n <= |s|
    ensures forall i | 0 <= i < |os| :: os[i] < n && IsObservation(s[os[i]])
  {
    if n == 0 then []
    else if IsObservation(s[n - 1]) then Observed(s, n - 1) + [n - 1]
    else Observed(s, n - 1)
  }

  ghost predicate ValidObservations(s: Trace, os: seq<nat>) {
    forall i | 0 <= i < |os| :: os[i] < |s|
  }

  /** The latest observations close a cycle of `steps` steps that is not one stable state. */
  predicate HasCycle(s: Trace, os: seq<nat>, steps: nat)
    requires forall i | 0 <= i < |os| :: os[i] < |s|
    requires 1 <= steps < |os|
  {
    var from, to := |os| - (steps + 1), |os| - 1;
    s[os[from]].stateFingerprint == s[os[to]].stateFingerprint &&
    exists i | from < i < to :: s[os[i]].stateFingerprint != s[os[from]].stateFingerprint
  }

  /** A cycle whose window, from its first observation on, shows no progress. */
  ghost predicate StalledCycle(s: Trace, os: seq<nat>, steps: nat)
    requires ValidObservations(s, os)
  {
    && 1 <= steps < |os|
    && os[|os| - (steps + 1)] <= os[|os| - 1]
    && HasCycle(s, os, steps)
    && !ShowsProgress(s[os[|os| - (steps + 1)]..os[|os| - 1] + 1])
  }

  const MAX_STEPS := 5

  /** Whether each number of steps below `n` closes a stalled cycle. */
  ghost function StalledSteps(s: Trace, os: seq<nat>, n: nat): (stalled: seq<bool>)
    requires ValidObservations(s, os)
    ensures |stalled| == n
  {
    if n == 0 then [] else StalledSteps(s, os, n - 1) + [StalledCycle(s, os, n - 1)]
  }

  lemma {:induction false} StalledAt(s: Trace, os: seq<nat>, n: nat, steps: nat)
    requires ValidObservations(s, os) && steps < n
    ensures StalledSteps(s, os, n)[steps] == StalledCycle(s, os, steps)
  {
    if steps < n - 1 {
      StalledAt(s, os, n - 1, steps);
    }
  }

  /** The least position from `k` on that holds. */
  function LeastFrom(flags: seq<bool>, k: nat): (least: Option<nat>)
    ensures least.Some? ==> k <= least.value < |flags| && flags[least.value]
    ensures least.Some? ==> forall i | k <= i < least.value :: !flags[i]
    ensures least.None? ==> forall i | k <= i < |flags| :: !flags[i]
    decreases |flags| - k
  {
    if k >= |flags| then None else if flags[k] then Some(k) else LeastFrom(flags, k + 1)
  }

  /** The shortest stalled cycle of two to five steps. */
  ghost function ShortestCycle(s: Trace, os: seq<nat>): Option<nat>
    requires ValidObservations(s, os)
  {
    LeastFrom(StalledSteps(s, os, MAX_STEPS + 1), 2)
  }

  lemma {:induction false} ShortestCycleMeaning(s: Trace, os: seq<nat>)
    requires ValidObservations(s, os)
    ensures var k := ShortestCycle(s, os);
      && (k.Some? ==> 2 <= k.value <= MAX_STEPS && StalledCycle(s, os, k.value))
      && (k.Some? ==> forall i | 2 <= i < k.value :: !StalledCycle(s, os, i))
      && (k.None? ==> forall i | 2 <= i <= MAX_STEPS :: !StalledCycle(s, os, i))
  {
    forall i: nat | i <= MAX_STEPS
      ensures StalledSteps(s, os, MAX_STEPS + 1)[i] == StalledCycle(s, os, i)
    {
      StalledAt(s, os, MAX_STEPS + 1, i);
    }
  }

  /** What the last observation of `os` closes. */
  ghost function Closing(s: Trace, os: seq<nat>): Option<Outcome>
    requires ValidObservations(s, os)
  {
    var steps := ShortestCycle(s, os);
    if steps.None? || steps.value >= |os| then None else Some(Match(os[|os| - (steps.value + 1)..]))
  }

  ghost function CycleVerdict(s: Trace, j: nat): Option<Outcome>
    requires j < |s|
  {
    if IsObservation(s[j]) then Closing(s, Observed(s, j + 1)) else None
  }

  ghost function VerdictsBelow(s: Trace, n: nat): (verdicts: Verdicts)
    requires n <= |s|
    ensures |verdicts| == n
  {
    if n == 0 then [] else VerdictsBelow(s, n - 1) + [CycleVerdict(s, n - 1)]
  }

  ghost function CycleVerdicts(s: Trace): Verdicts {
    VerdictsBelow(s, |s|)
  }

  lemma {:induction false} CycleVerdictAt(s: Trace, n: nat, j: nat)
    requires j < n <= |s|
    ensures VerdictsBelow(s, n)[j] == CycleVerdict(s, j)
  {
    if j < n - 1 {
      CycleVerdictAt(s, n - 1, j);
    }
  }

  // ----------------------------------------------------------------- the scan

  /** One candidate of the inner loop. */
  method IsStalledCycle(window: Trace, observations: seq<nat>, steps: nat) returns (stalled: bool)
    requires Contiguous(window) && ValidObservations(window, observations)
    requires 2 <= steps < |observations| && steps <= MAX_STEPS
    requires observations[|observations| - (steps + 1)] <= observations[|observations| - 1]
    ensures stalled == StalledCycle(window, observations, steps)
  {
    var start := observations[|observations| - (steps + 1)];
    var position := observations[|observations| - 1];
    var cycles := HasCycle(window, observations, steps);
    assert StalledCycle(window, observations, steps) == (cycles && !ShowsProgress(window[start..position + 1]));
    if !cycles {
      return false;
    }
    var made := ProgressBetween(window, start, position);
    return !made;
  }

  lemma {:induction false} NotEnoughObservations(s: Trace, os: seq<nat>, k: nat)
    requires ValidObservations(s, os) && k >= |os|
    ensures LeastFrom(StalledSteps(s, os, MAX_STEPS + 1), k).None?
  {
    var least := LeastFrom(StalledSteps(s, os, MAX_STEPS + 1), k);
    if least.Some? {
      StalledAt(s, os, MAX_STEPS + 1, least.value);
    }
  }

  /** The inner loop: two to five steps back from the latest observation. */
  method CloseCycle(window: Trace, observations: seq<nat>) returns (outcome: Option<Outcome>)
    requires Contiguous(window) && ValidObservations(window, observations) && observations != []
    requires forall i | 0 <= i < |observations| :: observations[i] <= observations[|observations| - 1]
    ensures outcome == Closing(window, observations)
  {
    ghost var flags := StalledSteps(window, observations, MAX_STEPS + 1);
    var most := if |observations| - 1 < MAX_STEPS then |observations| - 1 else MAX_STEPS;
    var k := 2;
    while k <= most
      invariant 2 <= k
      invariant LeastFrom(flags, 2) == LeastFrom(flags, k)
    {
      var stalled := IsStalledCycle(window, observations, k);
      StalledAt(window, observations, MAX_STEPS + 1, k);
      if stalled {
        return Some(Match(observations[|observations| - (k + 1)..]));
      }
      k := k + 1;
    }
    if k <= MAX_STEPS {
      NotEnoughObservations(window, observations, k);
    }
    return None;
  }

  /** The loop body. */
  method Observe(window: Trace, position: nat, observations: seq<nat>)
    returns (outcome: Option<Outcome>, observations': seq<nat>)
    requires Contiguous(window) && position < |window| && observations == Observed(window, position)
    ensures observations' == Observed(window, position + 1)
    ensures outcome == CycleVerdicts(window)[position]
  {
    CycleVerdictAt(window, |window|, position);
    if !IsObservation(window[position]) {
      return None, observations;
    }
    observations' := observations + [position];
    outcome := CloseCycle(window, observations');
  }

  method DetectCycle(window: Trace) returns (outcome: Option<Outcome>)
    requires Contiguous(window)
    ensures outcome == FirstOutcome(CycleVerdicts(window))
  {
    ghost var verdicts := CycleVerdicts(window);
    var observations: seq<nat> := [];
    for position := 0 to |window|
      invariant FirstOutcome(verdicts[..position]).None?
      invariant observations == Observed(window, position)
    {
      ScanStep(verdicts, position);
      outcome, observations := Observe(window, position, observations);
      if outcome.Some? {
        return outcome;
      }
    }
    ScanEnd(verdicts);
    return None;
  }

  // -------------------------------------------------------------- what it means

  /** The number of observations after `from`, up to and with `j`. */
  function Steps(s: Trace, from: nat, j: nat): int
    requires from <= j < |s|
  {
    |Observed(s, j + 1)| - |Observed(s, from + 1)|
  }

  /** The state seen at `from` is seen again at `j`, after two to five steps in which it
      was different once, and nothing from one to the other shows progress. */
  ghost predicate Recurs(s: Trace, from: nat, j: nat) {
    && from < j < |s| && IsObservation(s[from]) && IsObservation(s[j])
    && 2 <= Steps(s, from, j) <= 5
    && s[from].stateFingerprint == s[j].stateFingerprint && Differs(s, from, j)
    && !ShowsProgress(s[from..j + 1])
  }

  ghost predicate Differs(s: Trace, from: nat, j: nat)
    requires from < j < |s|
  {
    exists k :: from < k < j && IsObservation(s[k]) && s[k].stateFingerprint != s[from].stateFingerprint
  }

  /** All observations, in ascending order. */
  lemma {:induction false} ObservedMeaning(s: Trace, n: nat)
    requires n <= |s|
    ensures forall k :: k in Observed(s, n) <==> 0 <= k < n && IsObservation(s[k])
    ensures forall i, j | 0 <= i < j < |Observed(s, n)| :: Observed(s, n)[i] < Observed(s, n)[j]
  {
    if n > 0 {
      ObservedMeaning(s, n - 1);
    }
  }

  lemma {:induction false} ObservedPrefix(s: Trace, m: nat, n: nat)
    requires m <= n <= |s|
    ensures Observed(s, m) <= Observed(s, n)
  {
    if m < n {
      ObservedPrefix(s, m, n - 1);
    }
  }

  /** An observation and its place among all of them. */
  lemma {:induction false} PlaceOf(s: Trace, from: nat, n: nat)
    requires from < n <= |s| && IsObservation(s[from])
    ensures var place := |Observed(s, from + 1)| - 1; 0 <= place < |Observed(s, n)| && Observed(s, n)[place] == from
  {
    ObservedPrefix(s, from + 1, n);
  }

  lemma {:induction false} FewerSteps(s: Trace, from: nat, later: nat, j: nat)
    requires from < later <= j < |s| && IsObservation(s[later])
    ensures Steps(s, later, j) < Steps(s, from, j)
  {
    ObservedPrefix(s, from + 1, later);
    assert Observed(s, later + 1) == Observed(s, later) + [later];
  }

  lemma {:induction false} OrderOf(s: Trace, n: nat, a: nat, b: nat)
    requires n <= |s| && a < |Observed(s, n)| && b < |Observed(s, n)|
    ensures Observed(s, n)[a] < Observed(s, n)[b] <==> a < b
  {
    ObservedMeaning(s, n);
  }

  lemma {:induction false} StepsBack(s: Trace, j: nat, steps: nat)
    requires j < |s| && IsObservation(s[j]) && 1 <= steps < |Observed(s, j + 1)|
    ensures var from := Observed(s, j + 1)[|Observed(s, j + 1)| - (steps + 1)];
      from < j && IsObservation(s[from]) && Steps(s, from, j) == steps
  {
    var os := Observed(s, j + 1);
    var from := os[|os| - (steps + 1)];
    PlaceOf(s, j, j + 1);
    PlaceOf(s, from, j + 1);
    OrderOf(s, j + 1, |os| - (steps + 1), |Observed(s, from + 1)| - 1);
    OrderOf(s, j + 1, |Observed(s, from + 1)| - 1, |os| - (steps + 1));
    OrderOf(s, j + 1, |os| - (steps + 1), |os| - 1);
  }

  /** What `HasCycle` asks of the observations between two of them. */
  ghost predicate LeavesBetween(s: Trace, os: seq<nat>, first: nat, last: nat)
    requires first < |os| && ValidObservations(s, os)
  {
    exists i :: first < i < last < |os| && s[os[i]].stateFingerprint != s[os[first]].stateFingerprint
  }

  lemma {:induction false} LeavesExactly(s: Trace, n: nat, first: nat, last: nat)
    requires n <= |s| && first < last < |Observed(s, n)|
    ensures var os := Observed(s, n);
      os[first] < os[last] && (LeavesBetween(s, os, first, last) <==> Differs(s, os[first], os[last]))
  {
    var os := Observed(s, n);
    ObservedMeaning(s, n);
    if i: nat :| first < i < last && s[os[i]].stateFingerprint != s[os[first]].stateFingerprint {
      assert os[first] < os[i] < os[last] && IsObservation(s[os[i]]);
    }
    if k: nat :| os[first] < k < os[last] && IsObservation(s[k]) &&
                 s[k].stateFingerprint != s[os[first]].stateFingerprint {
      var i :| 0 <= i < |os| && os[i] == k;
      OrderOf(s, n, first, i);
      OrderOf(s, n, i, last);
    }
  }

  lemma {:induction false} HasCycleMeaning(s: Trace, n: nat, from: nat, j: nat, steps: nat)
    requires n <= |s| && 1 <= steps < |Observed(s, n)|
    requires Observed(s, n)[|Observed(s, n)| - (steps + 1)] == from && Observed(s, n)[|Observed(s, n)| - 1] == j
    ensures from < j
    ensures HasCycle(s, Observed(s, n), steps) <==>
      s[from].stateFingerprint == s[j].stateFingerprint && Differs(s, from, j)
  {
    var os := Observed(s, n);
    var first, last := |os| - (steps + 1), |os| - 1;
    LeavesExactly(s, n, first, last);
    assert HasCycle(s, os, steps) <==>
      s[os[first]].stateFingerprint == s[os[last]].stateFingerprint && LeavesBetween(s, os, first, last);
  }

  lemma {:induction false} StalledMeaning(s: Trace, os: seq<nat>, from: nat, j: nat, steps: nat)
    requires j < |s| && os == Observed(s, j + 1) && 1 <= steps < |os|
    requires os[|os| - (steps + 1)] == from < j == os[|os| - 1]
    ensures StalledCycle(s, os, steps) <==>
      s[from].stateFingerprint == s[j].stateFingerprint && Differs(s, from, j) && !ShowsProgress(s[from..j + 1])
  {
    HasCycleMeaning(s, j + 1, from, j, steps);
  }

  lemma {:induction false} StalledIsRecurring(s: Trace, from: nat, j: nat)
    requires from < j < |s| && IsObservation(s[from]) && IsObservation(s[j])
    ensures 1 <= Steps(s, from, j) < |Observed(s, j + 1)|
    ensures 2 <= Steps(s, from, j) <= MAX_STEPS ==>
      (StalledCycle(s, Observed(s, j + 1), Steps(s, from, j)) <==> Recurs(s, from, j))
  {
    var os := Observed(s, j + 1);
    PlaceOf(s, from, j + 1);
    PlaceOf(s, j, j + 1);
    FewerSteps(s, from, j, j);
    StalledMeaning(s, os, from, j, Steps(s, from, j));
  }

  /** Event `j` closes a cycle. */
  ghost predicate ClosesCycle(s: Trace, j: nat) {
    exists from: nat :: Recurs(s, from, j)
  }

  /** What a cycle is reported as: all observations from its first one on. */
  ghost predicate IsShortest(s: Trace, from: nat, j: nat) {
    Recurs(s, from, j) && forall later: nat | from < later :: !Recurs(s, later, j)
  }

  function Support(s: Trace, from: nat, j: nat): seq<nat>
    requires from < j < |s| && IsObservation(s[from])
  {
    PlaceOf(s, from, j + 1);
    Observed(s, j + 1)[|Observed(s, from + 1)| - 1..]
  }

  lemma {:induction false} NoneShorter(s: Trace, os: seq<nat>, from: nat, j: nat, steps: nat)
    requires from < j < |s| && os == Observed(s, j + 1) && IsObservation(s[from]) && Steps(s, from, j) == steps
    requires forall i | 2 <= i < steps :: !StalledCycle(s, os, i)
    ensures forall later: nat | from < later :: !Recurs(s, later, j)
  {
    forall later: nat | from < later
      ensures !Recurs(s, later, j)
    {
      if Recurs(s, later, j) {
        FewerSteps(s, from, later, j);
        StalledIsRecurring(s, later, j);
      }
    }
  }

  /** No fewer steps close a stalled cycle. */
  ghost predicate LeastStalled(s: Trace, os: seq<nat>, steps: nat)
    requires ValidObservations(s, os)
  {
    2 <= steps <= MAX_STEPS && StalledCycle(s, os, steps) && forall i | 2 <= i < steps :: !StalledCycle(s, os, i)
  }

  lemma {:induction false} SupportFrom(s: Trace, from: nat, j: nat, steps: nat)
    requires from < j < |s| && IsObservation(s[from]) && Steps(s, from, j) == steps
    ensures 0 <= |Observed(s, j + 1)| - (steps + 1) <= |Observed(s, j + 1)|
    ensures Support(s, from, j) == Observed(s, j + 1)[|Observed(s, j + 1)| - (steps + 1)..]
  {
    PlaceOf(s, from, j + 1);
  }

  lemma {:induction false} LeastIsShortest(s: Trace, os: seq<nat>, from: nat, j: nat, steps: nat)
    requires from < j < |s| && os == Observed(s, j + 1) && IsObservation(s[from]) && IsObservation(s[j])
    requires Steps(s, from, j) == steps && LeastStalled(s, os, steps)
    ensures IsShortest(s, from, j)
  {
    StalledIsRecurring(s, from, j);
    NoneShorter(s, os, from, j, steps);
  }

  /** The least number of steps leads back to the latest observation that recurs. */
  lemma {:induction false} ShortestFrom(s: Trace, os: seq<nat>, j: nat, steps: nat) returns (from: nat)
    requires j < |s| && IsObservation(s[j]) && os == Observed(s, j + 1)
    requires LeastStalled(s, os, steps)
    ensures IsShortest(s, from, j) && Support(s, from, j) == os[|os| - (steps + 1)..]
  {
    StepsBack(s, j, steps);
    from := os[|os| - (steps + 1)];
    LeastIsShortest(s, os, from, j, steps);
    SupportFrom(s, from, j, steps);
  }

  lemma {:induction false} VerdictSteps(s: Trace, os: seq<nat>, j: nat) returns (steps: nat)
    requires j < |s| && os == Observed(s, j + 1) && CycleVerdicts(s)[j].Some?
    ensures IsObservation(s[j]) && LeastStalled(s, os, steps)
    ensures CycleVerdicts(s)[j] == Some(Match(os[|os| - (steps + 1)..]))
  {
    CycleVerdictAt(s, |s|, j);
    ShortestCycleMeaning(s, os);
    steps := ShortestCycle(s, os).value;
  }

  lemma {:induction false} VerdictRecurs(s: Trace, j: nat) returns (from: nat)
    requires j < |s| && CycleVerdicts(s)[j].Some?
    ensures IsShortest(s, from, j) && CycleVerdicts(s)[j] == Some(Match(Support(s, from, j)))
  {
    var os := Observed(s, j + 1);
    var steps := VerdictSteps(s, os, j);
    from := ShortestFrom(s, os, j, steps);
  }

  lemma {:induction false} RecurringIsReported(s: Trace, from: nat, j: nat)
    requires Recurs(s, from, j)
    ensures CycleVerdicts(s)[j].Some?
  {
    CycleVerdictAt(s, |s|, j);
    StalledIsRecurring(s, from, j);
    ShortestCycleMeaning(s, Observed(s, j + 1));
  }

  lemma {:induction false} DecidesExactly(s: Trace, j: nat)
    requires j < |s|
    ensures CycleVerdicts(s)[j].Some? <==> ClosesCycle(s, j)
  {
    if CycleVerdicts(s)[j].Some? {
      var from := VerdictRecurs(s, j);
    }
    if from: nat :| Recurs(s, from, j) {
      RecurringIsReported(s, from, j);
    }
  }

  /** A cycle is reported exactly when some observation closes one. */
  lemma {:induction false} CycleMeaning(s: Trace)
    ensures FirstOutcome(CycleVerdicts(s)).Some? <==> exists j :: 0 <= j < |s| && ClosesCycle(s, j)
  {
    var verdicts := CycleVerdicts(s);
    forall j: nat | j < |s|
      ensures verdicts[j].Some? <==> ClosesCycle(s, j)
    {
      DecidesExactly(s, j);
    }
    OutcomeIfAny(verdicts);
  }

  /** What is reported is the earliest such observation, with the shortest cycle it closes. */
  lemma {:induction false} EarliestCycle(s: Trace) returns (from: nat, j: nat)
    requires FirstOutcome(CycleVerdicts(s)).Some?
    ensures IsShortest(s, from, j) && FirstOutcome(CycleVerdicts(s)) == Some(Match(Support(s, from, j)))
    ensures forall k: nat | k < j :: !ClosesCycle(s, k)
  {
    j := OutcomeIsFirst(CycleVerdicts(s));
    DecidesExactly(s, j);
    from := VerdictRecurs(s, j);
    forall k: nat | k < j
      ensures !ClosesCycle(s, k)
    {
      DecidesExactly(s, k);
    }
  }

  // ----------------------------------------------------------------- locality

  lemma {:induction false} ObservedLocal(s: Trace, t: Trace, n: nat)
    requires n <= |s|
    ensures Observed(s + t, n) == Observed(s, n)
  {
    if n > 0 {
      ObservedLocal(s, t, n - 1);
    }
  }

  lemma {:induction false} StalledCycleLocal(s: Trace, t: Trace, os: seq<nat>, steps: nat)
    requires ValidObservations(s, os) && ValidObservations(s + t, os)
    ensures StalledCycle(s + t, os, steps) == StalledCycle(s, os, steps)
  {
    if 1 <= steps < |os| && os[|os| - (steps + 1)] <= os[|os| - 1] {
      var from, to := os[|os| - (steps + 1)], os[|os| - 1] + 1;
      assert (s + t)[from..to] == s[from..to];
      assert forall i | 0 <= i < |os| :: (s + t)[os[i]] == s[os[i]];
    }
  }

  lemma {:induction false} StalledStepsLocal(s: Trace, t: Trace, os: seq<nat>, n: nat)
    requires ValidObservations(s, os) && ValidObservations(s + t, os)
    ensures StalledSteps(s + t, os, n) == StalledSteps(s, os, n)
  {
    if n > 0 {
      StalledStepsLocal(s, t, os, n - 1);
      StalledCycleLocal(s, t, os, n - 1);
    }
  }

  lemma {:induction false} VerdictsBelowLocal(s: Trace, t: Trace, n: nat)
    requires n <= |s|
    ensures VerdictsBelow(s + t, n) == VerdictsBelow(s, n)
  {
    if n > 0 {
      VerdictsBelowLocal(s, t, n - 1);
      ObservedLocal(s, t, n);
      StalledStepsLocal(s, t, Observed(s, n), MAX_STEPS + 1);
    }
  }

  lemma {:induction false} CycleVerdictLocal(s: Trace, t: Trace, j: nat)
    requires j < |s|
    ensures CycleVerdicts(s + t)[j] == CycleVerdicts(s)[j]
  {
    CycleVerdictAt(s + t, |s + t|, j);
    CycleVerdictAt(s + t, |s|, j);
    VerdictsBelowLocal(s, t, |s|);
  }

  lemma {:induction false} SupportInWindow(s: Trace, j: nat)
    requires j < |s| && CycleVerdicts(s)[j].Some? && CycleVerdicts(s)[j].value.Match?
    ensures forall p | p in CycleVerdicts(s)[j].value.support :: p <= j
  {
    CycleVerdictAt(s, |s|, j);
    var os := Observed(s, j + 1);
    SuffixBounded(os, |os| - (ShortestCycle(s, os).value + 1), j);
  }

  lemma {:induction false} SuffixBounded(os: seq<nat>, from: nat, bound: nat)
    requires from <= |os| && forall i | 0 <= i < |os| :: os[i] <= bound
    ensures forall p | p in os[from..] :: p <= bound
  {
  }
}

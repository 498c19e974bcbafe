/** Unchanged state: a declared expectation of change meets the same state again. */
module UnchangedState {
  import opened Prelude
  import opened TraceEvents
  import opened Progress
  import opened ReasonLogs
  import opened ProgressTheorems
  import opened DetectorOutcomes
  import opened FirstOutcomes

  /** The last event with a state fingerprint before position `n`. */
  function LatestStateAt(s: Trace, n: nat): (b: Option<nat>)
    requires n <= |s|
    ensures b.Some? <==> LatestState(s, n).Some?
    ensures b.Some? ==> b.value < n && StateFingerprint(s[b.value]) == LatestState(s, n)
    ensures b.Some? ==> forall i | b.value < i < n :: StateFingerprint(s[i]).None?
  {
    if n == 0 then None
    else if StateFingerprint(s[n - 1]).Some? then Some(n - 1)
    else LatestStateAt(s, n - 1)
  }

  /** Where the current episode begins: at the last state observation before `n`, which
      may itself carry an expectation. Every observation ends the expectations before it. */
  function EpisodeStart(s: Trace, n: nat): (start: nat)
    requires n <= |s|
    ensures start <= n && (start > 0 ==> start < n && IsObservation(s[start]))
    ensures forall i | start < i < n :: !IsObservation(s[i])
  {
    if n == 0 then 0
    else if IsObservation(s[n - 1]) then n - 1
    else EpisodeStart(s, n - 1)
  }

  /** The first expectation in the episode before `n` that starts from `fingerprint`. */
  function PendingBelow(s: Trace, start: nat, n: nat, fingerprint: string): (e: Option<nat>)
    requires start <= n <= |s|
    ensures e.Some? ==> start <= e.value < n && ExpectedFrom(s, e.value) == Some(fingerprint)
    ensures e.Some? ==> forall i | start <= i < e.value :: ExpectedFrom(s, i) != Some(fingerprint)
    ensures e.None? ==> forall i | start <= i < n :: ExpectedFrom(s, i) != Some(fingerprint)
  {
    if n == start then None
    else
      var front := PendingBelow(s, start, n - 1, fingerprint);
      if front.Some? then front
      else if ExpectedFrom(s, n - 1) == Some(fingerprint) then Some(n - 1) else None
  }

  function Pending(s: Trace, n: nat, fingerprint: string): Option<nat>
    requires n <= |s|
  {
    PendingBelow(s, EpisodeStart(s, n), n, fingerprint)
  }

  /** The baseline event of an expectation. */
  function BaselineAt(s: Trace, e: nat): (b: nat)
    requires e < |s| && ExpectedFrom(s, e).Some?
    ensures b <= e && StateFingerprint(s[b]) == ExpectedFrom(s, e)
    ensures forall i | b < i <= e :: StateFingerprint(s[i]).None?
  {
    LatestStateAt(s, e + 1).value
  }

  /** Judged at observation `j`: the first pending expectation of this very state. */
  ghost function MetAt(s: Trace, j: nat, e: nat): Option<Outcome>
    requires e < j < |s| && ExpectedFrom(s, e).Some?
  {
    if ShowsProgress(s[BaselineAt(s, e)..j + 1]) then None else Some(Match([BaselineAt(s, e), e, j]))
  }

  ghost function UnchangedVerdict(s: Trace, j: nat): Option<Outcome>
    requires j < |s|
  {
    if !IsObservation(s[j]) then None
    else
      var e := Pending(s, j, StateFingerprint(s[j]).value);
      if e.Some? then MetAt(s, j, e.value) else None
  }

  ghost function UnchangedVerdicts(s: Trace): Verdicts {
    seq(|s|, j requires 0 <= j < |s| => UnchangedVerdict(s, j))
  }

  datatype Expectation = Expectation(baseline: nat, at: nat)

  /** The scan's `pending` holds exactly the first expectation per baseline of the current episode. */
  ghost predicate Tracks(s: Trace, n: nat, pending: map<string, Expectation>)
    requires n <= |s|
  {
    forall f: string ::
      (f in pending <==> Pending(s, n, f).Some?) &&
      (f in pending ==> pending[f].at == Pending(s, n, f).value && pending[f].baseline == BaselineAt(s, pending[f].at))
  }

  /** How one event moves the first expectation of a fingerprint. */
  lemma {:induction false} PendingStep(s: Trace, n: nat, f: string)
    requires n < |s|
    ensures Pending(s, n + 1, f) ==
      if !IsObservation(s[n]) && Pending(s, n, f).Some? then Pending(s, n, f)
      else if ExpectedFrom(s, n) == Some(f) then Some(n)
      else None
  {
    if IsObservation(s[n]) {
      assert PendingBelow(s, n, n, f) == None;
    }
  }

  /** The loop body on `pending`: cleared by an observation, then grown by an expectation. */
  lemma {:induction false} TracksStep(s: Trace, n: nat, pending: map<string, Expectation>,
        pending': map<string, Expectation>)
    requires n < |s|
    requires if IsObservation(s[n]) then pending == map[] else Tracks(s, n, pending)
    requires var from := ExpectedFrom(s, n);
      if from.Some? && from.value !in pending
      then pending' == pending[from.value := Expectation(BaselineAt(s, n), n)]
      else pending' == pending
    ensures Tracks(s, n + 1, pending')
  {
    forall f: string
      ensures f in pending' <==> Pending(s, n + 1, f).Some?
      ensures f in pending' ==>
        pending'[f].at == Pending(s, n + 1, f).value && pending'[f].baseline == BaselineAt(s, pending'[f].at)
    {
      PendingStep(s, n, f);
    }
  }

  /** A state observation is compared with the expectation of its own fingerprint. */
  method CloseExpectation(window: Trace, position: nat, pending: map<string, Expectation>)
    returns (outcome: Option<Outcome>)
    requires Contiguous(window) && position < |window| && IsObservation(window[position])
    requires Tracks(window, position, pending)
    ensures outcome == UnchangedVerdict(window, position)
  {
    var fingerprint := StateFingerprint(window[position]).value;
    if fingerprint !in pending {
      return None;
    }
    var Expectation(baseline, at) := pending[fingerprint];
    var made := ProgressBetween(window, if baseline < at then baseline else at, position);
    return if made then None else Some(Match([baseline, at, position]));
  }

  method DetectUnchangedState(window: Trace) returns (outcome: Option<Outcome>)
    requires Contiguous(window)
    ensures outcome == FirstOutcome(UnchangedVerdicts(window))
  {
    ghost var verdicts := UnchangedVerdicts(window);
    var latest: Option<(string, nat)> := None;
    var pending: map<string, Expectation> := map[];
    for position := 0 to |window|
      invariant FirstOutcome(verdicts[..position]).None?
      invariant latest.Some? <==> LatestStateAt(window, position).Some?
      invariant latest.Some? ==>
        latest.value == (LatestState(window, position).value, LatestStateAt(window, position).value)
      invariant Tracks(window, position, pending)
    {
      ScanStep(verdicts, position);
      var event := window[position];
      var fingerprint := StateFingerprint(event);
      if event.kind.StateObservation? && fingerprint.Some? {
        outcome := CloseExpectation(window, position, pending);
        if outcome.Some? {
          return outcome;
        }
        pending := map[];
      }
      if fingerprint.Some? {
        latest := Some((fingerprint.value, position));
      }
      ghost var before := pending;
      if ExpectsChange(event) && latest.Some? && latest.value.0 !in pending {
        pending := pending[latest.value.0 := Expectation(latest.value.1, position)];
      }
      TracksStep(window, position, before, pending);
    }
    ScanEnd(verdicts);
    return None;
  }

  // -------------------------------------------------------------- what it means

  /** A match closes an expectation that no other observation came between, and inside
      the support window EVERY expectation started from the state now observed. */
  lemma {:induction false} UnchangedMeansUnchanged(s: Trace, j: nat, k: nat)
    requires j < |s| && UnchangedVerdict(s, j).Some?
    ensures var support := UnchangedVerdict(s, j).value.support;
      && |support| == 3 && support[0] <= support[1] < support[2] == j
      && ExpectedFrom(s, support[1]) == StateFingerprint(s[j]) == StateFingerprint(s[support[0]])
      && (forall i | support[1] < i < j :: !IsObservation(s[i]))
      && !ShowsProgress(s[support[0]..j + 1])
      && (support[0] <= k < j && ExpectedFrom(s, k).Some? ==> ExpectedFrom(s, k) == StateFingerprint(s[j]))
  {
    var support := UnchangedVerdict(s, j).value.support;
    var b := support[0];
    var w := s[b..j + 1];
    if b <= k < j && ExpectedFrom(s, k).Some? && ExpectedFrom(s, k) != StateFingerprint(s[j]) {
      ExpectationInWindow(s, b, k, j);
      assert w[j - b] == s[j];
      assert StateChanges(w, j - b);
      assert Witness(ExpectedStateChangeObserved, w, j - b);
      ShowsProgressMeaning(w);
    }
  }

  /** Inside a window that starts at a fingerprinted event, baselines are the same. */
  lemma {:induction false} ExpectationInWindow(s: Trace, b: nat, k: nat, j: nat)
    requires b <= k < j < |s| && StateFingerprint(s[b]).Some?
    ensures ExpectedFrom(s[b..j + 1], k - b) == ExpectedFrom(s, k)
  {
    LatestInWindow(s, b, k + 1, j);
  }

  lemma {:induction false} LatestInWindow(s: Trace, b: nat, n: nat, j: nat)
    requires b < n <= j < |s| && StateFingerprint(s[b]).Some?
    ensures LatestState(s[b..j + 1], n - b) == LatestState(s, n)
  {
    assert s[b..j + 1][n - 1 - b] == s[n - 1];
    if n - 1 > b {
      LatestInWindow(s, b, n - 1, j);
    }
  }

  /** Observation `j` is the next one after expectation `e`, and sees the very state the
      change was expected from. */
  ghost predicate Returns(s: Trace, e: nat, j: nat) {
    && e < j < |s| && IsObservation(s[j])
    && ExpectedFrom(s, e) == StateFingerprint(s[j])
    && forall k | e < k < j :: !IsObservation(s[k])
  }

  /** And nothing shows progress from the baseline of the expectation on. */
  ghost predicate Stalls(s: Trace, e: nat, j: nat) {
    Returns(s, e, j) && !ShowsProgress(s[BaselineAt(s, e)..j + 1])
  }

  /** No earlier expectation meets the same observation. */
  ghost predicate ReturnsFirst(s: Trace, e: nat, j: nat) {
    Returns(s, e, j) && forall d: nat | d < e :: !Returns(s, d, j)
  }

  lemma {:induction false} ReturnsInEpisode(s: Trace, e: nat, j: nat)
    requires Returns(s, e, j)
    ensures EpisodeStart(s, j) <= e
  {
  }

  /** What is pending at an observation of its own state is the first such expectation. */
  lemma {:induction false} PendingIsFirst(s: Trace, e: nat, j: nat)
    requires j < |s| && IsObservation(s[j])
    ensures Pending(s, j, StateFingerprint(s[j]).value) == Some(e) <==> ReturnsFirst(s, e, j)
  {
    var f, start := StateFingerprint(s[j]).value, EpisodeStart(s, j);
    if ReturnsFirst(s, e, j) {
      ReturnsInEpisode(s, e, j);
      var first := PendingBelow(s, start, j, f).value;
      assert Returns(s, first, j);
    }
    if PendingBelow(s, start, j, f) == Some(e) {
      assert Returns(s, e, j);
      forall d: nat | d < e
        ensures !Returns(s, d, j)
      {
        if Returns(s, d, j) {
          ReturnsInEpisode(s, d, j);
        }
      }
    }
  }

  /** Exactly which stalled expectations are reported: those that come first. A later
      expectation from the same state is dropped, even where only the first one's
      baseline is followed by progress. */
  lemma {:induction false} UnchangedExactly(s: Trace, e: nat, j: nat)
    requires Stalls(s, e, j)
    ensures UnchangedVerdicts(s)[j] == Some(Match([BaselineAt(s, e), e, j])) <==>
      forall d: nat | d < e :: !Returns(s, d, j)
  {
    PendingIsFirst(s, e, j);
    var first := Pending(s, j, StateFingerprint(s[j]).value);
    if UnchangedVerdict(s, j) == Some(Match([BaselineAt(s, e), e, j])) {
      assert [BaselineAt(s, first.value), first.value, j][1] == [BaselineAt(s, e), e, j][1];
    }
  }

  ghost predicate EndsStall(s: Trace, j: nat) {
    exists e: nat :: Stalls(s, e, j) && ReturnsFirst(s, e, j)
  }

  lemma {:induction false} DecidesExactly(s: Trace, j: nat)
    requires j < |s|
    ensures UnchangedVerdicts(s)[j].Some? <==> EndsStall(s, j)
  {
    if UnchangedVerdict(s, j).Some? {
      var e := Pending(s, j, StateFingerprint(s[j]).value).value;
      PendingIsFirst(s, e, j);
      assert Stalls(s, e, j);
    }
    if e: nat :| Stalls(s, e, j) && ReturnsFirst(s, e, j) {
      UnchangedExactly(s, e, j);
    }
  }

  /** An unchanged state is reported exactly when some observation meets the first
      expectation from its own state without progress. */
  lemma {:induction false} UnchangedMeaning(s: Trace)
    ensures FirstOutcome(UnchangedVerdicts(s)).Some? <==> exists j :: 0 <= j < |s| && EndsStall(s, j)
  {
    var verdicts := UnchangedVerdicts(s);
    forall j: nat | j < |s|
      ensures verdicts[j].Some? <==> EndsStall(s, j)
    {
      DecidesExactly(s, j);
    }
    OutcomeIfAny(verdicts);
  }

  /** What is reported is the earliest such observation, with the expectation and its
      baseline. */
  lemma {:induction false} EarliestUnchanged(s: Trace) returns (e: nat, j: nat)
    requires FirstOutcome(UnchangedVerdicts(s)).Some?
    ensures Stalls(s, e, j) && ReturnsFirst(s, e, j)
    ensures FirstOutcome(UnchangedVerdicts(s)) == Some(Match([BaselineAt(s, e), e, j]))
    ensures forall k: nat | k < j :: !EndsStall(s, k)
  {
    j := OutcomeIsFirst(UnchangedVerdicts(s));
    DecidesExactly(s, j);
    e :| Stalls(s, e, j) && ReturnsFirst(s, e, j);
    UnchangedExactly(s, e, j);
    forall k: nat | k < j
      ensures !EndsStall(s, k)
    {
      DecidesExactly(s, k);
    }
  }

  // ----------------------------------------------- an expectation that is dropped

  function Plain(id: string, sequence: nat, kind: TraceKind): TraceEvent {
    TraceEvent("run", id, sequence, kind, ReadOnly, None, None, None, None, None, None, None, None, None)
  }

  function ExpectingMessage(id: string, sequence: nat): TraceEvent {
    Plain(id, sequence, Message).(stateFingerprint := Some("s"), expectedStateChange := Some(true))
  }

  /** A change of state s is expected, evidence is cited, a change of s is expected again,
      and s is observed. */
  function TwoExpectations(): Trace {
    [ExpectingMessage("a", 1), Plain("b", 2, Message).(evidenceRefs := Some(["x"])), ExpectingMessage("c", 3),
     Plain("d", 4, StateObservation).(stateFingerprint := Some("s"))]
  }

  /** Two expectations of one state, evidence between them, and that state again. */
  ghost predicate ExpectedTwice(s: Trace, state: string, x: string) {
    && |s| == 4 && (forall i | 0 <= i < 4 :: s[i].payload.None?)
    && s[0].kind.Message? && s[1].kind.Message? && s[2].kind.Message? && s[3].kind.StateObservation?
    && StateFingerprint(s[0]) == StateFingerprint(s[2]) == StateFingerprint(s[3]) == Some(state)
    && StateFingerprint(s[1]).None?
    && ExpectsChange(s[0]) && !ExpectsChange(s[1]) && ExpectsChange(s[2]) && !ExpectsChange(s[3])
    && EvidenceOf(s[1]) == [x] && EvidenceOf(s[0]) == EvidenceOf(s[2]) == EvidenceOf(s[3]) == []
  }

  /** Two events of one state that cite nothing. */
  lemma {:induction false} SameStateShowsNothing(w: Trace, state: string, r: Reason, j: nat)
    requires |w| == 2 && w[0].kind.Message? && w[1].kind.StateObservation? && j < 2
    requires StateFingerprint(w[0]) == StateFingerprint(w[1]) == Some(state)
    requires forall i | 0 <= i < 2 :: w[i].payload.None? && EvidenceOf(w[i]) == []
    ensures !Witness(r, w, j)
  {
    if ExpectsChange(w[0]) {
      OwnState(w, 0);
    }
  }

  lemma {:induction false} NoNews(s: Trace, state: string, x: string)
    requires ExpectedTwice(s, state, x)
    ensures !ShowsProgress(s[2..4])
  {
    var w := s[2..4];
    ShowsProgressMeaning(w);
    assert w[0] == s[2] && w[1] == s[3];
    forall r, j | 0 <= j < |w|
      ensures !Witness(r, w, j)
    {
      SameStateShowsNothing(w, state, r, j);
    }
  }

  lemma {:induction false} BothReturn(s: Trace, state: string, x: string)
    requires ExpectedTwice(s, state, x)
    ensures Returns(s, 0, 3) && BaselineAt(s, 0) == 0
    ensures Returns(s, 2, 3) && BaselineAt(s, 2) == 2
  {
    OwnState(s, 0);
    OwnState(s, 2);
  }

  lemma {:induction false} OwnState(s: Trace, e: nat)
    requires e < |s| && ExpectsChange(s[e]) && StateFingerprint(s[e]).Some?
    ensures ExpectedFrom(s, e) == StateFingerprint(s[e]) && BaselineAt(s, e) == e
  {
  }

  /** Progress between the two hides the first; the second is not looked at. */
  lemma {:induction false} FirstHidesSecond(s: Trace, d: nat, j: nat)
    requires ReturnsFirst(s, d, j) && ShowsProgress(s[BaselineAt(s, d)..j + 1])
    ensures UnchangedVerdicts(s)[j].None?
  {
    PendingIsFirst(s, d, j);
  }

  lemma {:induction false} SecondIsDropped(s: Trace, state: string, x: string)
    requires ExpectedTwice(s, state, x)
    ensures Stalls(s, 2, 3) && FirstOutcome(UnchangedVerdicts(s)).None?
  {
    BothReturn(s, state, x);
    NoNews(s, state, x);
    assert s[0..4] == s;
    EvidenceShows(s, x);
    FirstHidesSecond(s, 0, 3);
    forall j: nat | j < 3
      ensures UnchangedVerdicts(s)[j].None?
    {
    }
    NoOutcome(UnchangedVerdicts(s));
  }

  /** From the second expectation on nothing shows progress, and nothing is reported. */
  lemma {:induction false} StalledExpectationCanBeDropped()
    ensures Admissible(TwoExpectations()) && Stalls(TwoExpectations(), 2, 3)
    ensures FirstOutcome(UnchangedVerdicts(TwoExpectations())).None?
  {
    SecondIsDropped(TwoExpectations(), "s", "x");
  }

  // ----------------------------------------------------------------- locality

  lemma {:induction false} StateLocal(s: Trace, t: Trace, n: nat)
    requires n <= |s|
    ensures LatestStateAt(s + t, n) == LatestStateAt(s, n)
    ensures EpisodeStart(s + t, n) == EpisodeStart(s, n)
  {
    if n > 0 {
      StateLocal(s, t, n - 1);
    }
  }

  lemma {:induction false} PendingLocal(s: Trace, t: Trace, start: nat, n: nat, f: string)
    requires start <= n <= |s|
    ensures PendingBelow(s + t, start, n, f) == PendingBelow(s, start, n, f)
  {
    if n > start {
      LatestStateLocal(s, t, n);
      PendingLocal(s, t, start, n - 1, f);
    }
  }

  lemma {:induction false} BaselineLocal(s: Trace, t: Trace, e: nat)
    requires e < |s| && ExpectedFrom(s, e).Some?
    ensures ExpectedFrom(s + t, e) == ExpectedFrom(s, e) && BaselineAt(s + t, e) == BaselineAt(s, e)
  {
    StateLocal(s, t, e + 1);
    LatestStateLocal(s, t, e + 1);
  }

  lemma {:induction false} MetLocal(s: Trace, t: Trace, j: nat, e: nat)
    requires e < j < |s| && ExpectedFrom(s, e).Some? && ExpectedFrom(s + t, e).Some?
    ensures MetAt(s + t, j, e) == MetAt(s, j, e)
  {
    BaselineLocal(s, t, e);
    var b := BaselineAt(s, e);
    assert (s + t)[b..j + 1] == s[b..j + 1];
  }

  lemma {:induction false} UnchangedVerdictLocal(s: Trace, t: Trace, j: nat)
    requires j < |s|
    ensures UnchangedVerdict(s + t, j) == UnchangedVerdict(s, j)
  {
    if IsObservation(s[j]) {
      var f := StateFingerprint(s[j]).value;
      StateLocal(s, t, j);
      PendingLocal(s, t, EpisodeStart(s, j), j, f);
      var e := Pending(s, j, f);
      if e.Some? {
        BaselineLocal(s, t, e.value);
        MetLocal(s, t, j, e.value);
      }
    }
  }

  lemma {:induction false} SupportInWindow(s: Trace, j: nat)
    requires j < |s| && UnchangedVerdicts(s)[j].Some? && UnchangedVerdicts(s)[j].value.Match?
    ensures forall p | p in UnchangedVerdicts(s)[j].value.support :: p <= j
  {
  }
}

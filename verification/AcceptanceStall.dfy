/** Acceptance stall: the same check reports the same delta again, and nothing in
    between shows progress. */
module AcceptanceStall {
  import opened Prelude
  import opened TraceEvents
  import opened Progress
  import opened DetectorOutcomes
  import opened FirstOutcomes

  /** What one event contributes: a comparable check, or nothing, or a broken identity. */
  datatype Check = NoCheck | Unidentifiable | Check(identity: Identity, delta: string)

  ghost function CheckOf(e: TraceEvent): Check {
    if !e.kind.AcceptanceCheck? then NoCheck
    else
      var identity := IdentityOf(e);
      if identity.Err? then Unidentifiable
      else if identity.value.None? || e.acceptanceDelta.None? then NoCheck
      else Check(identity.value.value, e.acceptanceDelta.value)
  }

  ghost function Checks(s: Trace, n: nat): (cs: seq<Check>)
    requires n <= |s|
    ensures |cs| == n
  {
    if n == 0 then [] else Checks(s, n - 1) + [CheckOf(s[n - 1])]
  }

  lemma {:induction false} CheckAt(s: Trace, n: nat, j: nat)
    requires j < n <= |s|
    ensures Checks(s, n)[j] == CheckOf(s[j])
  {
    if j < n - 1 {
      CheckAt(s, n - 1, j);
    }
  }

  ghost predicate IsCheckOf(c: Check, identity: Identity) {
    c.Check? && c.identity == identity
  }

  /** The latest check with this identity before position `n`. */
  ghost function PriorCheck(cs: seq<Check>, n: nat, identity: Identity): (i: Option<nat>)
    requires n <= |cs|
    ensures i.Some? ==> i.value < n && IsCheckOf(cs[i.value], identity)
    ensures i.Some? ==> forall k | i.value < k < n :: !IsCheckOf(cs[k], identity)
    ensures i.None? ==> forall k | 0 <= k < n :: !IsCheckOf(cs[k], identity)
  {
    if n == 0 then None
    else if IsCheckOf(cs[n - 1], identity) then Some(n - 1)
    else PriorCheck(cs, n - 1, identity)
  }

  /** Event `j` repeats the delta of the latest same check, if that lies in the episode. */
  ghost function RepeatedCheck(cs: seq<Check>, j: nat, start: nat): (i: Option<nat>)
    requires j < |cs| && start <= j
    ensures i.Some? ==> start <= i.value < j && cs[j].Check? && cs[i.value] == cs[j]
  {
    if !cs[j].Check? then None
    else
      var i := PriorCheck(cs, j, cs[j].identity);
      if i.Some? && i.value >= start && cs[i.value].delta == cs[j].delta then i else None
  }

  /** Documented progress between two equal checks ends the episode for all checks:
      the next episode starts at the later one. */
  ghost function EpisodeStart(s: Trace, cs: seq<Check>, n: nat): (start: nat)
    requires n <= |cs| == |s|
    ensures start <= n
  {
    if n == 0 then 0
    else
      var start := EpisodeStart(s, cs, n - 1);
      NextStart(s, RepeatedCheck(cs, n - 1, start), start, n - 1)
  }

  /** Where the episode of position `j + 1` starts, given what `j` repeats. */
  ghost function NextStart(s: Trace, repeated: Option<nat>, start: nat, j: nat): nat
    requires j < |s| && (repeated.Some? ==> repeated.value <= j)
  {
    StartAfter(Between(s, repeated, j), start, j)
  }

  /** The events from a repeated check to its repetition. */
  function Between(s: Trace, repeated: Option<nat>, j: nat): Trace
    requires j < |s| && (repeated.Some? ==> repeated.value <= j)
  {
    if repeated.Some? then s[repeated.value..j + 1] else []
  }

  /** No progress is made in no events at all. */
  ghost function StartAfter(between: Trace, start: nat, j: nat): nat {
    if between != [] && ShowsProgress(between) then j else start
  }

  ghost function StallVerdict(s: Trace, cs: seq<Check>, j: nat): Option<Outcome>
    requires j < |cs| == |s|
  {
    if cs[j].Unidentifiable? then Some(Fail)
    else
      var i := RepeatedCheck(cs, j, EpisodeStart(s, cs, j));
      if i.Some? && !ShowsProgress(s[i.value..j + 1]) then Some(Match([i.value, j])) else None
  }

  ghost function StallVerdictsOf(s: Trace, cs: seq<Check>): Verdicts
    requires |cs| == |s|
  {
    seq(|s|, j requires 0 <= j < |s| => StallVerdict(s, cs, j))
  }

  ghost function StallVerdicts(s: Trace): Verdicts {
    StallVerdictsOf(s, Checks(s, |s|))
  }

  // ----------------------------------------------------------------- the scan

  datatype Baseline = Baseline(delta: string, position: nat)

  /** The scan's baselines are the latest checks of the episode, one per identity. */
  ghost predicate Tracks(cs: seq<Check>, n: nat, start: nat, baselines: map<Identity, Baseline>)
    requires n <= |cs|
  {
    forall identity ::
      var i := PriorCheck(cs, n, identity);
      (identity in baselines <==> i.Some? && i.value >= start) &&
      (identity in baselines ==> baselines[identity] == Baseline(cs[i.value].delta, i.value))
  }

  lemma {:induction false} TracksIdle(cs: seq<Check>, n: nat, start: nat, baselines: map<Identity, Baseline>)
    requires n < |cs| && !cs[n].Check? && Tracks(cs, n, start, baselines)
    ensures Tracks(cs, n + 1, start, baselines)
  {
  }

  /** A check that is new, or has a new delta, becomes its own baseline. */
  lemma {:induction false} TracksRebased(cs: seq<Check>, n: nat, start: nat, baselines: map<Identity, Baseline>)
    requires n < |cs| && start <= n && cs[n].Check? && Tracks(cs, n, start, baselines)
    ensures Tracks(cs, n + 1, start, baselines[cs[n].identity := Baseline(cs[n].delta, n)])
  {
  }

  /** Progress clears everything but the check that found it. */
  lemma {:induction false} TracksCleared(cs: seq<Check>, n: nat)
    requires n < |cs| && cs[n].Check?
    ensures Tracks(cs, n + 1, n, map[cs[n].identity := Baseline(cs[n].delta, n)])
  {
  }

  method AcceptanceKey(e: TraceEvent) returns (check: Check)
    ensures check == CheckOf(e)
  {
    if !e.kind.AcceptanceCheck? {
      return NoCheck;
    }
    var identity := ComputeIdentity(e);
    if identity.Err? {
      return Unidentifiable;
    }
    return if identity.value.None? || e.acceptanceDelta.None? then NoCheck
           else Check(identity.value.value, e.acceptanceDelta.value);
  }

  /** The loop body, once the check has been read. */
  method CompareCheck(window: Trace, ghost cs: seq<Check>, position: nat, check: Check,
        baselines: map<Identity, Baseline>)
    returns (outcome: Option<Outcome>, baselines': map<Identity, Baseline>)
    requires Contiguous(window) && position < |window| == |cs| && cs[position] == check
    requires Tracks(cs, position, EpisodeStart(window, cs, position), baselines)
    ensures outcome == StallVerdict(window, cs, position)
    ensures outcome.None? ==> Tracks(cs, position + 1, EpisodeStart(window, cs, position + 1), baselines')
  {
    ghost var start := EpisodeStart(window, cs, position);
    match check
    case NoCheck =>
      TracksIdle(cs, position, start, baselines);
      return None, baselines;
    case Unidentifiable =>
      return Some(Fail), baselines;
    case Check(identity, delta) =>
      if identity !in baselines || delta != baselines[identity].delta {
        TracksRebased(cs, position, start, baselines);
        return None, baselines[identity := Baseline(delta, position)];
      }
      var made := ProgressBetween(window, baselines[identity].position, position);
      if !made {
        return Some(Match([baselines[identity].position, position])), baselines;
      }
      TracksCleared(cs, position);
      return None, map[identity := Baseline(delta, position)];
  }

  method DetectAcceptanceStall(window: Trace) returns (outcome: Option<Outcome>)
    requires Contiguous(window)
    ensures outcome == FirstOutcome(StallVerdicts(window))
  {
    ghost var cs := Checks(window, |window|);
    ghost var verdicts := StallVerdictsOf(window, cs);
    var baselines: map<Identity, Baseline> := map[];
    for position := 0 to |window|
      invariant FirstOutcome(verdicts[..position]).None?
      invariant Tracks(cs, position, EpisodeStart(window, cs, position), baselines)
    {
      ScanStep(verdicts, position);
      var check := AcceptanceKey(window[position]);
      CheckAt(window, |window|, position);
      outcome, baselines := CompareCheck(window, cs, position, check, baselines);
      if outcome.Some? {
        return outcome;
      }
    }
    ScanEnd(verdicts);
    return None;
  }

  // -------------------------------------------------------------- what it means

  /** A match is two equal checks with no equal-identity check between them and no
      progress from one to the other. */
  lemma {:induction false} StallMeansStalled(s: Trace, j: nat)
    requires j < |s| && StallVerdicts(s)[j].Some? && StallVerdicts(s)[j].value.Match?
    ensures var support := StallVerdicts(s)[j].value.support;
      && |support| == 2 && support[0] < support[1] == j
      && CheckOf(s[j]).Check? && CheckOf(s[support[0]]) == CheckOf(s[j])
      && (forall k | support[0] < k < j :: !IsCheckOf(CheckOf(s[k]), CheckOf(s[j]).identity))
      && !ShowsProgress(s[support[0]..j + 1])
  {
    var cs := Checks(s, |s|);
    forall k | 0 <= k < |s|
      ensures cs[k] == CheckOf(s[k])
    {
      CheckAt(s, |s|, k);
    }
  }

  /** Event `e` repeats the latest check of its identity, delta included. */
  ghost predicate Repeats(s: Trace, i: nat, e: nat) {
    && i < e < |s| && CheckOf(s[e]).Check? && CheckOf(s[i]) == CheckOf(s[e])
    && forall k | i < k < e :: !IsCheckOf(CheckOf(s[k]), CheckOf(s[e]).identity)
  }

  /** Event `e` ends an episode: it repeats a check with progress in between, and no
      episode ends between the two. */
  ghost predicate EndsEpisode(s: Trace, e: nat)
    decreases e, 1
  {
    exists i: nat :: EndsEpisodeFrom(s, i, e)
  }

  ghost predicate EndsEpisodeFrom(s: Trace, i: nat, e: nat)
    decreases e, 0
  {
    Repeats(s, i, e) && ShowsProgress(s[i..e + 1]) && forall k: nat | i < k < e :: !EndsEpisode(s, k)
  }

  lemma {:induction false} RepeatsIsRepeated(s: Trace, i: nat, e: nat, start: nat)
    requires e < |s| && start <= e
    ensures RepeatedCheck(Checks(s, |s|), e, start) == Some(i) <==> Repeats(s, i, e) && start <= i
  {
    var cs := Checks(s, |s|);
    forall k | 0 <= k < |s|
      ensures cs[k] == CheckOf(s[k])
    {
      CheckAt(s, |s|, k);
    }
    if Repeats(s, i, e) {
      assert PriorCheck(cs, e, cs[e].identity) == Some(i);
    }
  }

  /** Position `start` is the last before `n` that ended an episode, or 0 if none did. */
  ghost predicate LastEnd(s: Trace, n: nat, start: nat) {
    && (start == 0 || (start < n && EndsEpisode(s, start)))
    && forall k: nat | start < k < n :: !EndsEpisode(s, k)
  }

  /** The scan's episode starts at the last event that ended one, if any did. */
  lemma {:induction false} EpisodeStartMeaning(s: Trace, n: nat)
    requires n <= |s|
    ensures LastEnd(s, n, EpisodeStart(s, Checks(s, |s|), n))
  {
    if n > 0 {
      var cs, e := Checks(s, |s|), n - 1;
      var start := EpisodeStart(s, cs, e);
      EpisodeStartMeaning(s, e);
      EpisodeStep(s, e, start);
      assert EpisodeStart(s, cs, n) == NextStart(s, RepeatedCheck(cs, e, start), start, e);
    }
  }

  lemma {:induction false} EpisodeStep(s: Trace, e: nat, start: nat)
    requires e < |s| && start <= e && LastEnd(s, e, start)
    ensures LastEnd(s, e + 1, NextStart(s, RepeatedCheck(Checks(s, |s|), e, start), start, e))
  {
    var repeated := RepeatedCheck(Checks(s, |s|), e, start);
    if repeated.Some? {
      RepeatsIsRepeated(s, repeated.value, e, start);
    }
    if NextStart(s, repeated, start, e) == e != start {
      assert EndsEpisodeFrom(s, repeated.value, e);
    } else if i: nat :| e > start && EndsEpisodeFrom(s, i, e) {
      RepeatsIsRepeated(s, i, e, start);
    }
  }

  /** Exactly which stalled pairs are reported: those within which no episode ends. */
  lemma {:induction false} StallExactly(s: Trace, i: nat, j: nat)
    requires Repeats(s, i, j) && !ShowsProgress(s[i..j + 1])
    ensures StallVerdicts(s)[j] == Some(Match([i, j])) <==> forall e: nat | i < e < j :: !EndsEpisode(s, e)
  {
    var start := EpisodeStart(s, Checks(s, |s|), j);
    EpisodeStartMeaning(s, j);
    RepeatsIsRepeated(s, i, j, start);
    CheckAt(s, |s|, j);
    if start > i {
      assert EndsEpisode(s, start);
      if RepeatedCheck(Checks(s, |s|), j, start).Some? {
        RepeatsIsRepeated(s, RepeatedCheck(Checks(s, |s|), j, start).value, j, start);
      }
    }
  }

  // ------------------------------------------------------ a pair that is dropped

  function BareCheck(id: string, sequence: nat, digest: string): TraceEvent {
    TraceEvent("run", id, sequence, AcceptanceCheck, ReadOnly, None, Some(digest),
               None, None, None, Some("delta"), None, None, None)
  }

  function Citation(id: string, sequence: nat): TraceEvent {
    TraceEvent("run", id, sequence, Message, ReadOnly, None, None, None, None, None, None, Some(["x"]), None, None)
  }

  /** Check B, evidence, check A, check B again, check A again. */
  function InterleavedChecks(): Trace {
    [BareCheck("a", 1, "B"), Citation("b", 2), BareCheck("c", 3, "A"), BareCheck("d", 4, "B"), BareCheck("e", 5, "A")]
  }

  lemma {:induction false} BareChecksShowNothing(w: Trace)
    requires forall i | 0 <= i < |w| ::
      w[i].kind.AcceptanceCheck? && w[i].payload.None? && w[i].evidenceRefs.None? && w[i].expectedStateChange.None?
    ensures !ShowsProgress(w)
  {
    ShowsProgressMeaning(w);
    forall r, j | 0 <= j < |w|
      ensures !Witness(r, w, j)
    {
    }
  }

  lemma {:induction false} BareCheckReads(id: string, sequence: nat, digest: string)
    requires digest != ""
    ensures CheckOf(BareCheck(id, sequence, digest)) == Check(DeclaredDigest(digest), "delta")
  {
  }

  /** Checks B, A, B, A with something else in second place. */
  ghost predicate Interleaved(s: Trace, b: Check, a: Check) {
    && |s| == 5 && b.Check? && a.Check? && a.identity != b.identity
    && CheckOf(s[0]) == CheckOf(s[3]) == b && CheckOf(s[2]) == CheckOf(s[4]) == a && CheckOf(s[1]).NoCheck?
  }

  lemma {:induction false} OnlyRepeats(s: Trace, b: Check, a: Check, i: nat, j: nat)
    requires Interleaved(s, b, a) && Repeats(s, i, j)
    ensures (i == 0 && j == 3) || (i == 2 && j == 4)
  {
  }

  lemma {:induction false} InterleavedRepeats(s: Trace, b: Check, a: Check)
    requires Interleaved(s, b, a)
    ensures Repeats(s, 0, 3) && Repeats(s, 2, 4)
    ensures forall i: nat, j: nat | Repeats(s, i, j) :: (i == 0 && j == 3) || (i == 2 && j == 4)
  {
    forall i: nat, j: nat | Repeats(s, i, j)
      ensures (i == 0 && j == 3) || (i == 2 && j == 4)
    {
      OnlyRepeats(s, b, a, i, j);
    }
  }

  lemma {:induction false} VerdictRepeats(s: Trace, j: nat) returns (i: nat)
    requires j < |s| && !CheckOf(s[j]).Unidentifiable? && StallVerdicts(s)[j].Some?
    ensures Repeats(s, i, j) && !ShowsProgress(s[i..j + 1]) && StallVerdicts(s)[j] == Some(Match([i, j]))
  {
    CheckAt(s, |s|, j);
    StallMeansStalled(s, j);
    i := StallVerdicts(s)[j].value.support[0];
  }

  /** A repetition that is not reported: it shows progress, or it is cut off. */
  ghost predicate Unreported(s: Trace, i: nat, j: nat)
    requires i < j < |s|
  {
    ShowsProgress(s[i..j + 1]) || StallVerdicts(s)[j] != Some(Match([i, j]))
  }

  lemma {:induction false} NothingReported(s: Trace)
    requires forall j | 0 <= j < |s| :: !CheckOf(s[j]).Unidentifiable?
    requires forall i: nat, j: nat | Repeats(s, i, j) :: Unreported(s, i, j)
    ensures FirstOutcome(StallVerdicts(s)).None?
  {
    forall j: nat | j < |s|
      ensures StallVerdicts(s)[j].None?
    {
      if StallVerdicts(s)[j].Some? {
        var i := VerdictRepeats(s, j);
      }
    }
    NoOutcome(StallVerdicts(s));
  }

  /** A repetition with progress ends its episode if nothing in between repeats at all,
      and then it cuts off the stalled pairs around it. */
  lemma {:induction false} CutOff(s: Trace, h: nat, e: nat, i: nat, j: nat)
    requires Repeats(s, h, e) && ShowsProgress(s[h..e + 1])
    requires forall g: nat, k: nat | h < k < e :: !Repeats(s, g, k)
    requires Repeats(s, i, j) && !ShowsProgress(s[i..j + 1]) && i < e < j
    ensures StallVerdicts(s)[j] != Some(Match([i, j]))
  {
    forall k: nat | h < k < e
      ensures !EndsEpisode(s, k)
    {
    }
    assert EndsEpisodeFrom(s, h, e);
    assert EndsEpisode(s, e);
    StallExactly(s, i, j);
  }

  /** Two repetitions and no more: one shows progress, and it cuts off the other. */
  lemma {:induction false} PairIsDropped(s: Trace, h: nat, e: nat, i: nat, j: nat)
    requires forall k | 0 <= k < |s| :: !CheckOf(s[k]).Unidentifiable?
    requires Repeats(s, h, e) && ShowsProgress(s[h..e + 1])
    requires Repeats(s, i, j) && !ShowsProgress(s[i..j + 1]) && h < i < e < j
    requires forall g: nat, k: nat | Repeats(s, g, k) :: (g == h && k == e) || (g == i && k == j)
    ensures FirstOutcome(StallVerdicts(s)).None?
  {
    CutOff(s, h, e, i, j);
    NothingReported(s);
  }

  lemma {:induction false} InterleavedChecksAre()
    ensures Interleaved(InterleavedChecks(), Check(DeclaredDigest("B"), "delta"), Check(DeclaredDigest("A"), "delta"))
  {
    BareCheckReads("a", 1, "B");
    BareCheckReads("c", 3, "A");
    BareCheckReads("d", 4, "B");
    BareCheckReads("e", 5, "A");
    assert "A"[0] != "B"[0];
  }

  lemma {:induction false} InterleavedProgress()
    ensures var s := InterleavedChecks(); |s| == 5 && ShowsProgress(s[0..4]) && !ShowsProgress(s[2..5])
  {
    BareChecksShowNothing(InterleavedChecks()[2..5]);
    EvidenceShows(InterleavedChecks()[0..4], "x");
  }

  lemma {:induction false} InterleavedIsDropped()
    ensures Repeats(InterleavedChecks(), 2, 4)
    ensures FirstOutcome(StallVerdicts(InterleavedChecks())).None?
  {
    var s := InterleavedChecks();
    var b, a := Check(DeclaredDigest("B"), "delta"), Check(DeclaredDigest("A"), "delta");
    InterleavedChecksAre();
    InterleavedRepeats(s, b, a);
    InterleavedProgress();
    PairIsDropped(s, 0, 3, 2, 4);
  }

  /** The evidence lies in the episode of B, whose repetition ends the episode of A
      too: nothing between the two checks A shows progress, and no stall is found. */
  lemma {:induction false} StalledPairCanBeDropped()
    ensures Admissible(InterleavedChecks())
    ensures Repeats(InterleavedChecks(), 2, 4) && !ShowsProgress(InterleavedChecks()[2..5])
    ensures FirstOutcome(StallVerdicts(InterleavedChecks())).None?
  {
    InterleavedProgress();
    InterleavedIsDropped();
  }

  // ----------------------------------------------------------------- locality

  lemma {:induction false} ChecksLocal(s: Trace, t: Trace, n: nat)
    requires n <= |s|
    ensures Checks(s + t, n) == Checks(s, n)
  {
    if n > 0 {
      ChecksLocal(s, t, n - 1);
    }
  }

  lemma {:induction false} ChecksPrefix(s: Trace, m: nat, n: nat)
    requires m <= n <= |s|
    ensures Checks(s, m) <= Checks(s, n)
  {
    if m < n {
      ChecksPrefix(s, m, n - 1);
    }
  }

  lemma {:induction false} PriorCheckLocal(cs: seq<Check>, ds: seq<Check>, n: nat, identity: Identity)
    requires n <= |cs| && cs <= ds
    ensures PriorCheck(ds, n, identity) == PriorCheck(cs, n, identity)
  {
    if n > 0 {
      PriorCheckLocal(cs, ds, n - 1, identity);
    }
  }

  lemma {:induction false} RepeatedCheckLocal(cs: seq<Check>, ds: seq<Check>, j: nat, start: nat)
    requires j < |cs| && cs <= ds && start <= j
    ensures RepeatedCheck(ds, j, start) == RepeatedCheck(cs, j, start)
  {
    if cs[j].Check? {
      PriorCheckLocal(cs, ds, j, cs[j].identity);
    }
  }

  lemma {:induction false} BetweenLocal(s: Trace, t: Trace, repeated: Option<nat>, j: nat)
    requires j < |s| && (repeated.Some? ==> repeated.value <= j)
    ensures Between(s + t, repeated, j) == Between(s, repeated, j)
  {
    if repeated.Some? {
      assert (s + t)[repeated.value..j + 1] == s[repeated.value..j + 1];
    }
  }

  lemma {:induction false} NextStartLocal(s: Trace, t: Trace, repeated: Option<nat>, start: nat, j: nat)
    requires j < |s| && (repeated.Some? ==> repeated.value <= j)
    ensures NextStart(s + t, repeated, start, j) == NextStart(s, repeated, start, j)
  {
    BetweenLocal(s, t, repeated, j);
  }

  lemma {:induction false} StepLocal(s: Trace, t: Trace, cs: seq<Check>, ds: seq<Check>, start: nat, j: nat)
    requires j < |s| == |cs| && |ds| == |s + t| && cs <= ds && start <= j
    ensures NextStart(s + t, RepeatedCheck(ds, j, start), start, j) ==
      NextStart(s, RepeatedCheck(cs, j, start), start, j)
  {
    RepeatedCheckLocal(cs, ds, j, start);
    NextStartLocal(s, t, RepeatedCheck(cs, j, start), start, j);
  }

  lemma {:induction false} EpisodeLocal(s: Trace, t: Trace, cs: seq<Check>, ds: seq<Check>, n: nat)
    requires n <= |s| == |cs| && |ds| == |s + t| && cs <= ds
    ensures EpisodeStart(s + t, ds, n) == EpisodeStart(s, cs, n)
  {
    if n > 0 {
      EpisodeLocal(s, t, cs, ds, n - 1);
      StepLocal(s, t, cs, ds, EpisodeStart(s, cs, n - 1), n - 1);
    }
  }

  lemma {:induction false} StallVerdictLocal(s: Trace, t: Trace, j: nat)
    requires j < |s|
    ensures StallVerdicts(s + t)[j] == StallVerdicts(s)[j]
  {
    var cs, ds := Checks(s, |s|), Checks(s + t, |s + t|);
    ChecksLocal(s, t, |s|);
    ChecksPrefix(s + t, |s|, |s + t|);
    EpisodeLocal(s, t, cs, ds, j);
    RepeatedCheckLocal(cs, ds, j, EpisodeStart(s, cs, j));
    var i := RepeatedCheck(cs, j, EpisodeStart(s, cs, j));
    if i.Some? {
      assert (s + t)[i.value..j + 1] == s[i.value..j + 1];
    }
  }

  lemma {:induction false} SupportInWindow(s: Trace, j: nat)
    requires j < |s| && StallVerdicts(s)[j].Some? && StallVerdicts(s)[j].value.Match?
    ensures forall p | p in StallVerdicts(s)[j].value.support :: p <= j
  {
  }
}

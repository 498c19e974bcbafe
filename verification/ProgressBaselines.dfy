/** What serves as a baseline: polls are measured against the latest reading where the
    documentation says the first, and concrete windows whose progress is hidden by an
    event in front. */
module ProgressBaselines {
  import opened Prelude
  import opened Fingerprints
  import opened ReasonLogs
  import opened TraceEvents
  import opened Progress
  import opened ProgressScan
  import opened ProgressTheorems

  // ------------------------------------------------------------------- polls

  ghost predicate SamePoll(s: Trace, i: nat, j: nat)
    requires i < |s| && j < |s|
  {
    PollOf(s[i]).Some? && PollOf(s[j]).Some? && PollOf(s[i]).value.key == PollOf(s[j]).value.key
  }

  ghost predicate Closer(s: Trace, j: nat, i: nat)
    requires i < |s| && j < |s| && SamePoll(s, i, j)
  {
    PollOf(s[j]).value.distance < PollOf(s[i]).value.distance
  }

  /** Position `f` holds the first reading of its poll and target. */
  ghost predicate FirstReading(s: Trace, f: nat) {
    f < |s| && PollOf(s[f]).Some? && forall i | 0 <= i < f :: !SamePoll(s, i, f)
  }

  /** The documented condition: a later reading is closer than the FIRST one. */
  ghost predicate FallsBelowFirst(s: Trace) {
    exists f, j :: 0 <= f < j < |s| && FirstReading(s, f) && SamePoll(s, f, j) && Closer(s, j, f)
  }

  /** Every reading is at least as far off as the first one of its poll. */
  ghost predicate NeverBelowFirst(s: Trace) {
    forall f, j | 0 <= f < j < |s| && FirstReading(s, f) && SamePoll(s, f, j) :: !Closer(s, j, f)
  }

  /** Two readings of one poll with none of that poll between. */
  ghost predicate Adjacent(s: Trace, i: nat, j: nat) {
    i < j < |s| && SamePoll(s, i, j) && forall m | i < m < j :: !SamePoll(s, i, m)
  }

  /** Some reading is closer than the one before it. */
  ghost predicate SomeFall(s: Trace) {
    exists i, j :: Adjacent(s, i, j) && Closer(s, j, i)
  }

  lemma {:induction false} FallBetween(s: Trace, i: nat, j: nat)
    requires i < j < |s| && SamePoll(s, i, j) && Closer(s, j, i)
    ensures SomeFall(s)
    decreases j - i
  {
    if m: nat :| i < m < j && SamePoll(s, i, m) {
      if Closer(s, m, i) {
        FallBetween(s, i, m);
      } else {
        FallBetween(s, m, j);
      }
    } else {
      assert Adjacent(s, i, j);
    }
  }

  /** The code reports convergence exactly when some reading is closer than the one
      before it. What the documentation asks for it reports too; the two differ exactly
      when some reading falls and none is ever closer than the first of its poll. */
  lemma {:induction false} PollsFollowTheLatestReading(s: Trace)
    ensures PollConverging in Classification(s).reasonCodes <==> SomeFall(s)
    ensures FallsBelowFirst(s) ==> PollConverging in Classification(s).reasonCodes
    ensures (PollConverging in Classification(s).reasonCodes) != FallsBelowFirst(s) <==>
      SomeFall(s) && NeverBelowFirst(s)
  {
    ClassifierDecidesEvident(s);
    EvidentPoll(s);
    if FallsBelowFirst(s) {
      var f, j :| 0 <= f < j < |s| && FirstReading(s, f) && SamePoll(s, f, j) && Closer(s, j, f);
      FallBetween(s, f, j);
      assert !NeverBelowFirst(s);
    }
  }

  lemma {:induction false} EvidentPoll(s: Trace)
    ensures Evident(PollConverging, s) <==> SomeFall(s)
  {
    if Evident(PollConverging, s) {
      var i, j :| 0 <= i < j < |s| && PollOf(s[i]).Some? && PollOf(s[j]).Some? &&
                  PollOf(s[i]).value.key == PollOf(s[j]).value.key &&
                  PollOf(s[j]).value.distance < PollOf(s[i]).value.distance;
      assert SamePoll(s, i, j) && Closer(s, j, i);
      FallBetween(s, i, j);
    }
    if i: nat, j: nat :| Adjacent(s, i, j) && Closer(s, j, i) {
      assert PollOf(s[i]).value.key == PollOf(s[j]).value.key;
    }
  }

  // ---------------------------------------------------------- concrete windows

  function Event(id: string, sequence: nat, kind: TraceKind, fields: map<string, Json>): TraceEvent {
    TraceEvent("run", id, sequence, kind, ReadOnly, Some(Value(Obj(fields))),
               None, None, None, None, None, None, None, None)
  }

  function PollEvent(id: string, sequence: nat, value: int): TraceEvent {
    Event(id, sequence, StateObservation,
      map["poll_id" := Str("p"), "poll_value" := Int(value), "poll_target" := Int(0)])
  }

  lemma {:induction false} PollEventReads(id: string, sequence: nat, value: nat)
    ensures PollOf(PollEvent(id, sequence, value)) == Some(Poll(PollKey("p", 0.0), value as real))
  {
    var fields := map["poll_id" := Str("p"), "poll_value" := Int(value), "poll_target" := Int(0)];
    assert Field(PollEvent(id, sequence, value), "poll_id") == Some(fields["poll_id"]);
    assert Field(PollEvent(id, sequence, value), "poll_value") == Some(fields["poll_value"]);
    assert Field(PollEvent(id, sequence, value), "poll_target") == Some(fields["poll_target"]);
  }

  /** Three readings that fall once, from the second to the third. */
  lemma {:induction false} LateFall(s: Trace, key: PollKey)
    requires |s| == 3
    requires PollOf(s[0]) == Some(Poll(key, 5.0))
    requires PollOf(s[1]) == Some(Poll(key, 7.0))
    requires PollOf(s[2]) == Some(Poll(key, 6.0))
    ensures (PollConverging in Classification(s).reasonCodes) && !FallsBelowFirst(s)
  {
    LateFallOnly(s);
    PollsFollowTheLatestReading(s);
  }

  lemma {:induction false} LateFallOnly(s: Trace)
    requires |s| == 3 && SamePoll(s, 0, 1) && SamePoll(s, 1, 2)
    requires !Closer(s, 1, 0) && Closer(s, 2, 1) && !Closer(s, 2, 0)
    ensures SomeFall(s) && !FallsBelowFirst(s)
  {
    FallBetween(s, 1, 2);
    forall f, j | 0 <= f < j < |s| && FirstReading(s, f) && SamePoll(s, f, j)
      ensures !Closer(s, j, f)
    {
      assert f == 0 by {
        assert !FirstReading(s, 1);
      }
    }
  }

  /** Three events of one run, numbered from 1. */
  lemma {:induction false} ThreeEvents(s: Trace, runId: string)
    requires |s| == 3 && s[0].eventId == "a" && s[1].eventId == "b" && s[2].eventId == "c"
    requires forall i | 0 <= i < 3 ::
      s[i].runId == runId && s[i].sequence == i + 1 && s[i].payloadDigest.None? && s[i].budgetCounters.None?
    ensures Admissible(s)
  {
    assert "a"[0] != "b"[0] && "a"[0] != "c"[0] && "b"[0] != "c"[0];
  }

  function PollWindow(): Trace {
    [PollEvent("a", 1, 5), PollEvent("b", 2, 7), PollEvent("c", 3, 6)]
  }

  lemma {:induction false} PollWindowReads()
    ensures var s := PollWindow();
      && PollOf(s[0]) == Some(Poll(PollKey("p", 0.0), 5.0))
      && PollOf(s[1]) == Some(Poll(PollKey("p", 0.0), 7.0))
      && PollOf(s[2]) == Some(Poll(PollKey("p", 0.0), 6.0))
  {
    PollEventReads("a", 1, 5);
    PollEventReads("b", 2, 7);
    PollEventReads("c", 3, 6);
  }

  /** Distances 5, 7, 6: converging for the code, and never below the first reading. */
  lemma {:induction false} PollsCanDiffer()
    ensures Admissible(PollWindow())
    ensures PollConverging in Classification(PollWindow()).reasonCodes
    ensures !FallsBelowFirst(PollWindow())
  {
    ThreeEvents(PollWindow(), "run");
    PollWindowReads();
    LateFall(PollWindow(), PollKey("p", 0.0));
  }

  // -------------------------------------------------- progress lost on the left

  /** Nothing but frames, references and eliminations can be news in such a window. */
  ghost predicate Sparse(e: TraceEvent) {
    e.kind in {Message, Error, Plan} && e.errorFingerprint.None? && e.expectedStateChange.None?
  }

  lemma {:induction false} SparseProgress(s: Trace, r: Reason)
    requires forall i | 0 <= i < |s| :: Sparse(s[i])
    requires Evident(r, s)
    ensures r in {StackFrameAdded, EvidenceAdded, HypothesisEliminated}
  {
    if r.ExpectedStateChangeObserved? {
      assert forall i | 0 <= i < |s| :: !IsObservation(s[i]);
    }
  }


  lemma {:induction false} SparseWithoutProgress(s: Trace)
    requires forall i | 0 <= i < |s| :: Sparse(s[i])
    requires !Evident(StackFrameAdded, s) && !Evident(EvidenceAdded, s) && !Evident(HypothesisEliminated, s)
    ensures !MadeProgress(s)
  {
    ClassifierDecidesEvident(s);
    if MadeProgress(s) {
      var r :| Evident(r, s);
      SparseProgress(s, r);
    }
  }

  /** The window `rest` shows progress for a reason, and none once `front` precedes it. */
  ghost predicate Hidden(r: Reason, front: Trace, rest: Trace) {
    && Admissible(front + rest)
    && r in Classification(rest).reasonCodes
    && !MadeProgress(front + rest)
  }

  lemma {:induction false} HiddenByFront(r: Reason, u: Trace, n: nat)
    requires n <= |u| && Admissible(u)
    requires forall i | 0 <= i < |u| :: Sparse(u[i])
    requires Evident(r, u[n..])
    requires !Evident(StackFrameAdded, u) && !Evident(EvidenceAdded, u) && !Evident(HypothesisEliminated, u)
    ensures Hidden(r, u[..n], u[n..])
  {
    assert u[..n] + u[n..] == u;
    ClassifierDecidesEvident(u[n..]);
    SparseWithoutProgress(u);
  }

  lemma {:induction false} EvidenceIsHidden(u: Trace, x: string)
    requires |u| == 3 && Admissible(u)
    requires forall i | 0 <= i < 3 :: Sparse(u[i]) && u[i].kind.Message?
    requires EvidenceOf(u[0]) == EvidenceOf(u[2]) == [x] && EvidenceOf(u[1]) == []
    ensures Hidden(EvidenceAdded, u[..1], u[1..])
  {
    var rest := u[1..];
    assert x in EvidenceOf(rest[1]) && x !in EvidenceOf(rest[0]);
    HiddenByFront(EvidenceAdded, u, 1);
  }

  function EvidenceWindow(): Trace {
    [Event("a", 1, Message, map[]).(evidenceRefs := Some(["x"])), Event("b", 2, Message, map[]),
     Event("c", 3, Message, map[]).(evidenceRefs := Some(["x"]))]
  }

  /** A reference is new after an event without it, and not after one that has it. */
  lemma {:induction false} EvidenceIsNotLeftMonotone()
    ensures Hidden(EvidenceAdded, EvidenceWindow()[..1], EvidenceWindow()[1..])
  {
    ThreeEvents(EvidenceWindow(), "run");
    EvidenceIsHidden(EvidenceWindow(), "x");
  }

  lemma {:induction false} FramesAreHidden(u: Trace, x: string)
    requires |u| == 3 && Admissible(u)
    requires forall i | 0 <= i < 3 :: Sparse(u[i]) && u[i].kind.Error? && EvidenceOf(u[i]) == []
    requires FramesOf(u[0]) == FramesOf(u[2]) == [x] && FramesOf(u[1]) == []
    ensures Hidden(StackFrameAdded, u[..1], u[1..])
  {
    var rest := u[1..];
    assert FirstError(rest, 0) && x in FramesOf(rest[1]) && x !in FramesOf(rest[0]);
    assert FirstError(u, 0) && forall f: nat | FirstError(u, f) :: f == 0;
    HiddenByFront(StackFrameAdded, u, 1);
  }

  function FramedError(id: string, sequence: nat, frames: seq<Json>): TraceEvent {
    Event(id, sequence, Error, map["stack_frames" := Arr(frames)])
  }

  lemma {:induction false} FramesOfFramedError(id: string, sequence: nat, frames: seq<Json>, texts: seq<string>)
    requires |frames| == |texts| && forall i | 0 <= i < |frames| :: frames[i] == Str(texts[i])
    ensures FramesOf(FramedError(id, sequence, frames)) == texts
  {
    assert Field(FramedError(id, sequence, frames), "stack_frames") == Some(Arr(frames));
    assert StringsField(FramedError(id, sequence, frames), "stack_frames").value == texts;
  }

  function FrameWindow(): Trace {
    [FramedError("a", 1, [Str("x")]), FramedError("b", 2, []), FramedError("c", 3, [Str("x")])]
  }

  /** A frame is new after an error without it, and not after one that has it. */
  lemma {:induction false} FramesAreNotLeftMonotone()
    ensures Hidden(StackFrameAdded, FrameWindow()[..1], FrameWindow()[1..])
  {
    ThreeEvents(FrameWindow(), "run");
    FramesOfFramedError("a", 1, [Str("x")], ["x"]);
    FramesOfFramedError("b", 2, [], []);
    FramesOfFramedError("c", 3, [Str("x")], ["x"]);
    FramesAreHidden(FrameWindow(), "x");
  }

  lemma {:induction false} EliminationsAreHidden(u: Trace, x: string, y: string)
    requires |u| == 3 && Admissible(u) && x != y
    requires forall i | 0 <= i < 3 :: Sparse(u[i]) && u[i].kind.Plan? && EvidenceOf(u[i]) == []
    requires EliminatedOf(u[0]) == [x, y] && EliminatedOf(u[1]) == [x] && EliminatedOf(u[2]) == [y]
    ensures Hidden(HypothesisEliminated, u[..1], u[1..])
  {
    var rest := u[1..];
    assert FirstElimination(rest, 0) && y in EliminatedOf(rest[1]) && y !in EliminatedOf(rest[0]);
    assert FirstElimination(u, 0) && forall f: nat | FirstElimination(u, f) :: f == 0;
    HiddenByFront(HypothesisEliminated, u, 1);
  }

  function EliminatingPlan(id: string, sequence: nat, hypotheses: seq<Json>): TraceEvent {
    Event(id, sequence, Plan, map["eliminated_hypotheses" := Arr(hypotheses)])
  }

  lemma {:induction false} EliminatedOfPlan(id: string, sequence: nat, hypotheses: seq<Json>, texts: seq<string>)
    requires |hypotheses| == |texts| && AllNonEmpty(texts)
    requires forall i | 0 <= i < |texts| :: hypotheses[i] == Str(texts[i])
    ensures EliminatedOf(EliminatingPlan(id, sequence, hypotheses)) == texts
  {
    assert Field(EliminatingPlan(id, sequence, hypotheses), "eliminated_hypotheses") == Some(Arr(hypotheses));
    assert StringsField(EliminatingPlan(id, sequence, hypotheses), "eliminated_hypotheses").value == texts;
  }

  function EliminationWindow(): Trace {
    [EliminatingPlan("a", 1, [Str("x"), Str("y")]), EliminatingPlan("b", 2, [Str("x")]),
     EliminatingPlan("c", 3, [Str("y")])]
  }

  lemma {:induction false} EliminationWindowReads()
    ensures var s := EliminationWindow();
      EliminatedOf(s[0]) == ["x", "y"] && EliminatedOf(s[1]) == ["x"] && EliminatedOf(s[2]) == ["y"]
  {
    EliminatedOfPlan("a", 1, [Str("x"), Str("y")], ["x", "y"]);
    EliminatedOfPlan("b", 2, [Str("x")], ["x"]);
    EliminatedOfPlan("c", 3, [Str("y")], ["y"]);
  }

  /** An elimination is new after a plan without it, and not after one that has it. */
  lemma {:induction false} EliminationsAreNotLeftMonotone()
    ensures Hidden(HypothesisEliminated, EliminationWindow()[..1], EliminationWindow()[1..])
  {
    ThreeEvents(EliminationWindow(), "run");
    EliminationWindowReads();
    assert "x"[0] != "y"[0];
    EliminationsAreHidden(EliminationWindow(), "x", "y");
  }
}

/** The one-pass classifier: a loop over the window with sets, maps and flags that
    remember just enough of the past to find every earliest witness. */
module ProgressScan {
  import opened Prelude
  import opened Fingerprints
  import opened ReasonLogs
  import opened TraceEvents
  import opened Progress

  ghost function EventIds(s: Trace): seq<string> {
    seq(|s|, i requires 0 <= i < |s| => s[i].eventId)
  }

  ghost function ClassifierLog(s: Trace, n: nat, k: nat): Log
    requires n <= |s| && k <= TESTS && (n == |s| ==> k == 0)
  {
    LogOf(WitnessesIn(s), EventIds(s), n, k)
  }

  /** What the classifier answers for a contiguous window. */
  ghost function Classification(s: Trace): Assessment {
    AssessmentOf(ClassifierLog(s, |s|, 0))
  }

  /** One test of one event: the loop's condition only has to be right while the
      reason is still unrecorded. */
  lemma {:induction false} TestStep(s: Trace, n: nat, k: nat, r: Reason, holds: bool)
    requires n < |s| && k < TESTS && TEST_ORDER[k] == r
    requires r !in ClassifierLog(s, n, k).reasons ==> (holds <==> Witness(r, s, n))
    ensures Note(ClassifierLog(s, n, k), r, holds, s[n].eventId) == ClassifierLog(s, n, k + 1)
  {
  }

  // ------------------------------------------------------ pending expectations

  /** Distinct state baselines awaiting a changed observation. */
  class PendingStateExpectations {
    var baselines: set<string>

    constructor ()
      ensures baselines == {}
    {
      baselines := {};
    }

    method Add(baseline: string)
      modifies this
      ensures baselines == old(baselines) + {baseline}
    {
      baselines := baselines + {baseline};
    }

    /** Whether some pending baseline differs from this observation; if so, all are consumed. */
    method Observe(fingerprint: string) returns (changed: bool)
      modifies this
      ensures changed <==> exists b :: b in old(baselines) && b != fingerprint
      ensures baselines == if changed then {} else old(baselines)
    {
      SomeOther(baselines, fingerprint);
      changed := baselines != {} && (|baselines| > 1 || fingerprint !in baselines);
      if changed {
        baselines := {};
      }
    }
  }

  /** The size test of `Observe` is the existence of a different baseline. */
  lemma {:induction false} SomeOther(baselines: set<string>, fingerprint: string)
    ensures baselines != {} && (|baselines| > 1 || fingerprint !in baselines) <==>
      exists b :: b in baselines && b != fingerprint
  {
    if baselines != {} {
      if fingerprint in baselines {
        var others := baselines - {fingerprint};
        assert |others| == |baselines| - 1;
        if others != {} {
          var b :| b in others;
          assert b in baselines && b != fingerprint;
        }
      } else {
        var b :| b in baselines;
      }
    }
  }

  ghost function PendingBaselines(s: Trace, n: nat): set<string>
    requires n <= |s|
  {
    set i | 0 <= i < n && ExpectedFrom(s, i).Some? :: ExpectedFrom(s, i).value
  }

  lemma {:induction false} PendingStep(s: Trace, n: nat)
    requires n < |s|
    ensures var fingerprint := StateFingerprint(s[n]);
      fingerprint.Some? && s[n].kind.StateObservation? ==>
        (StateChanges(s, n) <==> exists b :: b in PendingBaselines(s, n) && b != fingerprint.value)
    ensures PendingBaselines(s, n + 1) ==
      PendingBaselines(s, n) + if ExpectedFrom(s, n).Some? then {ExpectedFrom(s, n).value} else {}
  {
    var pending := PendingBaselines(s, n);
    forall i | 0 <= i < n && ExpectedFrom(s, i).Some?
      ensures ExpectedFrom(s, i).value in pending
    {
    }
    if StateFingerprint(s[n]).Some? && s[n].kind.StateObservation? {
      if b :| b in pending && b != StateFingerprint(s[n]).value {
        var i :| 0 <= i < n && ExpectedFrom(s, i) == Some(b);
        assert ExpectedFrom(s, i) != StateFingerprint(s[n]);
      }
    }
  }

  /** State changes: consuming baselines never hides an earliest witness. */
  method TestState(s: Trace, n: nat, pending: PendingStateExpectations, latest: Option<string>, log: Log)
    returns (latest': Option<string>, log': Log)
    requires n < |s| && log == ClassifierLog(s, n, 0) && latest == LatestState(s, n)
    requires ExpectedStateChangeObserved !in log.reasons ==> pending.baselines == PendingBaselines(s, n)
    modifies pending
    ensures log' == ClassifierLog(s, n, 1) && latest' == LatestState(s, n + 1)
    ensures ExpectedStateChangeObserved !in log'.reasons ==> pending.baselines == PendingBaselines(s, n + 1)
  {
    var e := s[n];
    var fingerprint := StateFingerprint(e);
    var baseline := if fingerprint.Some? then fingerprint else latest;
    var changed := false;
    latest' := latest;
    if e.kind.StateObservation? && fingerprint.Some? {
      changed := pending.Observe(fingerprint.value);
      latest' := fingerprint;
    } else if fingerprint.Some? {
      latest' := fingerprint;
    }
    if ExpectedStateChangeObserved !in log.reasons {
      PendingStep(s, n);
    }
    TestStep(s, n, 0, ExpectedStateChangeObserved, changed);
    log' := Note(log, ExpectedStateChangeObserved, changed, e.eventId);
    if ExpectsChange(e) && baseline.Some? {
      pending.Add(baseline.value);
    }
  }

  // --------------------------------------- acceptance, handoff, evidence, plans

  method TestAcceptance(s: Trace, n: nat, hasBaseline: bool, log: Log) returns (hasBaseline': bool, log': Log)
    requires n < |s| && log == ClassifierLog(s, n, 1)
    requires hasBaseline <==> exists i :: 0 <= i < n && IsRequiredCheck(s[i])
    ensures log' == ClassifierLog(s, n, 2)
    ensures hasBaseline' <==> exists i :: 0 <= i < n + 1 && IsRequiredCheck(s[i])
  {
    var e := s[n];
    hasBaseline', log' := hasBaseline, log;
    var verified := IsRequiredCheck(e) && hasBaseline && NonEmpty(e.acceptanceDelta).Some?;
    TestStep(s, n, 1, RequiredAcceptanceVerified, verified);
    log' := Note(log, RequiredAcceptanceVerified, verified, e.eventId);
    if IsRequiredCheck(e) {
      hasBaseline' := true;
    }
  }

  method TestHandoff(s: Trace, n: nat, log: Log) returns (log': Log)
    requires n < |s| && log == ClassifierLog(s, n, 2)
    ensures log' == ClassifierLog(s, n, 3)
  {
    TestStep(s, n, 2, ProductiveHandoff, IsProductiveHandoff(s[n]));
    log' := Note(log, ProductiveHandoff, IsProductiveHandoff(s[n]), s[n].eventId);
  }

  ghost function EvidenceBefore(s: Trace, n: nat): set<string>
    requires n <= |s|
  {
    set i, x | 0 <= i < n && x in EvidenceOf(s[i]) :: x
  }

  method TestEvidence(s: Trace, n: nat, hasPrior: bool, seen: set<string>, log: Log)
    returns (seen': set<string>, log': Log)
    requires n < |s| && log == ClassifierLog(s, n, 3)
    requires (hasPrior <==> n > 0) && seen == EvidenceBefore(s, n)
    ensures log' == ClassifierLog(s, n, 4) && seen' == EvidenceBefore(s, n + 1)
  {
    var refs := EvidenceOf(s[n]);
    var added := hasPrior && exists x :: x in refs && x !in seen;
    assert added <==> EvidenceAppears(s, n);
    TestStep(s, n, 3, EvidenceAdded, added);
    log' := Note(log, EvidenceAdded, added, s[n].eventId);
    seen' := seen + Elements(refs);
  }

  ghost function EliminatedBefore(s: Trace, n: nat): set<string>
    requires n <= |s|
  {
    set i, x | 0 <= i < n && x in EliminatedOf(s[i]) :: x
  }

  method TestElimination(s: Trace, n: nat, hasBaseline: bool, seen: set<string>, log: Log)
    returns (hasBaseline': bool, seen': set<string>, log': Log)
    requires n < |s| && log == ClassifierLog(s, n, 4)
    requires hasBaseline <==> exists i :: 0 <= i < n && EliminatedOf(s[i]) != []
    requires seen == EliminatedBefore(s, n)
    ensures log' == ClassifierLog(s, n, 5) && seen' == EliminatedBefore(s, n + 1)
    ensures hasBaseline' <==> exists i :: 0 <= i < n + 1 && EliminatedOf(s[i]) != []
  {
    hasBaseline', seen' := hasBaseline, seen;
    var eliminated := EliminatedOf(s[n]);
    var added := hasBaseline && exists x :: x in eliminated && x !in seen;
    assert added <==> EliminationAppears(s, n);
    TestStep(s, n, 4, HypothesisEliminated, added);
    log' := Note(log, HypothesisEliminated, added, s[n].eventId);
    if eliminated != [] {
      seen' := seen + Elements(eliminated);
      hasBaseline' := true;
    }
  }

  // ------------------------------------------------------------------- errors

  ghost function ErrorsBefore(s: Trace, n: nat): set<string>
    requires n <= |s|
  {
    set i | 0 <= i < n && ErrorOf(s[i]).Some? :: ErrorOf(s[i]).value
  }

  lemma {:induction false} ErrorsBeforeNonEmpty(s: Trace, n: nat)
    requires n <= |s|
    ensures ErrorsBefore(s, n) != {} <==> exists i :: 0 <= i < n && ErrorOf(s[i]).Some?
  {
    if i :| 0 <= i < n && ErrorOf(s[i]).Some? {
      assert ErrorOf(s[i]).value in ErrorsBefore(s, n);
    }
  }

  method TestErrorFingerprint(s: Trace, n: nat, seen: set<string>, log: Log) returns (seen': set<string>, log': Log)
    requires n < |s| && log == ClassifierLog(s, n, 5) && seen == ErrorsBefore(s, n)
    ensures log' == ClassifierLog(s, n, 6) && seen' == ErrorsBefore(s, n + 1)
  {
    seen' := seen;
    var error := ErrorOf(s[n]);
    var changed := error.Some? && seen != {} && error.value !in seen;
    ErrorsBeforeNonEmpty(s, n);
    assert changed <==> ErrorChanges(s, n);
    TestStep(s, n, 5, ErrorChanged, changed);
    log' := Note(log, ErrorChanged, changed, s[n].eventId);
    if error.Some? {
      seen' := seen + {error.value};
    }
  }

  ghost function FramesBefore(s: Trace, n: nat): set<string>
    requires n <= |s|
  {
    set i, x | 0 <= i < n && x in FramesOf(s[i]) :: x
  }

  method TestFrames(s: Trace, n: nat, hasBaseline: bool, seen: set<string>, log: Log)
    returns (hasBaseline': bool, seen': set<string>, log': Log)
    requires n < |s| && log == ClassifierLog(s, n, 6) && seen == FramesBefore(s, n)
    requires hasBaseline <==> exists i :: 0 <= i < n && s[i].kind.Error?
    ensures log' == ClassifierLog(s, n, 7) && seen' == FramesBefore(s, n + 1)
    ensures hasBaseline' <==> exists i :: 0 <= i < n + 1 && s[i].kind.Error?
  {
    hasBaseline' := hasBaseline;
    var frames := FramesOf(s[n]);
    var added := hasBaseline && exists x :: x in frames && x !in seen;
    assert added <==> FrameAppears(s, n);
    TestStep(s, n, 6, StackFrameAdded, added);
    log' := Note(log, StackFrameAdded, added, s[n].eventId);
    seen' := seen + Elements(frames);
    if s[n].kind.Error? {
      hasBaseline' := true;
    }
  }

  // -------------------------------------------------- cursors and batch items

  ghost function CursorsBefore(s: Trace, n: nat): set<Json>
    requires n <= |s|
  {
    set i | 0 <= i < n && CursorOf(s[i]).Some? :: CursorOf(s[i]).value
  }

  lemma {:induction false} CursorsBeforeNonEmpty(s: Trace, n: nat)
    requires n <= |s|
    ensures CursorsBefore(s, n) != {} <==> exists i :: 0 <= i < n && CursorOf(s[i]).Some?
  {
    if i :| 0 <= i < n && CursorOf(s[i]).Some? {
      assert CursorOf(s[i]).value in CursorsBefore(s, n);
    }
  }

  method TestCursor(s: Trace, n: nat, seen: set<Json>, log: Log) returns (seen': set<Json>, log': Log)
    requires n < |s| && log == ClassifierLog(s, n, 7) && seen == CursorsBefore(s, n)
    ensures log' == ClassifierLog(s, n, 8) && seen' == CursorsBefore(s, n + 1)
  {
    seen' := seen;
    var cursor := CursorOf(s[n]);
    var advanced := cursor.Some? && seen != {} && cursor.value !in seen;
    CursorsBeforeNonEmpty(s, n);
    assert advanced <==> CursorAdvances(s, n);
    TestStep(s, n, 7, PaginationAdvanced, advanced);
    log' := Note(log, PaginationAdvanced, advanced, s[n].eventId);
    if cursor.Some? {
      seen' := seen + {cursor.value};
    }
  }

  ghost function BatchItemsBefore(s: Trace, n: nat): set<string>
    requires n <= |s|
  {
    set i | 0 <= i < n && BatchItemOf(s[i]).Some? :: BatchItemOf(s[i]).value
  }

  lemma {:induction false} BatchItemsBeforeNonEmpty(s: Trace, n: nat)
    requires n <= |s|
    ensures BatchItemsBefore(s, n) != {} <==> exists i :: 0 <= i < n && BatchItemOf(s[i]).Some?
  {
    if i :| 0 <= i < n && BatchItemOf(s[i]).Some? {
      assert BatchItemOf(s[i]).value in BatchItemsBefore(s, n);
    }
  }

  method TestBatchItem(s: Trace, n: nat, seen: set<string>, log: Log) returns (seen': set<string>, log': Log)
    requires n < |s| && log == ClassifierLog(s, n, 8) && seen == BatchItemsBefore(s, n)
    ensures log' == ClassifierLog(s, n, 9) && seen' == BatchItemsBefore(s, n + 1)
  {
    seen' := seen;
    var item := BatchItemOf(s[n]);
    var advanced := item.Some? && seen != {} && item.value !in seen;
    BatchItemsBeforeNonEmpty(s, n);
    assert advanced <==> BatchAdvances(s, n);
    TestStep(s, n, 8, BatchItemChanged, advanced);
    log' := Note(log, BatchItemChanged, advanced, s[n].eventId);
    if item.Some? {
      seen' := seen + {item.value};
    }
  }

  // -------------------------------------------------------------------- polls

  /** Until a poll converges, distances never fall: the last one per key is the largest. */
  ghost predicate LastIsLargest(s: Trace, n: nat, baselines: map<PollKey, real>)
    requires n <= |s|
  {
    && (forall i | 0 <= i < n && PollOf(s[i]).Some? ::
          PollOf(s[i]).value.key in baselines && PollOf(s[i]).value.distance <= baselines[PollOf(s[i]).value.key])
    && (forall key | key in baselines ::
          exists i :: 0 <= i < n && PollOf(s[i]) == Some(Poll(key, baselines[key])))
  }

  /** Comparing with the last distance per key finds the first fall below ANY earlier one. */
  method TestPoll(s: Trace, n: nat, baselines: map<PollKey, real>, log: Log)
    returns (baselines': map<PollKey, real>, log': Log)
    requires n < |s| && log == ClassifierLog(s, n, 9)
    requires PollConverging !in log.reasons ==> LastIsLargest(s, n, baselines)
    ensures log' == ClassifierLog(s, n, 10)
    ensures PollConverging !in log'.reasons ==> LastIsLargest(s, n + 1, baselines')
  {
    baselines' := baselines;
    var poll := PollOf(s[n]);
    var converged := poll.Some? && poll.value.key in baselines && poll.value.distance < baselines[poll.value.key];
    if PollConverging !in log.reasons {
      assert converged <==> PollConverges(s, n);
    }
    TestStep(s, n, 9, PollConverging, converged);
    log' := Note(log, PollConverging, converged, s[n].eventId);
    if poll.Some? {
      baselines' := baselines[poll.value.key := poll.value.distance];
    }
  }

  // -------------------------------------------------------------- experiments

  /** The experiments of a window, by position. */
  ghost function Experiments(s: Trace): (xs: seq<Option<Experiment>>)
    ensures |xs| == |s| && forall i | 0 <= i < |s| :: xs[i] == ExperimentOf(s[i])
  {
    seq(|s|, i requires 0 <= i < |s| => ExperimentOf(s[i]))
  }

  ghost function InputsBefore(xs: seq<Option<Experiment>>, n: nat, hypothesis: string): set<Json>
    requires n <= |xs|
  {
    set i | 0 <= i < n && xs[i].Some? && xs[i].value.hypothesis == hypothesis :: xs[i].value.input
  }

  ghost predicate InputsSeen(xs: seq<Option<Experiment>>, n: nat, seen: map<string, set<Json>>)
    requires n <= |xs|
  {
    && (forall i | 0 <= i < n && xs[i].Some? :: xs[i].value.hypothesis in seen)
    && (forall h | h in seen :: seen[h] == InputsBefore(xs, n, h))
  }

  ghost predicate NewInput(xs: seq<Option<Experiment>>, n: nat)
    requires n < |xs| && xs[n].Some?
  {
    var prior := InputsBefore(xs, n, xs[n].value.hypothesis);
    prior != {} && xs[n].value.input !in prior
  }

  lemma {:induction false} NewInputByWitness(xs: seq<Option<Experiment>>, n: nat)
    requires n < |xs| && xs[n].Some?
    ensures NewInput(xs, n) <==>
      && (exists i :: 0 <= i < n && xs[i].Some? && xs[i].value.hypothesis == xs[n].value.hypothesis)
      && (forall i | 0 <= i < n :: xs[i] != xs[n])
  {
    var prior := InputsBefore(xs, n, xs[n].value.hypothesis);
    if i :| 0 <= i < n && xs[i].Some? && xs[i].value.hypothesis == xs[n].value.hypothesis {
      assert xs[i].value.input in prior;
    }
    if i :| 0 <= i < n && xs[i] == xs[n] {
      assert xs[i].value.input in prior;
    }
  }

  lemma {:induction false} NewInputMeaning(s: Trace, n: nat)
    requires n < |s|
    ensures InputChanges(s, n) <==> Experiments(s)[n].Some? && NewInput(Experiments(s), n)
  {
    var xs := Experiments(s);
    forall i | 0 <= i < n
      ensures SameHypothesis(s[i], s[n]) <==>
        xs[i].Some? && xs[n].Some? && xs[i].value.hypothesis == xs[n].value.hypothesis
      ensures ExperimentOf(s[i]) == ExperimentOf(s[n]) <==> xs[i] == xs[n]
    {
    }
    if xs[n].Some? {
      NewInputByWitness(xs, n);
    }
  }

  lemma {:induction false} InputsSeenStep(xs: seq<Option<Experiment>>, n: nat, seen: map<string, set<Json>>)
    requires n < |xs| && InputsSeen(xs, n, seen)
    ensures xs[n].None? ==> InputsSeen(xs, n + 1, seen)
    ensures xs[n].Some? ==>
      var x := xs[n].value;
      && InputsBefore(xs, n, x.hypothesis) == (if x.hypothesis in seen then seen[x.hypothesis] else {})
      && InputsSeen(xs, n + 1, seen[x.hypothesis := InputsBefore(xs, n, x.hypothesis) + {x.input}])
  {
    forall h
      ensures InputsBefore(xs, n + 1, h) ==
        InputsBefore(xs, n, h) + if xs[n].Some? && xs[n].value.hypothesis == h then {xs[n].value.input} else {}
    {
    }
  }

  method ComputeExperiment(e: TraceEvent) returns (r: Option<Experiment>)
    ensures r == ExperimentOf(e)
  {
    var id := NonEmpty(StringField(e, "hypothesis_id"));
    var input := Field(e, HYPOTHESIS_INPUT);
    if !e.kind.ToolCall? || id.None? || input.None? {
      return None;
    }
    var fingerprint := ActionFingerprint(Obj(map[HYPOTHESIS_INPUT := input.value]), None,
                                         if input.value.Obj? then NESTED_VOLATILE_PATHS else []);
    return if fingerprint.Ok? then Some(Experiment(id.value, fingerprint.value.digest)) else None;
  }

  method TestExperiment(s: Trace, n: nat, seen: map<string, set<Json>>, log: Log)
    returns (seen': map<string, set<Json>>, log': Log)
    requires n < |s| && log == ClassifierLog(s, n, 10) && InputsSeen(Experiments(s), n, seen)
    ensures log' == ClassifierLog(s, n, TESTS) && InputsSeen(Experiments(s), n + 1, seen')
  {
    seen' := seen;
    var experiment := ComputeExperiment(s[n]);
    var changed := false;
    NewInputMeaning(s, n);
    InputsSeenStep(Experiments(s), n, seen);
    if experiment.Some? {
      var Experiment(hypothesis, input) := experiment.value;
      var prior := if hypothesis in seen then seen[hypothesis] else {};
      changed := prior != {} && input !in prior;
      seen' := seen[hypothesis := prior + {input}];
    }
    TestStep(s, n, 10, HypothesisInputChanged, changed);
    log' := Note(log, HypothesisInputChanged, changed, s[n].eventId);
  }

  // ----------------------------------------------------------------- the loop

  datatype WindowError = SequenceGap | RunIdMismatch | InvalidAssessmentState

  /** The first broken link decides the error; a gap is reported before a foreign run. */
  method ValidateWindow(s: Trace) returns (r: Option<WindowError>)
    ensures r.None? <==> Contiguous(s)
    ensures r == Some(SequenceGap) ==> exists i :: 0 <= i < |s| - 1 && s[i + 1].sequence != s[i].sequence + 1
    ensures r == Some(RunIdMismatch) ==> exists i :: 0 <= i < |s| - 1 && s[i + 1].runId != s[i].runId
    ensures r != Some(InvalidAssessmentState)
  {
    for i := 0 to |s|
      invariant forall k | 0 <= k < i && k < |s| - 1 ::
        s[k + 1].sequence == s[k].sequence + 1 && s[k + 1].runId == s[k].runId
    {
      if i + 1 < |s| {
        if s[i + 1].sequence != s[i].sequence + 1 {
          return Some(SequenceGap);
        }
        if s[i + 1].runId != s[i].runId {
          return Some(RunIdMismatch);
        }
      }
    }
    return None;
  }

  /** The loop's variables, `pending` apart. */
  datatype Memory = Memory(
    latestState: Option<string>,
    hasAcceptanceBaseline: bool,
    hasPriorEvent: bool,
    seenEvidence: set<string>,
    hasPlanBaseline: bool,
    seenEliminated: set<string>,
    hasErrorBaseline: bool,
    seenErrors: set<string>,
    seenFrames: set<string>,
    seenCursors: set<Json>,
    seenBatchItems: set<string>,
    pollBaselines: map<PollKey, real>,
    seenInputs: map<string, set<Json>>)

  /** What the loop remembers for the tests made before the payload is opened. */
  ghost predicate RemembersHeads(s: Trace, n: nat, m: Memory)
    requires n <= |s|
  {
    && m.latestState == LatestState(s, n)
    && (m.hasAcceptanceBaseline <==> exists i :: 0 <= i < n && IsRequiredCheck(s[i]))
    && (m.hasPriorEvent <==> n > 0)
    && m.seenEvidence == EvidenceBefore(s, n)
    && (m.hasPlanBaseline <==> exists i :: 0 <= i < n && EliminatedOf(s[i]) != [])
    && m.seenEliminated == EliminatedBefore(s, n)
  }

  ghost predicate RemembersErrors(s: Trace, n: nat, m: Memory)
    requires n <= |s|
  {
    && (m.hasErrorBaseline <==> exists i :: 0 <= i < n && s[i].kind.Error?)
    && m.seenErrors == ErrorsBefore(s, n)
    && m.seenFrames == FramesBefore(s, n)
  }

  /** ... and for the tests made on an object payload. */
  ghost predicate RemembersPayloads(s: Trace, n: nat, m: Memory, log: Log)
    requires n <= |s|
  {
    && m.seenCursors == CursorsBefore(s, n)
    && m.seenBatchItems == BatchItemsBefore(s, n)
    && (PollConverging !in log.reasons ==> LastIsLargest(s, n, m.pollBaselines))
    && InputsSeen(Experiments(s), n, m.seenInputs)
  }

  /** A reason recorded by earlier tests is still recorded later in the same event. */
  lemma {:induction false} StillUnrecorded(s: Trace, n: nat, k: nat, k': nat, r: Reason)
    requires n < |s| && k <= k' <= TESTS && r !in ClassifierLog(s, n, k').reasons
    ensures r !in ClassifierLog(s, n, k).reasons
    decreases k' - k
  {
    if k < k' {
      StillUnrecorded(s, n, k, k' - 1, r);
    }
  }

  /** First part of the loop body: state, acceptance, handoff, evidence, plans. */
  method StepHeads(s: Trace, n: nat, pending: PendingStateExpectations, m: Memory, log: Log)
    returns (m': Memory, log': Log)
    requires n < |s| && log == ClassifierLog(s, n, 0) && RemembersHeads(s, n, m)
    requires ExpectedStateChangeObserved !in log.reasons ==> pending.baselines == PendingBaselines(s, n)
    modifies pending
    ensures log' == ClassifierLog(s, n, 5) && RemembersHeads(s, n + 1, m')
    ensures ExpectedStateChangeObserved !in log'.reasons ==> pending.baselines == PendingBaselines(s, n + 1)
    ensures m' == m.(latestState := m'.latestState, hasAcceptanceBaseline := m'.hasAcceptanceBaseline,
                     hasPriorEvent := true, seenEvidence := m'.seenEvidence,
                     hasPlanBaseline := m'.hasPlanBaseline, seenEliminated := m'.seenEliminated)
  {
    var latest, log1 := TestState(s, n, pending, m.latestState, log);
    var acceptance, log2 := TestAcceptance(s, n, m.hasAcceptanceBaseline, log1);
    var log3 := TestHandoff(s, n, log2);
    var evidence, log4 := TestEvidence(s, n, m.hasPriorEvent, m.seenEvidence, log3);
    var plan, eliminated, log5 := TestElimination(s, n, m.hasPlanBaseline, m.seenEliminated, log4);
    if ExpectedStateChangeObserved !in log5.reasons {
      StillUnrecorded(s, n, 1, 5, ExpectedStateChangeObserved);
    }
    log' := log5;
    m' := m.(latestState := latest, hasAcceptanceBaseline := acceptance, hasPriorEvent := true,
             seenEvidence := evidence, hasPlanBaseline := plan, seenEliminated := eliminated);
  }

  method StepErrors(s: Trace, n: nat, m: Memory, log: Log) returns (m': Memory, log': Log)
    requires n < |s| && log == ClassifierLog(s, n, 5) && RemembersErrors(s, n, m)
    ensures log' == ClassifierLog(s, n, 7) && RemembersErrors(s, n + 1, m')
    ensures m' == m.(hasErrorBaseline := m'.hasErrorBaseline, seenErrors := m'.seenErrors, seenFrames := m'.seenFrames)
  {
    var errors, log1 := TestErrorFingerprint(s, n, m.seenErrors, log);
    var baseline, frames, log2 := TestFrames(s, n, m.hasErrorBaseline, m.seenFrames, log1);
    log' := log2;
    m' := m.(hasErrorBaseline := baseline, seenErrors := errors, seenFrames := frames);
  }

  /** Last part of the loop body; on an event without an object payload every one of
      these tests is negative, which is where the source continues early. */
  method StepPayload(s: Trace, n: nat, m: Memory, log: Log) returns (m': Memory, log': Log)
    requires n < |s| && log == ClassifierLog(s, n, 7) && RemembersPayloads(s, n, m, log)
    ensures log' == ClassifierLog(s, n, TESTS) && RemembersPayloads(s, n + 1, m', log')
    ensures m' == m.(seenCursors := m'.seenCursors, seenBatchItems := m'.seenBatchItems,
                     pollBaselines := m'.pollBaselines, seenInputs := m'.seenInputs)
  {
    var cursors, log1 := TestCursor(s, n, m.seenCursors, log);
    var items, log2 := TestBatchItem(s, n, m.seenBatchItems, log1);
    if PollConverging !in log2.reasons {
      StillUnrecorded(s, n, 7, 9, PollConverging);
    }
    var polls, log3 := TestPoll(s, n, m.pollBaselines, log2);
    var inputs, log4 := TestExperiment(s, n, m.seenInputs, log3);
    if PollConverging !in log4.reasons {
      StillUnrecorded(s, n, 10, TESTS, PollConverging);
    }
    log' := log4;
    m' := m.(seenCursors := cursors, seenBatchItems := items, pollBaselines := polls, seenInputs := inputs);
  }

  /** The classifier. On every contiguous window it answers, and its answer is the
      specification's; the assessment's own state check never fails. */
  method ClassifyProgress(events: Trace) returns (r: Result<Assessment, WindowError>)
    ensures r.Ok? <==> Contiguous(events)
    ensures r.Ok? ==> r.value == Classification(events)
  {
    var broken := ValidateWindow(events);
    if broken.Some? {
      return Err(broken.value);
    }
    var m := Memory(None, false, false, {}, false, {}, false, {}, {}, {}, {}, map[], map[]);
    var pending := new PendingStateExpectations();
    var log := Log([], []);
    for n := 0 to |events|
      invariant fresh(pending)
      invariant log == ClassifierLog(events, n, 0)
      invariant RemembersHeads(events, n, m) && RemembersErrors(events, n, m)
      invariant RemembersPayloads(events, n, m, log)
      invariant ExpectedStateChangeObserved !in log.reasons ==> pending.baselines == PendingBaselines(events, n)
    {
      m, log := StepHeads(events, n, pending, m, log);
      m, log := StepErrors(events, n, m, log);
      if PollConverging !in log.reasons {
        StillUnrecorded(events, n, 0, 7, PollConverging);
      }
      m, log := StepPayload(events, n, m, log);
      if ExpectedStateChangeObserved !in log.reasons {
        StillUnrecorded(events, n, 5, TESTS, ExpectedStateChangeObserved);
      }
    }
    var assessment := AssessmentOf(log);
    AssessmentIsValid(WitnessesIn(events), EventIds(events));
    if !ValidAssessment(assessment) {
      return Err(InvalidAssessmentState);
    }
    return Ok(assessment);
  }
}

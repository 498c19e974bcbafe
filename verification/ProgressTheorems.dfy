/** What the classifier's answer means, and how it changes when the window grows. */
module ProgressTheorems {
  import opened Prelude
  import opened ReasonLogs
  import opened TraceEvents
  import opened Progress
  import opened ProgressScan

  /** Every reason is reported exactly when it has a witness, and once; the supporting
      events are the earliest witnesses; the verdict is that some witness exists. */
  lemma {:induction false} ClassificationMeaning(s: Trace)
    ensures Distinct(Classification(s).reasonCodes)
    ensures forall r :: r in Classification(s).reasonCodes <==> exists j :: 0 <= j < |s| && Witness(r, s, j)
    ensures forall id :: id in Classification(s).supportingEventIds <==>
      exists r, j :: 0 <= j < |s| && FirstWitness(r, s, j) && s[j].eventId == id
    ensures Classification(s).madeProgress <==> MadeProgress(s)
  {
    var judge, ids, log := WitnessesIn(s), EventIds(s), ClassifierLog(s, |s|, 0);
    var at := LogIsFaithful(judge, ids, |s|, 0);
    DedupMeaning(log.eventIds);
    forall r
      ensures r in log.reasons <==> exists j :: 0 <= j < |s| && Witness(r, s, j)
    {
      ReportedIffWitnessed(s, r);
    }
    forall id
      ensures id in log.eventIds <==> exists r, j :: 0 <= j < |s| && FirstWitness(r, s, j) && s[j].eventId == id
    {
      if m :| 0 <= m < |log.eventIds| && log.eventIds[m] == id {
        FirstIsFirstWitness(s, log.reasons[m], at[m]);
      }
      if r, j :| 0 <= j < |s| && FirstWitness(r, s, j) && s[j].eventId == id {
        ReportedIffWitnessed(s, r);
        var m :| 0 <= m < |log.reasons| && log.reasons[m] == r;
        FirstIsFirstWitness(s, r, at[m]);
        assert at[m] == j;
      }
    }
    if log.reasons != [] {
      ReportedIffWitnessed(s, log.reasons[0]);
    }
    if r, j :| 0 <= j < |s| && Witness(r, s, j) {
      ReportedIffWitnessed(s, r);
    }
  }

  lemma {:induction false} ReportedIffWitnessed(s: Trace, r: Reason)
    ensures r in ClassifierLog(s, |s|, 0).reasons <==> exists j :: 0 <= j < |s| && Witness(r, s, j)
  {
    LogReasons(WitnessesIn(s), EventIds(s), |s|, 0, r);
    if j :| 0 <= j < |s| && Witness(r, s, j) {
      assert WitnessesIn(s)(r, j);
    }
    if i :| 0 <= i < |s| && WitnessesIn(s)(r, i) {
      assert Witness(r, s, i);
    }
  }

  lemma {:induction false} FirstIsFirstWitness(s: Trace, r: Reason, j: nat)
    requires j < |s|
    ensures First(WitnessesIn(s), r, j) <==> FirstWitness(r, s, j)
  {
    assert forall i: nat | i < |s| :: WitnessesIn(s)(r, i) == Witness(r, s, i);
  }

  /** Reasons come in the order of their earliest witnesses; reasons that share the
      event come in the order of the tests. */
  lemma {:induction false} ReasonsInOrderOfDiscovery(s: Trace, m: nat, m': nat, j: nat, j': nat)
    requires m < m' < |Classification(s).reasonCodes| && j < |s| && j' < |s|
    requires FirstWitness(Classification(s).reasonCodes[m], s, j)
    requires FirstWitness(Classification(s).reasonCodes[m'], s, j')
    ensures Before(j, Rank(Classification(s).reasonCodes[m]), j', Rank(Classification(s).reasonCodes[m']))
  {
    var reasons := Classification(s).reasonCodes;
    var at := LogIsFaithful(WitnessesIn(s), EventIds(s), |s|, 0);
    FirstIsFirstWitness(s, reasons[m], at[m]);
    FirstIsFirstWitness(s, reasons[m'], at[m']);
    assert at[m] == j && at[m'] == j';
  }

  // --------------------------------------------------------- growing rightwards

  lemma {:induction false} LatestStateLocal(s: Trace, t: Trace, n: nat)
    requires n <= |s|
    ensures LatestState(s + t, n) == LatestState(s, n)
  {
    if n > 0 {
      LatestStateLocal(s, t, n - 1);
    }
  }

  /** Whether an event is a witness depends on nothing after it. */
  lemma {:induction false} WitnessLocal(r: Reason, s: Trace, t: Trace, j: nat)
    requires j < |s|
    ensures Witness(r, s + t, j) == Witness(r, s, j)
  {
    var u := s + t;
    assert forall i | 0 <= i < |s| :: u[i] == s[i];
    forall i | 0 <= i < |s|
      ensures ExpectedFrom(u, i) == ExpectedFrom(s, i)
    {
      LatestStateLocal(s, t, i + 1);
    }
    match r
    case ExpectedStateChangeObserved => assert StateChanges(u, j) == StateChanges(s, j);
    case _ =>
  }

  /** A longer window reports everything the shorter one did, first and unchanged. */
  lemma {:induction false} ProgressGrowsRightwards(s: Trace, t: Trace)
    ensures Classification(s).reasonCodes <= Classification(s + t).reasonCodes
    ensures Classification(s).supportingEventIds <= Classification(s + t).supportingEventIds
    ensures MadeProgress(s) ==> MadeProgress(s + t)
  {
    var u := s + t;
    forall r, i: nat | i < |s|
      ensures WitnessesIn(s)(r, i) == WitnessesIn(u)(r, i)
    {
      WitnessLocal(r, s, t, i);
    }
    var short, long := ClassifierLog(s, |s|, 0), ClassifierLog(u, |u|, 0);
    assert EventIds(s) <= EventIds(u);
    if t == [] {
      assert u == s;
    } else {
      LogAgrees(WitnessesIn(s), EventIds(s), WitnessesIn(u), EventIds(u), |s|, 0);
      LogGrows(WitnessesIn(u), EventIds(u), |s|, |u|, 0);
      DedupPrefix(short.eventIds, long.eventIds[|short.eventIds|..]);
      assert short.eventIds + long.eventIds[|short.eventIds|..] == long.eventIds;
    }
    if r, j :| 0 <= j < |s| && Witness(r, s, j) {
      WitnessLocal(r, s, t, j);
    }
  }

  // ------------------------------------------------------------- simple forms

  /** Position `f` is the first with a property. */
  ghost predicate FirstError(s: Trace, f: nat) {
    f < |s| && s[f].kind.Error? && forall i | 0 <= i < f :: !s[i].kind.Error?
  }

  ghost predicate FirstElimination(s: Trace, f: nat) {
    f < |s| && EliminatedOf(s[f]) != [] && forall i | 0 <= i < f :: EliminatedOf(s[i]) == []
  }

  /** Each reason as a plain property of the window: no order of discovery, no memory
      of what was seen. */
  ghost predicate Evident(r: Reason, s: Trace) {
    match r
    case PaginationAdvanced =>
      exists i, j :: 0 <= i < |s| && 0 <= j < |s| && CursorOf(s[i]).Some? && CursorOf(s[j]).Some? &&
                     CursorOf(s[i]) != CursorOf(s[j])
    case BatchItemChanged =>
      exists i, j :: 0 <= i < |s| && 0 <= j < |s| && BatchItemOf(s[i]).Some? && BatchItemOf(s[j]).Some? &&
                     BatchItemOf(s[i]) != BatchItemOf(s[j])
    case ErrorChanged =>
      exists i, j :: 0 <= i < |s| && 0 <= j < |s| && ErrorOf(s[i]).Some? && ErrorOf(s[j]).Some? &&
                     ErrorOf(s[i]) != ErrorOf(s[j])
    case HypothesisInputChanged =>
      exists i, j :: 0 <= i < |s| && 0 <= j < |s| && SameHypothesis(s[i], s[j]) &&
        ExperimentOf(s[i]) != ExperimentOf(s[j])
    case StackFrameAdded =>
      exists f: nat, j, x :: FirstError(s, f) && 0 <= j < |s| && x in FramesOf(s[j]) && x !in FramesOf(s[f])
    case EvidenceAdded =>
      exists j, x :: 0 <= j < |s| && x in EvidenceOf(s[j]) && x !in EvidenceOf(s[0])
    case HypothesisEliminated =>
      exists f: nat, j, x :: FirstElimination(s, f) && 0 <= j < |s| && x in EliminatedOf(s[j]) &&
                             x !in EliminatedOf(s[f])
    case RequiredAcceptanceVerified =>
      exists i, j :: 0 <= i < j < |s| && IsRequiredCheck(s[i]) && IsRequiredCheck(s[j]) &&
                     NonEmpty(s[j].acceptanceDelta).Some?
    case ProductiveHandoff => exists j :: 0 <= j < |s| && IsProductiveHandoff(s[j])
    case ExpectedStateChangeObserved =>
      exists i, j :: 0 <= i < j < |s| && ExpectedFrom(s, i).Some? && IsObservation(s[j]) &&
                     ExpectedFrom(s, i) != StateFingerprint(s[j])
    case PollConverging =>
      exists i, j :: 0 <= i < j < |s| && PollOf(s[i]).Some? && PollOf(s[j]).Some? &&
                     PollOf(s[i]).value.key == PollOf(s[j]).value.key &&
                     PollOf(s[j]).value.distance < PollOf(s[i]).value.distance
  }

  /** Two different keys make some key new: the first one that is not the very first. */
  lemma {:induction false} SomeKeyIsNew<K>(keys: seq<Option<K>>, a: nat, b: nat) returns (j: nat)
    requires a < |keys| && b < |keys| && keys[a].Some? && keys[b].Some? && keys[a] != keys[b]
    ensures j < |keys| && keys[j].Some?
    ensures exists i :: 0 <= i < j && keys[i].Some?
    ensures forall i | 0 <= i < j :: keys[i] != keys[j]
  {
    var f := 0;
    while keys[f].None?
      invariant f <= a && f <= b
      invariant forall i | 0 <= i < f :: keys[i].None?
      decreases |keys| - f
    {
      f := f + 1;
    }
    var c := if keys[a] == keys[f] then b else a;
    j := f + 1;
    while keys[j].None? || keys[j] == keys[f]
      invariant f < j <= c
      invariant forall i | 0 <= i < j :: keys[i].None? || keys[i] == keys[f]
      decreases c - j
    {
      j := j + 1;
    }
  }

  /** An item that the position `f` lacks is new somewhere. */
  lemma {:induction false} SomeItemIsNew<X(!new)>(items: seq<seq<X>>, f: nat, b: nat, x: X) returns (j: nat)
    requires f < |items| && b < |items| && x in items[b] && x !in items[f]
    requires forall i | 0 <= i < f :: items[i] == []
    ensures f < j < |items| && x in items[j] && forall i | 0 <= i < j :: x !in items[i]
  {
    j := f;
    while x !in items[j]
      invariant f <= j < |items| && j <= b
      invariant forall i | 0 <= i < j :: x !in items[i]
      decreases |items| - j
    {
      j := j + 1;
    }
  }

  lemma {:induction false} CursorWitness(s: Trace)
    requires Evident(PaginationAdvanced, s)
    ensures exists j :: 0 <= j < |s| && CursorAdvances(s, j)
  {
    var a, b :| 0 <= a < |s| && 0 <= b < |s| && CursorOf(s[a]).Some? && CursorOf(s[b]).Some? &&
                CursorOf(s[a]) != CursorOf(s[b]);
    var keys := seq(|s|, i requires 0 <= i < |s| => CursorOf(s[i]));
    var j := SomeKeyIsNew(keys, a, b);
    assert forall k | 0 <= k < |s| :: keys[k] == CursorOf(s[k]);
    assert CursorAdvances(s, j);
  }

  lemma {:induction false} BatchWitness(s: Trace)
    requires Evident(BatchItemChanged, s)
    ensures exists j :: 0 <= j < |s| && BatchAdvances(s, j)
  {
    var a, b :| 0 <= a < |s| && 0 <= b < |s| && BatchItemOf(s[a]).Some? && BatchItemOf(s[b]).Some? &&
                BatchItemOf(s[a]) != BatchItemOf(s[b]);
    var keys := seq(|s|, i requires 0 <= i < |s| => BatchItemOf(s[i]));
    var j := SomeKeyIsNew(keys, a, b);
    assert forall k | 0 <= k < |s| :: keys[k] == BatchItemOf(s[k]);
    assert BatchAdvances(s, j);
  }

  lemma {:induction false} ErrorWitness(s: Trace)
    requires Evident(ErrorChanged, s)
    ensures exists j :: 0 <= j < |s| && ErrorChanges(s, j)
  {
    var a, b :| 0 <= a < |s| && 0 <= b < |s| && ErrorOf(s[a]).Some? && ErrorOf(s[b]).Some? &&
                ErrorOf(s[a]) != ErrorOf(s[b]);
    var keys := seq(|s|, i requires 0 <= i < |s| => ErrorOf(s[i]));
    var j := SomeKeyIsNew(keys, a, b);
    assert forall k | 0 <= k < |s| :: keys[k] == ErrorOf(s[k]);
    assert ErrorChanges(s, j);
  }

  lemma {:induction false} ExperimentWitness(s: Trace)
    requires Evident(HypothesisInputChanged, s)
    ensures exists j :: 0 <= j < |s| && InputChanges(s, j)
  {
    var a, b :| 0 <= a < |s| && 0 <= b < |s| && SameHypothesis(s[a], s[b]) && ExperimentOf(s[a]) != ExperimentOf(s[b]);
    var xs := Experiments(s);
    var h := xs[a].value.hypothesis;
    var keys := seq(|s|, i requires 0 <= i < |s| => if xs[i].Some? && xs[i].value.hypothesis == h then xs[i] else None);
    assert keys[a] == xs[a] && keys[b] == xs[b];
    var j := SomeKeyIsNew(keys, a, b);
    var i :| 0 <= i < j && keys[i].Some?;
    assert SameHypothesis(s[i], s[j]);
    forall k | 0 <= k < j
      ensures ExperimentOf(s[k]) != ExperimentOf(s[j])
    {
      assert keys[k] != keys[j];
      assert xs[k] == ExperimentOf(s[k]) && xs[j] == ExperimentOf(s[j]);
    }
    assert InputChanges(s, j);
  }

  lemma {:induction false} FrameWitness(s: Trace)
    requires Evident(StackFrameAdded, s)
    ensures exists j :: 0 <= j < |s| && FrameAppears(s, j)
  {
    var f: nat, b, x :| FirstError(s, f) && 0 <= b < |s| && x in FramesOf(s[b]) && x !in FramesOf(s[f]);
    var items := seq(|s|, i requires 0 <= i < |s| => FramesOf(s[i]));
    var j := SomeItemIsNew(items, f, b, x);
    assert forall i | 0 <= i < j :: items[i] == FramesOf(s[i]);
    assert FrameAppears(s, j);
  }

  lemma {:induction false} EvidenceWitness(s: Trace)
    requires Evident(EvidenceAdded, s)
    ensures exists j :: 0 <= j < |s| && EvidenceAppears(s, j)
  {
    var b, x :| 0 <= b < |s| && x in EvidenceOf(s[b]) && x !in EvidenceOf(s[0]);
    var items := seq(|s|, i requires 0 <= i < |s| => EvidenceOf(s[i]));
    var j := SomeItemIsNew(items, 0, b, x);
    assert forall i | 0 <= i < j :: items[i] == EvidenceOf(s[i]);
    assert EvidenceAppears(s, j);
  }

  lemma {:induction false} EliminationWitness(s: Trace)
    requires Evident(HypothesisEliminated, s)
    ensures exists j :: 0 <= j < |s| && EliminationAppears(s, j)
  {
    var f: nat, b, x :| FirstElimination(s, f) && 0 <= b < |s| && x in EliminatedOf(s[b]) && x !in EliminatedOf(s[f]);
    var items := seq(|s|, i requires 0 <= i < |s| => EliminatedOf(s[i]));
    var j := SomeItemIsNew(items, f, b, x);
    assert forall i | 0 <= i < j :: items[i] == EliminatedOf(s[i]);
    assert EliminationAppears(s, j);
  }

  lemma {:induction false} FirstErrorExists(s: Trace, i: nat) returns (f: nat)
    requires i < |s| && s[i].kind.Error?
    ensures FirstError(s, f) && f <= i
  {
    f := 0;
    while !s[f].kind.Error?
      invariant f <= i && forall k | 0 <= k < f :: !s[k].kind.Error?
      decreases i - f
    {
      f := f + 1;
    }
  }

  lemma {:induction false} FirstEliminationExists(s: Trace, i: nat) returns (f: nat)
    requires i < |s| && EliminatedOf(s[i]) != []
    ensures FirstElimination(s, f) && f <= i
  {
    f := 0;
    while EliminatedOf(s[f]) == []
      invariant f <= i && forall k | 0 <= k < f :: EliminatedOf(s[k]) == []
      decreases i - f
    {
      f := f + 1;
    }
  }

  lemma {:induction false} WitnessIsEvident(r: Reason, s: Trace, j: nat)
    requires j < |s| && Witness(r, s, j)
    ensures Evident(r, s)
  {
    match r
    case StackFrameAdded =>
      var i :| 0 <= i < j && s[i].kind.Error?;
      var f := FirstErrorExists(s, i);
      var x :| x in FramesOf(s[j]) && forall i | 0 <= i < j :: x !in FramesOf(s[i]);
      assert x !in FramesOf(s[f]);
    case HypothesisEliminated =>
      var i :| 0 <= i < j && EliminatedOf(s[i]) != [];
      var f := FirstEliminationExists(s, i);
      var x :| x in EliminatedOf(s[j]) && forall i | 0 <= i < j :: x !in EliminatedOf(s[i]);
      assert x !in EliminatedOf(s[f]);
    case EvidenceAdded =>
      var x :| x in EvidenceOf(s[j]) && forall i | 0 <= i < j :: x !in EvidenceOf(s[i]);
      assert x !in EvidenceOf(s[0]);
    case _ =>
  }

  lemma {:induction false} EvidentHasWitness(r: Reason, s: Trace)
    requires Evident(r, s)
    ensures exists j :: 0 <= j < |s| && Witness(r, s, j)
  {
    match r
    case PaginationAdvanced =>
      CursorWitness(s);
      var j :| 0 <= j < |s| && CursorAdvances(s, j);
      assert Witness(r, s, j);
    case BatchItemChanged =>
      BatchWitness(s);
      var j :| 0 <= j < |s| && BatchAdvances(s, j);
      assert Witness(r, s, j);
    case ErrorChanged =>
      ErrorWitness(s);
      var j :| 0 <= j < |s| && ErrorChanges(s, j);
      assert Witness(r, s, j);
    case HypothesisInputChanged =>
      ExperimentWitness(s);
      var j :| 0 <= j < |s| && InputChanges(s, j);
      assert Witness(r, s, j);
    case StackFrameAdded =>
      FrameWitness(s);
      var j :| 0 <= j < |s| && FrameAppears(s, j);
      assert Witness(r, s, j);
    case EvidenceAdded =>
      EvidenceWitness(s);
      var j :| 0 <= j < |s| && EvidenceAppears(s, j);
      assert Witness(r, s, j);
    case HypothesisEliminated =>
      EliminationWitness(s);
      var j :| 0 <= j < |s| && EliminationAppears(s, j);
      assert Witness(r, s, j);
    case RequiredAcceptanceVerified =>
      var i, j :| 0 <= i < j < |s| && IsRequiredCheck(s[i]) && IsRequiredCheck(s[j]) &&
                  NonEmpty(s[j].acceptanceDelta).Some?;
      assert Witness(r, s, j);
    case ProductiveHandoff =>
      var j :| 0 <= j < |s| && IsProductiveHandoff(s[j]);
      assert Witness(r, s, j);
    case ExpectedStateChangeObserved =>
      var i, j :| 0 <= i < j < |s| && ExpectedFrom(s, i).Some? && IsObservation(s[j]) &&
                  ExpectedFrom(s, i) != StateFingerprint(s[j]);
      assert Witness(r, s, j);
    case PollConverging =>
      var i, j :| 0 <= i < j < |s| && PollOf(s[i]).Some? && PollOf(s[j]).Some? &&
                  PollOf(s[i]).value.key == PollOf(s[j]).value.key &&
                  PollOf(s[j]).value.distance < PollOf(s[i]).value.distance;
      assert Witness(r, s, j);
  }

  /** The one-pass classifier computes the simple forms, reason by reason. */
  lemma {:induction false} ClassifierDecidesEvident(s: Trace)
    ensures forall r :: r in Classification(s).reasonCodes <==> Evident(r, s)
    ensures MadeProgress(s) <==> exists r :: Evident(r, s)
  {
    ClassificationMeaning(s);
    forall r
      ensures Evident(r, s) <==> exists j :: 0 <= j < |s| && Witness(r, s, j)
    {
      if Evident(r, s) {
        EvidentHasWitness(r, s);
      }
      if j :| 0 <= j < |s| && Witness(r, s, j) {
        WitnessIsEvident(r, s, j);
      }
    }
    if r :| Evident(r, s) {
      var j :| 0 <= j < |s| && Witness(r, s, j);
    }
    if r, j :| 0 <= j < |s| && Witness(r, s, j) {
      assert Evident(r, s);
    }
  }

  // ---------------------------------------------------------- growing leftwards

  /** The reasons whose evidence survives when earlier events are put in front. */
  predicate SurvivesOnTheLeft(r: Reason) {
    r !in {StackFrameAdded, EvidenceAdded, HypothesisEliminated}
  }

  lemma {:induction false} LatestStateFromLeft(t: Trace, s: Trace, n: nat)
    requires n <= |s|
    ensures LatestState(s, n).Some? ==> LatestState(t + s, |t| + n) == LatestState(s, n)
  {
    if n > 0 {
      assert (t + s)[|t| + n - 1] == s[n - 1];
      LatestStateFromLeft(t, s, n - 1);
    }
  }

  lemma {:induction false} StateEvidenceFromLeft(t: Trace, s: Trace)
    requires Evident(ExpectedStateChangeObserved, s)
    ensures Evident(ExpectedStateChangeObserved, t + s)
  {
    var u := t + s;
    var i, j :| 0 <= i < j < |s| && ExpectedFrom(s, i).Some? && IsObservation(s[j]) &&
                ExpectedFrom(s, i) != StateFingerprint(s[j]);
    assert u[|t| + i] == s[i] && u[|t| + j] == s[j];
    LatestStateFromLeft(t, s, i + 1);
    assert ExpectedFrom(u, |t| + i) == ExpectedFrom(s, i);
  }

  lemma {:induction false} PollEvidenceFromLeft(t: Trace, s: Trace)
    requires Evident(PollConverging, s)
    ensures Evident(PollConverging, t + s)
  {
    var u := t + s;
    var i, j :| 0 <= i < j < |s| && PollOf(s[i]).Some? && PollOf(s[j]).Some? &&
                PollOf(s[i]).value.key == PollOf(s[j]).value.key &&
                PollOf(s[j]).value.distance < PollOf(s[i]).value.distance;
    assert u[|t| + i] == s[i] && u[|t| + j] == s[j];
    assert PollOf(u[|t| + i]) == PollOf(s[i]) && PollOf(u[|t| + j]) == PollOf(s[j]);
  }

  lemma {:induction false} ExperimentEvidenceFromLeft(t: Trace, s: Trace)
    requires Evident(HypothesisInputChanged, s)
    ensures Evident(HypothesisInputChanged, t + s)
  {
    var u := t + s;
    var i, j :| 0 <= i < |s| && 0 <= j < |s| && SameHypothesis(s[i], s[j]) && ExperimentOf(s[i]) != ExperimentOf(s[j]);
    assert u[|t| + i] == s[i] && u[|t| + j] == s[j];
    assert SameHypothesis(u[|t| + i], u[|t| + j]);
  }

  /** Keys that differ still differ. */
  lemma {:induction false} KeyEvidenceFromLeft(r: Reason, t: Trace, s: Trace)
    requires r in {PaginationAdvanced, BatchItemChanged, ErrorChanged} && Evident(r, s)
    ensures Evident(r, t + s)
  {
    var u := t + s;
    assert forall i | 0 <= i < |s| :: u[|t| + i] == s[i];
    if r == PaginationAdvanced {
      var i, j :| 0 <= i < |s| && 0 <= j < |s| && CursorOf(s[i]).Some? && CursorOf(s[j]).Some? &&
                  CursorOf(s[i]) != CursorOf(s[j]);
      assert CursorOf(u[|t| + i]) != CursorOf(u[|t| + j]);
    } else if r == BatchItemChanged {
      var i, j :| 0 <= i < |s| && 0 <= j < |s| && BatchItemOf(s[i]).Some? && BatchItemOf(s[j]).Some? &&
                  BatchItemOf(s[i]) != BatchItemOf(s[j]);
      assert BatchItemOf(u[|t| + i]) != BatchItemOf(u[|t| + j]);
    } else {
      var i, j :| 0 <= i < |s| && 0 <= j < |s| && ErrorOf(s[i]).Some? && ErrorOf(s[j]).Some? &&
                  ErrorOf(s[i]) != ErrorOf(s[j]);
      assert ErrorOf(u[|t| + i]) != ErrorOf(u[|t| + j]);
    }
  }

  /** For eight of the reasons, progress is also monotone to the left. */
  lemma {:induction false} ProgressGrowsLeftwards(r: Reason, t: Trace, s: Trace)
    requires SurvivesOnTheLeft(r) && Evident(r, s)
    ensures Evident(r, t + s)
  {
    match r
    case HypothesisInputChanged => ExperimentEvidenceFromLeft(t, s);
    case RequiredAcceptanceVerified =>
      var i, j :| 0 <= i < j < |s| && IsRequiredCheck(s[i]) && IsRequiredCheck(s[j]) &&
                  NonEmpty(s[j].acceptanceDelta).Some?;
      assert (t + s)[|t| + i] == s[i] && (t + s)[|t| + j] == s[j];
    case ProductiveHandoff =>
      var j :| 0 <= j < |s| && IsProductiveHandoff(s[j]);
      assert (t + s)[|t| + j] == s[j];
    case ExpectedStateChangeObserved => StateEvidenceFromLeft(t, s);
    case PollConverging => PollEvidenceFromLeft(t, s);
    case _ => KeyEvidenceFromLeft(r, t, s);
  }

  /** For the other three, what was news can turn into a baseline. Evidence survives a
      nonempty extension exactly when the longer window holds a reference that its new
      first event lacks. */
  lemma {:induction false} EvidenceAfterLeftExtension(t: Trace, s: Trace)
    requires t != []
    ensures Evident(EvidenceAdded, t + s) <==>
      exists e, x :: e in t + s && x in EvidenceOf(e) && x !in EvidenceOf(t[0])
  {
    var u := t + s;
    if e, x :| e in u && x in EvidenceOf(e) && x !in EvidenceOf(t[0]) {
      var j :| 0 <= j < |u| && u[j] == e;
      assert x in EvidenceOf(u[j]) && x !in EvidenceOf(u[0]);
    }
  }

  /** Frames: an error event on the left becomes the baseline, and decides alone. */
  lemma {:induction false} FramesAfterAnEarlierError(t: Trace, s: Trace, f: nat)
    requires FirstError(t, f)
    ensures Evident(StackFrameAdded, t + s) <==> exists e, x :: e in t + s && x in FramesOf(e) && x !in FramesOf(t[f])
  {
    var u := t + s;
    assert FirstError(u, f) && u[f] == t[f];
    assert forall g: nat | FirstError(u, g) :: g == f;
    if e, x :| e in u && x in FramesOf(e) && x !in FramesOf(t[f]) {
      var j :| 0 <= j < |u| && u[j] == e;
      assert FirstError(u, f) && x in FramesOf(u[j]) && x !in FramesOf(u[f]);
    }
  }

  lemma {:induction false} FramesWithoutAnEarlierError(t: Trace, s: Trace)
    requires forall i | 0 <= i < |t| :: !t[i].kind.Error?
    ensures Evident(StackFrameAdded, t + s) <==> Evident(StackFrameAdded, s)
  {
    var u := t + s;
    if g: nat, j, x :| FirstError(u, g) && 0 <= j < |u| && x in FramesOf(u[j]) && x !in FramesOf(u[g]) {
      assert u[g] == s[g - |t|] && u[j] == s[j - |t|];
      assert forall i | 0 <= i < g - |t| :: s[i] == u[|t| + i];
      assert FirstError(s, g - |t|);
    }
    if g: nat, j, x :| FirstError(s, g) && 0 <= j < |s| && x in FramesOf(s[j]) && x !in FramesOf(s[g]) {
      assert u[|t| + g] == s[g] && u[|t| + j] == s[j];
      assert FirstError(u, |t| + g);
    }
  }

  /** Eliminated hypotheses: the same, for a qualifying plan on the left. */
  lemma {:induction false} EliminationsAfterAnEarlierPlan(t: Trace, s: Trace, f: nat)
    requires FirstElimination(t, f)
    ensures Evident(HypothesisEliminated, t + s) <==>
      exists e, x :: e in t + s && x in EliminatedOf(e) && x !in EliminatedOf(t[f])
  {
    var u := t + s;
    assert FirstElimination(u, f) && u[f] == t[f];
    assert forall g: nat | FirstElimination(u, g) :: g == f;
    if e, x :| e in u && x in EliminatedOf(e) && x !in EliminatedOf(t[f]) {
      var j :| 0 <= j < |u| && u[j] == e;
      assert FirstElimination(u, f) && x in EliminatedOf(u[j]) && x !in EliminatedOf(u[f]);
    }
  }

  lemma {:induction false} EliminationsWithoutAnEarlierPlan(t: Trace, s: Trace)
    requires forall i | 0 <= i < |t| :: EliminatedOf(t[i]) == []
    ensures Evident(HypothesisEliminated, t + s) <==> Evident(HypothesisEliminated, s)
  {
    var u := t + s;
    if g: nat, j, x :| FirstElimination(u, g) && 0 <= j < |u| && x in EliminatedOf(u[j]) && x !in EliminatedOf(u[g]) {
      assert u[g] == s[g - |t|] && u[j] == s[j - |t|];
      assert forall i | 0 <= i < g - |t| :: s[i] == u[|t| + i];
      assert FirstElimination(s, g - |t|);
    }
    if g: nat, j, x :| FirstElimination(s, g) && 0 <= j < |s| && x in EliminatedOf(s[j]) && x !in EliminatedOf(s[g]) {
      assert u[|t| + g] == s[g] && u[|t| + j] == s[j];
      assert FirstElimination(u, |t| + g);
    }
  }
}

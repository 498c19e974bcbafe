/** What counts as progress in a window of trace events, stated by witnesses: an
    event, and where a baseline is needed, an earlier event it differs from. */
module Progress {
  import opened Prelude
  import opened Fingerprints
  import opened ReasonLogs
  import opened TraceEvents

  // ------------------------------------------------------------------ markers

  predicate IsScalar(j: Json) {
    !j.Arr? && !j.Obj?
  }

  /** The pagination cursor; `1`, `1.0` and `true` are different cursors. */
  function CursorOf(e: TraceEvent): Option<Json> {
    if e.kind in {ToolResult, StateObservation} && Field(e, "pagination_cursor").Some? &&
       IsScalar(Field(e, "pagination_cursor").value)
    then Field(e, "pagination_cursor")
    else None
  }

  function BatchItemOf(e: TraceEvent): Option<string> {
    if e.kind in {ToolResult, StateObservation} then StringField(e, "batch_item_id") else None
  }

  const HYPOTHESIS_INPUT := "hypothesis_test_input"
  const NESTED_VOLATILE_PATHS: seq<string> :=
    ["/hypothesis_test_input/event_id", "/hypothesis_test_input/timestamp", "/hypothesis_test_input/request_id"]

  /** The digest of one test input; an input without a canonical form has none. */
  ghost function InputFingerprint(input: Json): Option<Json> {
    var fingerprint := FingerprintOf(Obj(map[HYPOTHESIS_INPUT := input]), None,
                                     if input.Obj? then NESTED_VOLATILE_PATHS else []);
    if fingerprint.Ok? then Some(fingerprint.value.digest) else None
  }

  datatype Experiment = Experiment(hypothesis: string, input: Json)

  /** A tool call that names a hypothesis and the input that tests it. */
  ghost function ExperimentOf(e: TraceEvent): Option<Experiment> {
    var id := NonEmpty(StringField(e, "hypothesis_id"));
    var input := Field(e, HYPOTHESIS_INPUT);
    if e.kind.ToolCall? && id.Some? && input.Some? && InputFingerprint(input.value).Some?
    then Some(Experiment(id.value, InputFingerprint(input.value).value))
    else None
  }

  function ErrorOf(e: TraceEvent): Option<string> {
    if e.kind.Error? then NonEmpty(e.errorFingerprint) else None
  }

  /** The stack frames of an error event; none at all when they are malformed. */
  function FramesOf(e: TraceEvent): seq<string> {
    if e.kind.Error? && StringsField(e, "stack_frames").Some? then StringsField(e, "stack_frames").value else []
  }

  function EvidenceOf(e: TraceEvent): seq<string> {
    if e.evidenceRefs.Some? then e.evidenceRefs.value else []
  }

  predicate AllNonEmpty(names: seq<string>) {
    names != [] && forall name | name in names :: name != ""
  }

  /** The hypotheses a plan eliminates; empty when the marker is absent or malformed. */
  function EliminatedOf(e: TraceEvent): seq<string> {
    var names := StringsField(e, "eliminated_hypotheses");
    if e.kind.Plan? && names.Some? && AllNonEmpty(names.value) then names.value else []
  }

  predicate IsRequiredCheck(e: TraceEvent) {
    e.kind.AcceptanceCheck? && Field(e, "required_verification") == Some(Bool(true))
  }

  predicate IsProductiveHandoff(e: TraceEvent) {
    e.kind.Handoff? &&
    (NonEmpty(StringField(e, "new_plan_id")).Some? ||
     (StringsField(e, "new_capabilities").Some? && AllNonEmpty(StringsField(e, "new_capabilities").value)))
  }

  function PollNumber(j: Option<Json>): Option<real> {
    match j
    case Some(Int(n)) => Some(n as real)
    case Some(Float(q)) => Some(q)
    case _ => None
  }

  datatype PollKey = PollKey(pollId: string, target: real)

  datatype Poll = Poll(key: PollKey, distance: real)

  /** A poll reading as its exact distance from its target. */
  function PollOf(e: TraceEvent): Option<Poll> {
    var id := NonEmpty(StringField(e, "poll_id"));
    var reading := PollNumber(Field(e, "poll_value"));
    var target := PollNumber(Field(e, "poll_target"));
    if e.kind.StateObservation? && id.Some? && reading.Some? && target.Some?
    then Some(Poll(PollKey(id.value, target.value),
                   if reading.value < target.value then target.value - reading.value else reading.value - target.value))
    else None
  }

  /** The last nonempty state fingerprint before position `n`. */
  function LatestState(s: Trace, n: nat): Option<string>
    requires n <= |s|
  {
    if n == 0 then None
    else if StateFingerprint(s[n - 1]).Some? then StateFingerprint(s[n - 1])
    else LatestState(s, n - 1)
  }

  /** The baseline of an expectation at `i`: its own state, or the latest one before it. */
  function ExpectedFrom(s: Trace, i: nat): Option<string>
    requires i < |s|
  {
    if ExpectsChange(s[i]) then LatestState(s, i + 1) else None
  }

  // ---------------------------------------------------------------- witnesses

  ghost predicate CursorAdvances(s: Trace, j: nat)
    requires j < |s|
  {
    CursorOf(s[j]).Some? &&
    (exists i :: 0 <= i < j && CursorOf(s[i]).Some?) &&
    forall i | 0 <= i < j :: CursorOf(s[i]) != CursorOf(s[j])
  }

  ghost predicate BatchAdvances(s: Trace, j: nat)
    requires j < |s|
  {
    BatchItemOf(s[j]).Some? &&
    (exists i :: 0 <= i < j && BatchItemOf(s[i]).Some?) &&
    forall i | 0 <= i < j :: BatchItemOf(s[i]) != BatchItemOf(s[j])
  }

  ghost predicate SameHypothesis(a: TraceEvent, b: TraceEvent) {
    ExperimentOf(a).Some? && ExperimentOf(b).Some? &&
    ExperimentOf(a).value.hypothesis == ExperimentOf(b).value.hypothesis
  }

  ghost predicate InputChanges(s: Trace, j: nat)
    requires j < |s|
  {
    (exists i :: 0 <= i < j && SameHypothesis(s[i], s[j])) &&
    forall i | 0 <= i < j :: ExperimentOf(s[i]) != ExperimentOf(s[j])
  }

  ghost predicate ErrorChanges(s: Trace, j: nat)
    requires j < |s|
  {
    ErrorOf(s[j]).Some? &&
    (exists i :: 0 <= i < j && ErrorOf(s[i]).Some?) &&
    forall i | 0 <= i < j :: ErrorOf(s[i]) != ErrorOf(s[j])
  }

  ghost predicate FrameAppears(s: Trace, j: nat)
    requires j < |s|
  {
    (exists i :: 0 <= i < j && s[i].kind.Error?) &&
    exists frame :: frame in FramesOf(s[j]) && forall i | 0 <= i < j :: frame !in FramesOf(s[i])
  }

  ghost predicate EvidenceAppears(s: Trace, j: nat)
    requires j < |s|
  {
    j > 0 && exists r :: r in EvidenceOf(s[j]) && forall i | 0 <= i < j :: r !in EvidenceOf(s[i])
  }

  ghost predicate EliminationAppears(s: Trace, j: nat)
    requires j < |s|
  {
    (exists i :: 0 <= i < j && EliminatedOf(s[i]) != []) &&
    exists h :: h in EliminatedOf(s[j]) && forall i | 0 <= i < j :: h !in EliminatedOf(s[i])
  }

  ghost predicate AcceptanceVerified(s: Trace, j: nat)
    requires j < |s|
  {
    IsRequiredCheck(s[j]) && NonEmpty(s[j].acceptanceDelta).Some? &&
    exists i :: 0 <= i < j && IsRequiredCheck(s[i])
  }

  ghost predicate StateChanges(s: Trace, j: nat)
    requires j < |s|
  {
    IsObservation(s[j]) &&
    exists i :: 0 <= i < j && ExpectedFrom(s, i).Some? && ExpectedFrom(s, i) != StateFingerprint(s[j])
  }

  ghost predicate PollConverges(s: Trace, j: nat)
    requires j < |s|
  {
    PollOf(s[j]).Some? &&
    exists i :: 0 <= i < j && PollOf(s[i]).Some? && PollOf(s[i]).value.key == PollOf(s[j]).value.key &&
                PollOf(s[j]).value.distance < PollOf(s[i]).value.distance
  }

  /** Event `j` of the window is evidence of progress for reason `r`. */
  ghost predicate Witness(r: Reason, s: Trace, j: nat)
    requires j < |s|
  {
    match r
    case PaginationAdvanced => CursorAdvances(s, j)
    case BatchItemChanged => BatchAdvances(s, j)
    case HypothesisInputChanged => InputChanges(s, j)
    case ErrorChanged => ErrorChanges(s, j)
    case StackFrameAdded => FrameAppears(s, j)
    case EvidenceAdded => EvidenceAppears(s, j)
    case HypothesisEliminated => EliminationAppears(s, j)
    case RequiredAcceptanceVerified => AcceptanceVerified(s, j)
    case ProductiveHandoff => IsProductiveHandoff(s[j])
    case ExpectedStateChangeObserved => StateChanges(s, j)
    case PollConverging => PollConverges(s, j)
  }

  ghost predicate MadeProgress(s: Trace) {
    exists r, j :: 0 <= j < |s| && Witness(r, s, j)
  }

  /** Event `j` is the earliest evidence for reason `r`. */
  ghost predicate FirstWitness(r: Reason, s: Trace, j: nat)
    requires j < |s|
  {
    Witness(r, s, j) && forall i | 0 <= i < j :: !Witness(r, s, i)
  }

  /** All witnesses of a window, as one judgement. */
  ghost function WitnessesIn(s: Trace): Judge {
    (r: Reason, j: nat) => j < |s| && Witness(r, s, j)
  }
}

# Verified model of the semantic reheating pipeline

This project models the deterministic analysis pipeline of `src/semantic_reheating` and
the replay and campaign code of `benchmark`, and proves what they promise.

A validated trace of agent events goes through six detectors. Each scans a bounded window
once, keeps a few baselines or first-occurrence indexes, and asks the progress classifier
about sub-windows. Findings become a diagnosis, a decision on a safety ladder, and an
advisory envelope that a second validator checks again before a recovery instruction is
built from it. Around this sit the JSON boundary (graph validation, canonical
fingerprints with excluded pointers), the replay of recorded traces, and a capped live
campaign whose artifacts have to satisfy their own validators.

The loops of the source are methods with loop invariants, proved equal to specification
functions; what the source promises is then proved about those functions, over all
inputs. `PendingStateExpectations` is a class, as in the source. Every lemma switches
automatic induction off, so that each induction is the one written out.

| module | source |
|---|---|
| `JsonPointers`, `Fingerprints`, `Splitting` | `canonical.py` |
| `GraphValidation` | `validation.py`, `_ensure_json_value` |
| `TraceEvents`, `RunPolicies` | `models.py`, `validation.py`, `detectors/__init__.py` |
| `Progress`, `ReasonLogs`, `ProgressScan`, `ProgressTheorems`, `ProgressBaselines`, `PayloadProgress` | `progress.py` |
| `FirstOutcomes`, `DetectorOutcomes`, `ExactRepetition`, `CycleDetection`, `RepeatedError`, `UnchangedState`, `AcceptanceStall`, `BudgetBurn`, `DetectorEvidence`, `Detectors`, `DetectorWindows` | `detectors/` |
| `Diagnosis` | `diagnosis.py` |
| `Decisions` | `policies.py` |
| `HardStops`, `HardStopEvents`, `Envelopes`, `EnvelopeTheorems`, `Controller`, `AnalysisTheorems`, `AdviceContents`, `AnalysisSuccess`, `InjectedFindings`, `CollectionSuccess`, `QuietRuns`, `StalledRuns`, `LongRuns` | `controller.py` |
| `TraceFraming`, `CorpusRevision` | `benchmark/replay.py` |
| `CampaignRuns`, `CampaignArtifacts`, `CampaignTheorems`, `CampaignTotals`, `ArtifactFaults` | `benchmark/live/` |

## Main results

* The one-pass progress classifier reports each of its eleven reasons exactly when a
  declarative witness exists, supported by the earliest one
  (`ProgressTheorems.ClassificationMeaning`); and each reason is a property of the events
  and their payload fields alone (`PayloadProgress.ReportedIffDocumented`).
* Two payloads have one identity exactly when they are the same JSON value apart from their
  volatile fields (`Fingerprints.CanonicalMeaning`, `TraceEvents.AlikeExactly`), and what the
  detectors and the hard stops compare is stated on events by it (`DetectorEvidence`,
  `HardStopEvents`).
* A detector judges the last events of a trace, as many as its window holds, and nothing
  before them (`DetectorWindows.RepetitionWindow`, `NoProgressWindow`,
  `LongRuns.LongRunReachesLadder`).
* Iterative validation of an arbitrary object graph accepts exactly the finite trees within
  the limits (`GraphValidation.AcceptedIffFiniteWithinLimits`, `EnsureJsonValue`).
* A hard-stopped run stays stopped under every continuation and any other policy ladder
  (`AnalysisTheorems.HardStopPersists`). Every deterministic decision is characterized by
  the trace: when it stops (`AnalysisTheorems.StopsExactly`), and when it takes a rung of
  the ladder, escalates or continues (`AnalysisTheorems.DecidesExactly`).
* An injected semantic detector never relaxes a decision
  (`AnalysisTheorems.SemanticNeverRelaxes`). A finding it injects is collected as it is and
  counts as a signal of its class (`InjectedFindings.InjectedFindingIsCollected`,
  `InjectedDecidesExactly`), and every other answer is a notice or an error
  (`UnavailableDetector`, `RefusedAnswer`).
* A valid run of plain messages that reaches no limit, with no finding injected and no
  failure of the injected detector, is never interrupted: its analysis says to continue
  whenever it succeeds, and it succeeds exactly when the run id is a safe identifier and
  the last event id is one the finding contract accepts (`QuietRuns.QuietRunContinues`).
* Exactly when an analysis succeeds: the findings of a deterministic one are collected
  exactly when no comparison lacks an identity and the finding contract accepts every name
  (`CollectionSuccess.CollectsExactly`), and what was collected becomes a decision exactly
  when the names in it are safe and its limits hold
  (`AnalysisSuccess.AnalysisSucceedsExactly`).
* A matched finding survives every extension of the trace within its window
  (`Detectors.MatchIsStable`).
* First-occurrence indexes lose nothing against all pairs (`HardStops.RiskMeaning`,
  `ExactRepetition.ExactRepetitionMeaning`, `RepeatedError.RepeatedErrorMeaning`), and the
  baselines a scan keeps mean properties of the events (`CycleDetection.CycleMeaning`,
  `UnchangedState.UnchangedExactly`, `AcceptanceStall.StallExactly`,
  `BudgetBurn.BurnMeaning`).
* Streaming a trace in any chunks is parsing it whole
  (`TraceFraming.StreamingIsParsing`).
* A campaign's artifacts pass their validators exactly when its names fit, its usage is
  within the caps and no cap is first reached on the last cell
  (`CampaignTheorems.CampaignSucceedsExactly`). Field by field, what it declares as consumed
  is the sum over its records, and each record is the sum over the events it consumed
  (`CampaignTotals.EmittedTotals`, `RunAccounts`).

## Where the code does less than one might expect

* **Progress is not monotone under left extension.** The first event of a window is the
  baseline of its evidence references (and the first error and the first qualifying plan are
  those of frames and eliminations), so putting events in front can remove these three
  reasons: `ProgressBaselines.EvidenceIsNotLeftMonotone`, `FramesAreNotLeftMonotone` and
  `EliminationsAreNotLeftMonotone` are admissible windows of three events, and the lemmas
  of `ProgressTheorems` say exactly when each reason survives. Stack frames need only some
  earlier error event as baseline, with or without frames of its own.
* **Polls are compared with the previous value.** The documentation calls the first value per
  poll and target the baseline; the code keeps the latest one. Distances 5, 7, 6 converge for
  the code and never go below the first (`ProgressBaselines.PollsCanDiffer`). What the
  documentation asks for, the code reports; the two differ exactly when some reading falls
  and none is ever closer than the first of its poll
  (`ProgressBaselines.PollsFollowTheLatestReading`).
* **Some payloads have no identity.** The default exclusions meet a top-level array. A payload
  that is a string is loaded as JSON text, and if that gives a string again, this one is
  loaded once more when it is canonicalized: the text `"abc"`, quotes included, has no
  identity, and `"1"`, quotes included, has that of the number 1
  (`TraceEvents.IdentityFails`, `QuotedTextHasNoIdentity`, `QuotedNumberIsTheNumber`).
* **A stalled pair of acceptance checks can be dropped**, when progress of another check is
  documented between the two, even if the classifier finds none between them:
  `AcceptanceStall.StallExactly`, `AcceptanceStall.StalledPairCanBeDropped`.
* **A later expectation of a state change can be dropped.** Only the first pending
  expectation of each state is judged, and every observation ends them all. If progress
  follows the first one and none the second, nothing is reported:
  `UnchangedState.UnchangedExactly`, `UnchangedState.StalledExpectationCanBeDropped`.
* **A reheat can be refused by the second validator**, when read-only actions may not be
  repeated or a signal has weight zero: `AnalysisTheorems.ReheatIsAcceptedExactly`, and the
  analysis of a concrete run of four events in `StalledRuns.ReheatCanBeRefused`.
* **Names can make an analysis fail.** The trace contract accepts any string as run id and
  event id. A finding has to name events whose ids match an identifier pattern, and a
  schema lets a final newline through that the later records refuse. So a run of plain
  messages fails on the id of its last event (`QuietRuns.QuietRunContinues`), and a
  detected repetition on an id that ends in a newline
  (`StalledRuns.NewlineFailsTheAnalysis`, `AnalysisSuccess.AnalysisSucceedsExactly`).
* **A legal hypothesis can make an analysis fail**, because it is escaped before it is loaded
  again: an admissible plan that rejects a hypothesis of 200000 control characters is never
  analysed (`QuietRuns.LegalHypothesisFailsTheAnalysis`, `Diagnosis.EncodableBounds`).
* **A campaign can refuse its own complete results**, when a cap is first reached on the
  last cell, because the result then is a partial campaign with full coverage; and it
  refuses every overshoot, because the result schema's maxima are the campaign's caps:
  `CampaignTheorems.CampaignSucceedsExactly`, `CampaignTheorems.FullCampaignCanBeRefused`.
* **A campaign can be refused for a name, after all its runs.** The artifact schemas limit
  identifiers to 128 characters, and the configuration schemas do not: a task name of 129
  letters is approved and run to the end (`CampaignTheorems.LongNameIsRefused`).
* **Detector thresholds decide nothing** for the six detectors, whose scores are 0 or 1:
  `Detectors.DetectionMeaning`.

## Model

| member | source | states |
|---|---|---|
| JsonPointers.UnescapeIsSubstitution | src/semantic_reheating/canonical.py:138-156 | One left-to-right decoding pass equals the two substitutions of section 4 of RFC 6901, `~1` first and then `~0`, on every valid token. |
| JsonPointers.UnescapeEscape | src/semantic_reheating/canonical.py:138-156 | Escaping any key gives a valid token that decodes to the key again. |
| JsonPointers.EscapeUnescape | src/semantic_reheating/canonical.py:138-156 | Escaping what a valid token decodes to gives the token back. |
| JsonPointers.PointersAreEncodings | src/semantic_reheating/canonical.py:30-43 | The strings recognized as non-root pointers are exactly the encodings of nonempty key paths. |
| JsonPointers.PartsInjective | src/semantic_reheating/canonical.py:138-156 | Two different pointers never name the same key path. |
| JsonPointers.IsNonRootJsonPointer | src/semantic_reheating/canonical.py:30-43 | The character loop accepts exactly the syntax of section 3 of RFC 6901, without the root pointer. |
| JsonPointers.DecodeToken | src/semantic_reheating/canonical.py:142-155 | The index-advancing loop decodes one token to what the recursive decoder gives. |
| JsonPointers.PointerParts | src/semantic_reheating/canonical.py:138-156 | The parts of a pointer, for every recognized pointer. |
| Fingerprints.RemovePathMeaning | src/semantic_reheating/canonical.py:171-184 | Removing one path fails exactly when the path meets an array, reports exactly whether it resolved, and leaves the tree without that path. |
| Fingerprints.DropTwice | src/semantic_reheating/canonical.py:202-207 | Dropping one set of paths after another drops their union. |
| Fingerprints.PruningIsIdempotent | src/semantic_reheating/canonical.py:202-207 | After pruning, none of the paths resolves, and pruning again changes nothing. |
| Fingerprints.SortExclusionsMeaning | src/semantic_reheating/canonical.py:159-168 | The exclusion plan keeps every pointer once, deeper paths first and equally deep ones by the text of their pointers. |
| Fingerprints.PlanIgnoresInputOrder | src/semantic_reheating/canonical.py:159-168 | The plan depends on the set of pointers only, not on their order or on repetitions. |
| Fingerprints.LexLessMeaning | src/semantic_reheating/canonical.py:159-168 | The order of texts: a proper beginning first, and otherwise by the first character in which they differ. |
| Fingerprints.PruneStep | src/semantic_reheating/canonical.py:202-207 | One removal of the plan keeps what the rest of the plan meets and resolves as it was in the original tree. |
| Fingerprints.Prune | src/semantic_reheating/canonical.py:202-207 | The deletion loop fails exactly when some path meets an array of the ORIGINAL tree, and otherwise returns the dropped tree and exactly the pointers that resolved in it. |
| Fingerprints.PlanGivesFingerprint | src/semantic_reheating/canonical.py:187-211 | The deepest-first plan gives the order-free definition: all exclusions dropped at once, and the set of those that resolved. |
| Fingerprints.FingerprintByPruning | src/semantic_reheating/canonical.py:187-211 | Sorting and pruning give the specified fingerprint or failure; a tree that is a string is loaded again before it is digested. |
| Fingerprints.ActionFingerprint | src/semantic_reheating/canonical.py:187-211 | The whole boundary - integers, pointers, exclusions, pruning, second load of a string, digest - equals the order-free definition, error codes included; equal digests are equal values by `CanonicalMeaning`. |
| Fingerprints.DefaultFingerprint | src/semantic_reheating/canonical.py:92-135 | With the default exclusions a payload has no fingerprint exactly when it is a top-level array, holds an integer beyond 2^53 - 1, or is a string that does not load or loads to such an integer; the digest is of the payload without its three volatile top-level fields, or of what the string loads to. |
| Fingerprints.CanonicalMeaning | src/semantic_reheating/canonical.py:119-135 | Canonical forms are equal exactly for the same values: numbers by value, null, flags and texts as they are, arrays item by item, objects key by key. |
| Fingerprints.SafeIntegersMeaning | src/semantic_reheating/canonical.py:79-89 | Integers are exact exactly when none of 2^53 or more, either way, is found at the end of any path of keys and indexes. |
| GraphValidation.AcceptedIffFiniteWithinLimits | src/semantic_reheating/validation.py:77-160 | Recursive validation accepts an object graph exactly when it unfolds to a finite tree within the node, depth, character, key and integer limits. |
| GraphValidation.EnsureJsonValue | src/semantic_reheating/validation.py:77-160 | The explicit-stack traversal terminates on every graph, shared or cyclic, and gives what recursive validation gives, error code included; its active set always is the set of containers on the path. |
| GraphValidation.CyclesAreRefused | src/semantic_reheating/validation.py:125-157 | A value that reaches itself again is never accepted. |
| GraphValidation.NoContainerInsideItself | src/semantic_reheating/validation.py:125-157 | No container of a finite unfolding occurs inside itself. |
| GraphValidation.UnfoldingUnique | src/semantic_reheating/validation.py:77-160 | A graph unfolds to at most one tree. |
| GraphValidation.VisitSound | src/semantic_reheating/validation.py:77-160 | What recursive validation accepts has an unfolding, and the counters are its node and character counts. |
| GraphValidation.VisitComplete | src/semantic_reheating/validation.py:77-160 | A finite unfolding within the limits is accepted. |
| GraphValidation.RunPushed | src/semantic_reheating/validation.py:83-157 | Working off pushed children is visiting them one after the other. |
| GraphValidation.OpenContainer | src/semantic_reheating/validation.py:125-157 | Opening a container - key checks, counters and pushing its children - is one step of the recursive visit. |
| GraphValidation.PlainIntegers | src/semantic_reheating/validation.py:113-116 | An integer is accepted exactly when its magnitude is below 2^4096. |
| GraphValidation.BitLengthMeaning | src/semantic_reheating/validation.py:113-116 | So many bits are enough for exactly the numbers below that power of two. |
| TraceEvents.ComputeIdentity | src/semantic_reheating/detectors/__init__.py:87-104 | The identity of an event: its declared digest, else the fingerprint of its payload, else none; a failing fingerprint is an error, also where a text loads to a string that does not load again. |
| TraceEvents.IdentityFails | src/semantic_reheating/detectors/__init__.py:87-104 | Exactly which events have no computable identity: an array payload, an integer beyond the safe range, payload text that is no JSON value or one of these, and text of a string whose own text is no JSON value or holds such an integer. |
| TraceEvents.IdentityMeaning | src/semantic_reheating/detectors/__init__.py:87-104 | The identity of an event in each case: its nonempty declared digest, the content of its payload after one or two loads, no identity, or an error exactly when the payload has no content. |
| TraceEvents.AlikeExactly | src/semantic_reheating/detectors/__init__.py:87-104 | Two events have one identity exactly when they declare one digest or their payloads have the same value as content. |
| TraceEvents.IdentifierMeaning | src/semantic_reheating/diagnosis.py:72-89 | A safe identifier has 1 to 128 ASCII letters, digits, dots, underscores, colons and hyphens and starts with a letter or digit; a schema also takes one newline after at most 127 of them. |
| TraceEvents.QuotedTextHasNoIdentity | src/semantic_reheating/canonical.py:209-209 | The payload text `"abc"`, quotes included, has no identity. |
| TraceEvents.QuotedNumberIsTheNumber | src/semantic_reheating/canonical.py:209-209 | The payload 1 and the payload text `"1"`, quotes included, have the same identity. |
| TraceEvents.SameIdentity | src/semantic_reheating/canonical.py:187-211 | Two object payloads have one identity exactly when they are the same value, as a recursive relation on JSON, outside the three volatile top-level fields. |
| ProgressScan.ClassifyProgress | src/semantic_reheating/progress.py:228-375 | The one-pass loop succeeds exactly on contiguous windows and returns the classification that the witness conditions define, and `PayloadProgress` states on payload fields. |
| ProgressScan.PendingStateExpectations.Observe | src/semantic_reheating/progress.py:220-225 | Reports a change exactly when SOME pending baseline differs from the observation, and then forgets all of them. |
| ProgressScan.PendingStateExpectations.Add | src/semantic_reheating/progress.py:216-218 | Adds one baseline to the pending set. |
| ProgressScan.SomeOther | src/semantic_reheating/progress.py:222-222 | `more than one, or not contained` means that some pending baseline differs. |
| ProgressScan.PendingStep | src/semantic_reheating/progress.py:255-269 | How the set of all expectation baselines before an event grows with it, and that an observation is a state change exactly when some baseline in that set differs from it. |
| ProgressScan.TestPoll | src/semantic_reheating/progress.py:344-359 | Comparing with the last distance per poll and target detects convergence exactly when any earlier distance was larger; a distance is how far a reading is from its target (`PayloadProgress.PollIs`). |
| ProgressScan.TestState | src/semantic_reheating/progress.py:255-269 | The pending-set test fires exactly when an expectation from some other baseline precedes the observation. |
| ProgressScan.TestExperiment | src/semantic_reheating/progress.py:360-373 | A hypothesis input is new exactly when an earlier event tested the same hypothesis with another input and none with this one. |
| ProgressScan.NewInputMeaning | src/semantic_reheating/progress.py:360-373 | The per-hypothesis set of inputs means exactly that. |
| ProgressScan.TestFrames | src/semantic_reheating/progress.py:320-327 | A stack frame is new exactly when an error precedes and no earlier error had it. |
| ProgressScan.TestElimination | src/semantic_reheating/progress.py:297-308 | An elimination is new exactly when a qualifying plan precedes and none eliminated it. |
| ProgressScan.TestEvidence | src/semantic_reheating/progress.py:291-296 | A reference is new exactly when an event precedes and none carried it. |
| ProgressScan.ValidateWindow | src/semantic_reheating/progress.py:117-140 | A window is valid exactly when it is one run without gaps. |
| ProgressTheorems.ClassificationMeaning | src/semantic_reheating/progress.py:228-375 | For every window, each of the eleven reasons is reported exactly when its witness exists, at most once, and the supporting events are those of the earliest witnesses. |
| ProgressTheorems.ReasonsInOrderOfDiscovery | src/semantic_reheating/progress.py:199-200 | Reasons are listed in the order of their earliest witnesses. |
| ReasonLogs.AssessmentIsValid | src/semantic_reheating/progress.py:81-105 | The assessment's own state check never fails on what the classifier builds. |
| ReasonLogs.LogIsFaithful | src/semantic_reheating/progress.py:252-254 | Recording each reason at most once, in order, keeps exactly the first occurrence of each. |
| ProgressTheorems.WitnessLocal | src/semantic_reheating/progress.py:254-374 | Whether an event is a witness depends on the events up to it only. |
| ProgressTheorems.ProgressGrowsRightwards | src/semantic_reheating/progress.py:228-375 | Appending events never removes a reason or its supporting event. |
| ProgressTheorems.ClassifierDecidesEvident | src/semantic_reheating/progress.py:1-41 | Simple forms, without order of discovery and without memory, decide each reason: two different keys, a reference, frame or elimination that the first event, error or plan lacks, an earlier poll distance that was larger. |
| PayloadProgress.ReportedIffDocumented | src/semantic_reheating/progress.py:1-41 | For each of the eleven reasons: it is reported exactly when the events document it, stated on their kinds and payload fields. Two different cursors, items or error fingerprints; one hypothesis tested with two inputs that differ as values outside their volatile fields; a frame, reference or elimination that the first error, event or qualifying plan lacks; a second required check with a delta; a handoff with a plan or capabilities; a state other than the latest one known when a change was expected; and a poll reading closer to its target. |
| PayloadProgress.ReadingsOf | src/semantic_reheating/progress.py:181-196 | Two readings u and then v of one poll with one target t converge exactly when u < v < 2t - u or 2t - u < v < u. |
| PayloadProgress.SameInput | src/semantic_reheating/progress.py:165-178 | Two inputs of a hypothesis are one exactly when they are the same value apart from the volatile fields of an object input. |
| PayloadProgress.InputIs | src/semantic_reheating/progress.py:165-178 | An input has a fingerprint exactly when its integers are exact, and it is that of the input without those fields. |
| PayloadProgress.StateAt | src/semantic_reheating/progress.py:255-269 | The latest known state at an event is the last nonempty state fingerprint up to it, on whatever event. |
| ProgressBaselines.PollsFollowTheLatestReading | src/semantic_reheating/progress.py:344-359 | Convergence is reported exactly when some poll reading is closer than the one before it; this includes every reading closer than the first one, as documented, and differs from the documented condition exactly when some reading falls and none is closer than the first. |
| ProgressBaselines.PollsCanDiffer | src/semantic_reheating/progress.py:37-40 | An admissible window of distances 5, 7, 6 on which convergence is reported and the documented condition fails. |
| ProgressTheorems.ProgressGrowsLeftwards | src/semantic_reheating/progress.py:228-375 | Prepending events keeps eight of the eleven reasons. |
| ProgressBaselines.EvidenceIsNotLeftMonotone | src/semantic_reheating/progress.py:291-296 | An admissible window whose evidence reason, and all progress with it, disappears when one event is put in front. |
| ProgressBaselines.FramesAreNotLeftMonotone | src/semantic_reheating/progress.py:320-327 | The same for stack frames. |
| ProgressBaselines.EliminationsAreNotLeftMonotone | src/semantic_reheating/progress.py:297-308 | The same for eliminated hypotheses. |
| ProgressTheorems.EvidenceAfterLeftExtension | src/semantic_reheating/progress.py:291-296 | Exactly when the evidence reason is there after events are put in front. |
| ProgressTheorems.FramesAfterAnEarlierError | src/semantic_reheating/progress.py:320-327 | Exactly when the frame reason is there after a front with an error. |
| ProgressTheorems.FramesWithoutAnEarlierError | src/semantic_reheating/progress.py:320-327 | And it is unchanged by a front without one. |
| ProgressTheorems.EliminationsAfterAnEarlierPlan | src/semantic_reheating/progress.py:297-308 | Exactly when the elimination reason is there after a front with a qualifying plan. |
| ProgressTheorems.EliminationsWithoutAnEarlierPlan | src/semantic_reheating/progress.py:297-308 | And it is unchanged by a front without one. |
| DetectorOutcomes.ShowsProgressMeaning | src/semantic_reheating/progress.py:228-375 | The verdict the detectors ask for is the existence of some witness in the sub-window. |
| DetectorOutcomes.ProgressBetween | src/semantic_reheating/detectors/cycle.py:37-49 | Re-evaluating a sub-window of a contiguous window cannot fail and gives that verdict. |
| ExactRepetition.DetectExactRepetition | src/semantic_reheating/detectors/exact_repetition.py:12-42 | The scan with its call and first-pair indexes reports the first all-pairs outcome. |
| ExactRepetition.ExactRepetitionMeaning | src/semantic_reheating/detectors/exact_repetition.py:18-39 | There is an outcome exactly when any two results of different calls are alike in call and result (or an event has no identity); it is at the earliest deciding event and names both calls and both results. |
| ExactRepetition.LookUpPair | src/semantic_reheating/detectors/exact_repetition.py:32-39 | Storing one pair per equivalence class answers the all-pairs question. |
| ExactRepetition.SortPositionsMeaning | src/semantic_reheating/detectors/exact_repetition.py:36-37 | The support is listed in trace order and nothing is lost. |
| CycleDetection.DetectCycle | src/semantic_reheating/detectors/cycle.py:22-60 | The nested scan, which looks back from each observation, reports the first outcome of the specified verdicts. |
| CycleDetection.ShortestCycleMeaning | src/semantic_reheating/detectors/cycle.py:13-49 | The cycle reported is the shortest of two to five steps that returns to its state, leaves it in between and shows no progress. |
| CycleDetection.ObservedMeaning | src/semantic_reheating/detectors/cycle.py:22-36 | The positions kept are those of all observations, in ascending order. |
| CycleDetection.CycleMeaning | src/semantic_reheating/detectors/cycle.py:22-60 | A cycle is reported exactly when some observation sees a state again that was seen two to five observations earlier, was different in between, and no progress shows from one to the other. |
| CycleDetection.EarliestCycle | src/semantic_reheating/detectors/cycle.py:22-60 | What is reported is the earliest such observation with the shortest cycle it closes, and all observations of that cycle. |
| RepeatedError.DetectRepeatedError | src/semantic_reheating/detectors/repeated_error.py:12-39 | The scan with its last-call context and first-error index reports the first all-pairs outcome. |
| RepeatedError.RepeatedErrorMeaning | src/semantic_reheating/detectors/repeated_error.py:19-36 | There is an outcome exactly when any two errors are alike under alike calls (or a call has no identity); the pair reported is the earliest. |
| UnchangedState.DetectUnchangedState | src/semantic_reheating/detectors/unchanged_state.py:19-81 | The loop over `latest` and `pending` reports the first observation that meets the FIRST pending expectation from its own state, if no progress shows from the baseline of that expectation on. |
| UnchangedState.TracksStep | src/semantic_reheating/detectors/unchanged_state.py:24-73 | The pending entries keep, per fingerprint, the first expectation since the last fingerprinted observation and its baseline. |
| UnchangedState.UnchangedMeansUnchanged | src/semantic_reheating/detectors/unchanged_state.py:28-73 | A match closes an expectation no other observation came after; there is no progress from baseline to observation, and every expectation in between started from the very state now observed. |
| UnchangedState.UnchangedExactly | src/semantic_reheating/detectors/unchanged_state.py:28-73 | Exactly which stalled expectations are reported: of those that meet one observation of their own state, the first. |
| UnchangedState.UnchangedMeaning | src/semantic_reheating/detectors/unchanged_state.py:19-81 | There is an outcome exactly when some observation meets the first expectation from its own state with no observation and no progress in between. |
| UnchangedState.EarliestUnchanged | src/semantic_reheating/detectors/unchanged_state.py:19-81 | What is reported is the earliest such observation, with that expectation and its baseline. |
| UnchangedState.StalledExpectationCanBeDropped | src/semantic_reheating/detectors/unchanged_state.py:28-73 | An admissible window with a stalled expectation that is dropped, and nothing is reported at all. |
| AcceptanceStall.DetectAcceptanceStall | src/semantic_reheating/detectors/acceptance_stall.py:37-89 | The loop that replaces and clears baselines reports the first stalled pair of checks. |
| AcceptanceStall.StallMeansStalled | src/semantic_reheating/detectors/acceptance_stall.py:43-81 | A match is two checks with equal identity and delta, none of that identity between, and no progress from one to the other. |
| AcceptanceStall.StallExactly | src/semantic_reheating/detectors/acceptance_stall.py:43-81 | Exactly which such pairs are reported: those between which no event ends an episode, that is, repeats a check of its own with documented progress and no such end in between. |
| AcceptanceStall.EpisodeStartMeaning | src/semantic_reheating/detectors/acceptance_stall.py:43-81 | The scan clears its baselines at exactly the events that end an episode: the current one starts at the last of them. |
| AcceptanceStall.StalledPairCanBeDropped | src/semantic_reheating/detectors/acceptance_stall.py:76-81 | An admissible window with a stalled pair of checks that is dropped, and no stall is reported at all. |
| BudgetBurn.DetectBudgetBurn | src/semantic_reheating/detectors/budget_burn.py:35-87 | The loop over baseline and prior counters reports the first rise of an adjacent budget reading whose plateau shows no progress. |
| BudgetBurn.Burn | src/semantic_reheating/detectors/budget_burn.py:40-79 | One reading: the retained prior counters are those of the baseline, so comparing with them is comparing with the adjacent reading. |
| BudgetBurn.PlateauMeaning | src/semantic_reheating/detectors/budget_burn.py:40-79 | The baseline is the first event of a longest run of equal readings. |
| BudgetBurn.BurnMeaning | src/semantic_reheating/detectors/budget_burn.py:35-87 | There is an outcome exactly when at some event the readings rise from a plateau with no progress from the first event of the plateau on. |
| BudgetBurn.EarliestBurn | src/semantic_reheating/detectors/budget_burn.py:35-87 | What is reported is the earliest such event, with the first event of its plateau. |
| DetectorEvidence.RepetitionOnEvents | src/semantic_reheating/detectors/exact_repetition.py:12-42 | On events: the detector has an outcome exactly when two results answer different calls, calls and results being alike in pairs, or a call or the result of an identified call cannot be identified. |
| DetectorEvidence.ErrorsOnEvents | src/semantic_reheating/detectors/repeated_error.py:12-39 | On events: exactly when one declared error occurs twice under the same call, under calls that are alike, or under none, or a call cannot be identified. |
| DetectorEvidence.RepeatsOnEvents | src/semantic_reheating/detectors/acceptance_stall.py:43-65 | On events: a check repeats another one exactly when they are alike, report the same delta, and no check like them lies between. |
| DetectorEvidence.BurnsOnEvents | src/semantic_reheating/detectors/budget_burn.py:13-32 | On events: a burn is a first reading of a plateau and the next different reading, which falls short of it in no counter, without progress between. |
| Detectors.CheckTrace | src/semantic_reheating/detectors/__init__.py:26-84 | The checks on a trace, in their order. |
| Detectors.WindowIsValid | src/semantic_reheating/detectors/__init__.py:75-84 | The configured window of a valid trace is a nonempty valid suffix. |
| Detectors.Detect | src/semantic_reheating/detectors/__init__.py:26-84 | A detector at its boundary: validation, window, scan, one finding; which events are in the window and what is in the finding is said by `DetectorWindows`. |
| DetectorWindows.RepetitionWindow | src/semantic_reheating/detectors/__init__.py:75-84 | The three repetition detectors give a trace the finding of its last events, as many as the repetition window holds, whatever comes before them. |
| DetectorWindows.NoProgressWindow | src/semantic_reheating/detectors/__init__.py:75-84 | The other three give it the finding of its last events, as many as the no-progress window holds. |
| DetectorWindows.FindingMeaning | src/semantic_reheating/detectors/__init__.py:107-178 | The finding of a trace that fits the window, field by field: name, class and reason of the detector, run id, and either the last event with score 0 or the events of the candidate, each once and in order, at most a thousand, with score 1. |
| Detectors.DetectionMeaning | src/semantic_reheating/detectors/__init__.py:129-178 | A finding is matched, with score 1, exactly when the scan of its window completed a candidate; the class threshold decides nothing. |
| Detectors.DetectionQuotesTrace | src/semantic_reheating/detectors/__init__.py:129-178 | Every supporting event of a finding is an event of the trace. |
| Detectors.NoProgressMatch | src/semantic_reheating/detectors/unchanged_state.py:34-56 | Where a no-progress detector matches, the classifier denies progress from the first to the last supporting event. |
| Detectors.VerdictsLocal | src/semantic_reheating/detectors/__init__.py:75-84 | In all six detectors the verdict on an event depends on the events up to it only. |
| Detectors.DetectionIsStable | src/semantic_reheating/detectors/__init__.py:75-84 | While the trace fits the window, an outcome is final: every extension gets the same finding or the same failure. |
| Detectors.MatchIsStable | src/semantic_reheating/detectors/__init__.py:75-84 | A matched finding is kept, with its id, support and score, by every extension within the window. |
| Diagnosis.Diagnose | src/semantic_reheating/diagnosis.py:343-447 | The loops over events and findings succeed exactly when identifiers are safe, the evidence and hypothesis limits hold and every hypothesis can be encoded, and give the specified record. |
| Diagnosis.DiagnosisIsValid | src/semantic_reheating/diagnosis.py:146-191 | The causes are exactly the observed ones in the fixed order; the record's own check fails exactly where the diagnosis does, but for a hypothesis that cannot be encoded. |
| Diagnosis.HasCauseMeaning | src/semantic_reheating/diagnosis.py:300-326 | A cause is a marker of some event or the hard evidence of some matched finding. |
| Diagnosis.TooMuchStays | src/semantic_reheating/diagnosis.py:365-380 | Reading more never brings evidence or hypotheses back under their limits. |
| Diagnosis.EncodableBounds | src/semantic_reheating/diagnosis.py:381-391 | A hypothesis of up to a sixth of the input limit can be encoded whatever its characters are, and one of control characters beyond that cannot. |
| Diagnosis.EscapedLengthMeaning | src/semantic_reheating/diagnosis.py:381-391 | Quotes, backslashes and the short escapes count two characters, other control characters six, everything else one. |
| Diagnosis.UncertaintyMeaning | src/semantic_reheating/diagnosis.py:60-71 | Missing authority is escalated, unsafe side effects and exhausted budgets are blocked, these three are high-risk, and every other cause is to be verified. |
| Decisions.SelectRecoveryPolicy | src/semantic_reheating/policies.py:684-758 | The selector equals its specification, with every error code in its place. |
| Decisions.CollectEvidence | src/semantic_reheating/policies.py:580-600 | Bounded collection fails exactly when the distinct evidence exceeds 1000, and otherwise is all of it in order of first occurrence. |
| Decisions.EvidenceMeaning | src/semantic_reheating/policies.py:580-600 | The evidence has no repetitions, starts with the diagnosis's, and holds exactly the diagnosis's events and those of matched findings. |
| Decisions.StopsExactly | src/semantic_reheating/policies.py:700-758 | For a safe policy the fallbacks to a stop are unreachable: it stops exactly on evidence or a cause of risk or of an exhausted budget. |
| Decisions.LeastPermittedRung | src/semantic_reheating/policies.py:720-758 | A rung is taken exactly when both signals agree, nothing blocks, and it is the least permitted one. |
| Decisions.AnotherFindingNeverRelaxes | src/semantic_reheating/policies.py:684-758 | One more finding of any kind keeps the decision, or stops, or ends mere monitoring. |
| Decisions.RecoveryMeaning | src/semantic_reheating/policies.py:641-655 | Which recovery is recommended, by the precedence of the causes. |
| Decisions.SelectionFailsExactly | src/semantic_reheating/policies.py:98-128 | Of the selection's own checks exactly one can fail: a matched finding names an event whose id is schema-valid and not a safe identifier. |
| Decisions.ReheatPassesItsGate | src/semantic_reheating/policies.py:413-452 | Every reheat the selector makes passes the second reheat check. |
| Decisions.SelectCoolingBranch | src/semantic_reheating/policies.py:761-821 | The loop over best and tied returns a branch exactly when one candidate that is authorized, affordable, not rejected, supported and of a repeatable effect has strictly more evidence than every other such candidate; otherwise none, and the errors in their order. |
| HardStops.HardBudget | src/semantic_reheating/controller.py:256-275 | The scan reports the first event that reaches a whole-run limit. |
| HardStops.BudgetMeaning | src/semantic_reheating/controller.py:256-275 | It is settled exactly when some event reaches a limit, by the earliest one. |
| HardStops.HardRisk | src/semantic_reheating/controller.py:293-321 | The scan that remembers one call per identity equals the first-call definition. |
| HardStops.RiskMeaning | src/semantic_reheating/controller.py:296-320 | It is settled exactly when ANY pair of equivalent calls is unsafe (or a call has no identity), by the earliest completing call. |
| HardStops.HardBudgetStays | src/semantic_reheating/controller.py:256-275 | A reached budget is reported unchanged on every extension of the trace. |
| HardStops.HardRiskStays | src/semantic_reheating/controller.py:293-321 | So is a repeated unsafe call. |
| HardStopEvents.BudgetOnEvents | src/semantic_reheating/controller.py:256-275 | On events: the budget stops a run exactly when some counter of some event is not below its limit; what is reported is the first such event. |
| HardStopEvents.RiskOnEvents | src/semantic_reheating/controller.py:293-321 | On events: risk stops a run exactly when a call cannot be identified or is like an earlier one and not both are repeatable; what is reported is the first such call with one that it repeats. |
| Envelopes.WeightedContributions | src/semantic_reheating/controller.py:324-362 | The loop gives one contribution per matched finding and, per class, the maximum of their weighted scores. |
| Envelopes.ClassMaxMeaning | src/semantic_reheating/controller.py:359-359 | A class score bounds every contribution of its class and is attained unless it is zero. |
| Envelopes.WeightedScoreIsProduct | src/semantic_reheating/controller.py:347-348 | Clipping never changes a weighted score of valid findings and policies. |
| Envelopes.BuildEnvelope | src/semantic_reheating/controller.py:365-434 | Diagnosis, selection, contributions and confidence, composed as specified, with the error of the first step that fails. |
| Envelopes.AssembledIsValid | src/semantic_reheating/controller.py:538-546 | An assembled envelope always is within the ranges of the decision contract. |
| Envelopes.ValidateRecoveryDecision | src/semantic_reheating/controller.py:594-657 | The second validator's loop accepts exactly the recoverable envelopes. |
| Envelopes.ReheatIsRecoverableExactly | src/semantic_reheating/controller.py:594-657 | A reheat envelope passes it exactly when read-only actions may be repeated and both class scores are positive. |
| EnvelopeTheorems.StopsOnHardEvidence | src/semantic_reheating/policies.py:695-715 | An envelope stops exactly on a hard marker in the trace or on evidence of risk or of an exhausted budget. |
| EnvelopeTheorems.HardFindingDecides | src/semantic_reheating/controller.py:376-385 | One matched risk or budget finding decides: stop, confidence 1, its events quoted. |
| EnvelopeTheorems.DecidesExactly | src/semantic_reheating/policies.py:695-758 | Exactly when an envelope takes each rung, continues or escalates, from the markers of the trace and the signals of the findings. |
| EnvelopeTheorems.SucceedsExactly | src/semantic_reheating/controller.py:365-434 | Valid findings become an envelope exactly when the run id and every event id that is named are safe and the limits hold. |
| EnvelopeTheorems.RungsRestOnBothSignals | src/semantic_reheating/policies.py:720-758 | Every rung rests on a matched finding of each signal, and its confidence is the smaller class score. |
| EnvelopeTheorems.EnvelopeIsCoherent | src/semantic_reheating/policies.py:658-681 | Host action, reasons, recovery and decision of an envelope agree; restart and escalation always ask the host. |
| EnvelopeTheorems.EnvelopeCarries | src/semantic_reheating/controller.py:392-426 | An envelope carries over the run id, the notices, the contributions, the budget per intervention and the cooling conditions; its id is that of its contents. |
| EnvelopeTheorems.SoftFindingNeverRelaxes | src/semantic_reheating/controller.py:437-496 | Taking a repetition or no-progress finding away never breaks the envelope, and adding it never relaxes the decision. |
| EnvelopeTheorems.ScoreIsWeight | src/semantic_reheating/controller.py:324-362 | Without an injected finding a class scores exactly its weight or zero. |
| EnvelopeTheorems.ScoreIsPositive | src/semantic_reheating/controller.py:324-362 | In general a class score is positive exactly when a matched finding of it carries weight. |
| EnvelopeTheorems.ContributionsAreWeighed | src/semantic_reheating/controller.py:324-362 | The contributions are exactly the matched findings, each with its score, the weight of its class or of the semantic detector, and the product of the two. |
| Controller.RunDetectors | src/semantic_reheating/controller.py:512-520 | All six findings, or the first detector's failure. |
| Controller.Collect | src/semantic_reheating/controller.py:499-532 | Detectors, hard stops and the injected finding, with every error in its order; what becomes of each injected answer is said by `InjectedFindings`. |
| Controller.Analyze | src/semantic_reheating/controller.py:499-546 | The whole analysis equals its specification on every trace, policy and injected answer; its decisions are characterized with and without an injected finding (`AnalysisTheorems.DecidesExactly`, `InjectedFindings.InjectedDecidesExactly`). |
| Controller.BuildRecoveryInstruction | src/semantic_reheating/controller.py:549-591 | Nothing for other decisions, a refusal exactly for a reheat that is not recoverable, and otherwise an instruction that carries over the findings and the cooling conditions of the decision, grants nothing, and is within its own contract. |
| AnalysisTheorems.HardStopPersists | src/semantic_reheating/controller.py:499-546 | A hard-stopped run stays stopped: whatever follows, and under any other ladder, window, weight or injected detector, every later analysis that succeeds stops at full confidence, on the same finding. |
| AnalysisTheorems.HardStopDecides | src/semantic_reheating/controller.py:524-529 | A hard stop decides every successful analysis. |
| AnalysisTheorems.LadderIsJustified | src/semantic_reheating/policies.py:720-758 | Every deterministic intervention has a repetition detector that matched and a no-progress detector that matched on a span without progress. |
| AnalysisTheorems.StopsExactly | src/semantic_reheating/controller.py:499-546 | Exactly when a deterministic analysis stops, in terms of events: a whole-run limit reached, an unsafe repeated call, budget burned without progress, or a hard marker. |
| AnalysisTheorems.DecidesExactly | src/semantic_reheating/policies.py:695-758 | And exactly when it takes each rung of the ladder - both signals detected, no authority missing, the least permitted one - when it escalates, and when it continues. |
| AnalysisTheorems.SemanticNeverRelaxes | src/semantic_reheating/controller.py:437-496 | Whatever the injected detector answers, the analysis without it succeeds too, and its decision is kept, raised to a stop, or was mere monitoring. |
| AnalysisTheorems.LadderConfidence | src/semantic_reheating/controller.py:381-385 | The confidence in a deterministic intervention is the smaller of the two class weights. |
| AnalysisTheorems.ReheatIsAcceptedExactly | src/semantic_reheating/controller.py:594-657 | A deterministic reheat is accepted for recovery exactly when read-only actions may be repeated and neither signal has weight zero: a check on the policy alone. |
| AnalysisTheorems.AnyReheatIsAcceptedExactly | src/semantic_reheating/controller.py:594-657 | With an injected finding: exactly when read-only actions may be repeated and each signal has, among the collected findings, one that carries weight. |
| AnalysisTheorems.EvidenceIsFromTheTrace | src/semantic_reheating/policies.py:580-600 | Every event a deterministic decision quotes is an event of the trace. |
| AdviceContents.MarkerMeaning | src/semantic_reheating/diagnosis.py:300-313 | A marker is a plan or an error whose payload names the cause by its word. |
| AdviceContents.RejectedMeaning | src/semantic_reheating/diagnosis.py:329-340 | A plan rejects exactly the nonempty strings in its list, whatever else is in it. |
| AdviceContents.GapsMeaning | src/semantic_reheating/policies.py:334-341 | A gap is diagnosed exactly when a cause it stands for is named by an event or shown by a matched hard finding. |
| AdviceContents.AdviceMeaning | src/semantic_reheating/controller.py:392-426 | What every decision says besides: the host is asked never to go on, always to restart or escalate, and otherwise as the policy has it for the rung; repeatable effects, budget and cooling are the policy's. |
| AdviceContents.RecoverableMeaning | src/semantic_reheating/controller.py:594-657 | What the second boundary asks of a reheat: its id, recovery, reasons and constraints, distinct contributions of the two classes with consistent weighted scores, a positive largest score in each class, and the smaller of the two as confidence, up to a millionth of a millionth. |
| AdviceContents.TraceIsRefused | src/semantic_reheating/controller.py:139-180 | A trace is refused when it is empty or holds more than 10000 events. |
| AdviceContents.PolicyIsRefusedExactly | src/semantic_reheating/validation.py:339-377 | Exactly which policies are refused: numbers out of range, an overdrawn intervention budget, a lax gate, a broken ladder, or writes that may be repeated. |
| AnalysisSuccess.AnalysisSucceedsExactly | src/semantic_reheating/controller.py:365-434 | What was collected becomes a decision exactly when the run id, the ids of events with a marker or a rejected hypothesis, and the ids in matched findings are safe, and evidence and hypotheses are within their limits; otherwise the assembly is invalid. |
| AnalysisSuccess.NamesAreOfTheTrace | src/semantic_reheating/policies.py:98-128 | In terms of the trace: no marked, rejecting or quoted event has an id that is not a safe identifier. |
| InjectedFindings.InjectedFindingIsCollected | src/semantic_reheating/controller.py:437-496 | A conforming and available finding of an enabled detector is collected as it is, last and marked as injected; otherwise the collection is the one without it, and only an id that is taken refuses it. |
| InjectedFindings.UnavailableDetector | src/semantic_reheating/controller.py:443-496 | An absent, failing or unavailable detector is an error exactly when it is required, and otherwise exactly one notice with its name and status. |
| InjectedFindings.RefusedAnswer | src/semantic_reheating/controller.py:458-462 | Every other answer - no record, a hard class, a broken contract, another run - is an error, required or not, with its code. |
| InjectedFindings.DisabledDetector | src/semantic_reheating/controller.py:440-442 | A detector that is not enabled is never heard. |
| InjectedFindings.NoticeIsHandedOn | src/semantic_reheating/controller.py:404-404 | The notice is the one that the decision carries. |
| InjectedFindings.InjectedDecidesExactly | src/semantic_reheating/policies.py:695-758 | With an injected finding: exactly when the analysis stops, takes each rung, continues or escalates, each signal being a matched detector or the matched injected finding of that class. |
| InjectedFindings.InjectedFindingContributes | src/semantic_reheating/controller.py:324-362 | A matched injected finding is among the contributions, with the weight of the semantic detector. |
| CollectionSuccess.DetectsExactly | src/semantic_reheating/detectors/__init__.py:129-178 | A detector has a finding exactly when no event it has to compare lacks an identity, and the finding contract accepts the run id and every event id it names. |
| CollectionSuccess.CollectsExactly | src/semantic_reheating/controller.py:499-532 | The findings of a deterministic analysis are collected exactly when every detector has its finding, the event that first reaches a limit can be named, and the first alarming call has an identity and can be named with the first call like it. |
| CollectionSuccess.SucceedsExactly | src/semantic_reheating/controller.py:499-546 | Both together: exactly when a deterministic analysis succeeds. |
| QuietRuns.QuietRunContinues | src/semantic_reheating/controller.py:499-546 | No false alarm: the analysis of a valid run of plain messages that reaches no limit, with no injected finding, says to continue whenever it succeeds; and it succeeds exactly when the run id is a safe identifier and the last event id matches the pattern of the finding contract. |
| QuietRuns.QuietRunDecides | src/semantic_reheating/controller.py:499-546 | For valid runs of messages, plans and handoffs that reach no limit: the analysis succeeds exactly when the run id, the last id and the ids of marked and rejecting events pass and nothing read is too much; and it then says to continue exactly when no hard cause and no missing authority is marked. |
| QuietRuns.UnencodableFails | src/semantic_reheating/diagnosis.py:381-391 | A run of such events that rejects a hypothesis which cannot be encoded fails as an invalid assembly. |
| QuietRuns.LegalHypothesisFailsTheAnalysis | src/semantic_reheating/diagnosis.py:381-391 | An admissible trace of one plan that rejects a legal string of 200000 control characters: its analysis fails under every valid policy. |
| QuietRuns.NothingDetected | src/semantic_reheating/detectors/__init__.py:129-178 | None of the six detectors matches in a window of messages, plans and handoffs. |
| StalledRuns.StalledRunSucceedsExactly | src/semantic_reheating/controller.py:499-546 | Every stalled run - an expected change, one error twice, the old state again - whose ids the finding contract accepts is analysed exactly when all its ids are safe, and otherwise the assembly is invalid. |
| StalledRuns.StalledRunReachesLadder | src/semantic_reheating/policies.py:720-758 | Under every policy that sees all of it, such a run is advised the least permitted rung. |
| StalledRuns.StalledRunReheats | src/semantic_reheating/controller.py:499-546 | A concrete run of four events is advised to reheat, and the advice is accepted exactly when the weight of repetition is positive. |
| StalledRuns.ReheatCanBeRefused | src/semantic_reheating/controller.py:637-647 | The advice to reheat for that run, under weight zero for repetition, is refused by the second validator. |
| StalledRuns.NewlineFailsTheAnalysis | src/semantic_reheating/controller.py:431-434 | The same run with one event id that ends in a newline: a detector matches, and the analysis fails as an invalid assembly. |
| LongRuns.LongRunSucceedsExactly | src/semantic_reheating/controller.py:499-546 | A stalled end behind any plain events, under windows of its size, is analysed exactly when the run id and the ids of its four events are safe. |
| LongRuns.LongRunReachesLadder | src/semantic_reheating/policies.py:720-758 | And it is advised the least permitted rung, whatever plain events came before. |
| LongRuns.LateStallReheats | src/semantic_reheating/controller.py:499-546 | A concrete run of a message and four events, of which only the four are in the windows, is advised to reheat. |
| TraceFraming.ReadTrace | benchmark/replay.py:382-419 | The framing loop's result depends on the bytes alone, however they are cut into chunks. |
| TraceFraming.StreamingIsParsing | benchmark/replay.py:339-350 | Streaming accepts exactly what whole-buffer parsing accepts within the byte limits, and gives the same events. |
| TraceFraming.ParseEventsMeaning | benchmark/replay.py:316-350 | Exactly which buffers are accepted, line by line: no byte order mark, at most 10000 nonempty lines of at most 262144 bytes without a carriage return, each parsing to the event with its number in the run of the scenario, and no event id twice. |
| TraceFraming.AcceptedBufferEnds | benchmark/replay.py:339-350 | Every accepted buffer consists of lines that end in a newline. |
| TraceFraming.FramingIsSplitting | benchmark/replay.py:393-404 | Framing byte by byte finds the same lines as splitting the buffer. |
| TraceFraming.DoomedStays | benchmark/replay.py:393-404 | Every early refusal is final: no continuation of the stream could be accepted. |
| TraceFraming.Accept | benchmark/replay.py:393-404 | One byte either dooms the stream or keeps the frame equal to the lines so far. |
| TraceFraming.ReplayedTraceIsContiguous | benchmark/replay.py:325-336 | A replayed trace satisfies what the detectors require of one. |
| CorpusRevision.Revision | benchmark/replay.py:557-568 | The payload is built field by field exactly when every length has eight bytes. |
| CorpusRevision.PayloadRoundTrip | benchmark/replay.py:557-568 | A decoder recovers the manifest and every name and content from the payload. |
| CorpusRevision.PayloadIsInjective | benchmark/replay.py:557-568 | Equal payloads come from equal manifests and equal sequences of traces. |
| CorpusRevision.BigEndianRoundTrip | benchmark/replay.py:560-567 | A length below 256^n is recovered from its n big-endian bytes. |
| CampaignRuns.MatrixIsTheProduct | benchmark/live/runner.py:153-171 | The nested comprehension is the Cartesian product: every cell in scope, each exactly once. |
| CampaignRuns.ApprovedMatrix | benchmark/live/executor.py:319-325 | An approved configuration has exactly 108 cells. |
| CampaignRuns.MatrixAt | benchmark/live/runner.py:153-171 | Where each cell comes: by stack, then task, then arm, then replicate. |
| CampaignRuns.SlugMeaning | benchmark/live/campaign.schema.json:34-34 | A campaign identifier has lower-case letters, digits and hyphens, no hyphen being first, last or next to another. |
| CampaignRuns.SlugPatternMeaning | benchmark/live/campaign.schema.json:34-34 | A schema also takes one newline after it. |
| CampaignRuns.RecordForRun | benchmark/live/executor.py:237-282 | The loop over a run's events equals the capped-run definition, which `CampaignTotals` reads off the events field by field. |
| CampaignRuns.RunMeaning | benchmark/live/executor.py:247-262 | A run's usage is the total over exactly the events it consumed, each field of which is the sum of their reports; before the last of them every total was strictly below every cap; it ends early only at a cap. |
| CampaignTotals.ChargeMeaning | benchmark/live/executor.py:216-234 | An event is charged exactly when it reports an amount for each of the five fields - an absent time being the clock's, any other absent number 0 - and then with these amounts and its outcome; otherwise the error says why. |
| CampaignTotals.RunTotals | benchmark/live/executor.py:247-262 | A run's turns, tokens, tool calls, seconds and cost are, each, the sum of what the consumed events report. |
| CampaignTotals.RunAccounts | benchmark/live/executor.py:237-282 | A record read off its events: the shortest nonempty front that reaches a cap in some field, or all of them; the sums of their reports; interrupted, or the status its last event gives. |
| CampaignTotals.RunBreaksExactly | benchmark/live/executor.py:247-262 | A run fails exactly on an improper event that no cap keeps it from. |
| CampaignArtifacts.RunCells | benchmark/live/executor.py:330-350 | The scheduling loop equals the capped-schedule definition. |
| CampaignArtifacts.ScheduleMeaning | benchmark/live/executor.py:330-350 | The records are those of a prefix of the cells, their spending is the total, and before the last record every total was strictly below every campaign cap; field by field in `CampaignTotals`. |
| CampaignTotals.ScheduleTotals | benchmark/live/executor.py:330-350 | Field by field: the spending of a schedule is the sum over its records, which before the last one stayed below every limit. |
| CampaignArtifacts.ValidateResults | benchmark/live/metrics.py:55-125 | Schema ranges and identifiers, and then the reconciliation loops, accept exactly the valid result sets. |
| CampaignArtifacts.ValidateManifest | benchmark/live/executor.py:119-146 | And so for the valid manifests. |
| ArtifactFaults.ResultsAreRefusedExactly | benchmark/live/metrics.py:55-125 | Exactly which result sets are refused, fault by fault: scope, usage out of range, planned cells and records, consumption that is not the sum of the records in each field, and a kind that the records belie. |
| ArtifactFaults.ManifestsAreRefusedExactly | benchmark/live/executor.py:119-146 | Exactly which manifests are refused, fault by fault: name, lists, counts, status and blockers. |
| CampaignArtifacts.ExecuteCampaign | benchmark/live/executor.py:308-374 | The whole campaign equals its specification; its sums are those of `CampaignTotals.EmittedTotals`. |
| CampaignTheorems.CampaignSucceedsExactly | benchmark/live/executor.py:352-374 | Exactly when a campaign hands its artifacts on: approved, nonempty, proper answers, no identifier over 128 characters, usage representable, and no cap first reached on the last cell; the manifest never is what fails. |
| CampaignTheorems.EmittedArtifacts | benchmark/live/executor.py:352-374 | What emitted artifacts guarantee: prefix of the matrix, conserved usage, bounded overshoot, executed exactly at full coverage. |
| CampaignTotals.EmittedTotals | benchmark/live/executor.py:352-374 | Each of the four fields that a result declares as consumed is the sum of that field over its records, each record is that of its own cell's answer, and before the last one every sum was below 2000000 tokens, 4320 tool calls, 86400 seconds and a cost of 40. |
| CampaignTotals.EmittedManifest | benchmark/live/executor.py:175-205 | The manifest names the first limit reached, if one was, and both artifacts carry the campaign's name, scope and counts. |
| CampaignTotals.ReconciledExactly | benchmark/live/metrics.py:106-125 | The validator's reconciliation holds exactly when the declared consumption is the sum over the records in each field. |
| CampaignTheorems.LimitedMeaning | benchmark/live/executor.py:320-323 | A limit keeps so many cells from the front, or all but so many from the back, and never more or fewer than there are. |
| CampaignTheorems.ResultsAreValidExactly | benchmark/live/metrics.py:106-125 | The result validator accepts the campaign's own document exactly when no identifier is over 128 characters, usage is representable and the cap was not reached on the last cell. |
| CampaignTheorems.SilentCampaignSucceedsExactly | benchmark/live/results.schema.json:82-87 | A full campaign whose runs report nothing hands its artifacts on exactly when no identifier is over 128 characters; otherwise its result is refused. |
| CampaignTheorems.LongNameIsRefused | benchmark/live/campaign.schema.json:34-34 | A concrete approved campaign with a task name of 129 letters is refused after all its runs; with 128 letters it is not. |
| CampaignTheorems.FullCampaignCanBeRefused | benchmark/live/metrics.py:114-119 | A concrete campaign - every run uses exactly its forty tool calls - that covers the whole matrix and is refused by its own validator. |

## Left out

- Hashing and canonical bytes: SHA-256 and RFC 8785 are external. A digest is modelled by
  the very value it is a digest of, so equal digests are equal inputs; the truncated
  decision and hypothesis ids are taken as free of collisions in the same way.
- JSON text parsing: external. A string payload carries what the loader makes of it, and a
  trace line is parsed by a function parameter.
- Floating point: scores, weights, counters and usage are exact reals, so underflow of a
  positive product to zero and rounding of sums are not modelled.
- In-place deletion of dictionary fields: `Fingerprints.Prune` works on values. The source
  deletes from a private copy, so there is no aliasing to lose.
- JSON Schema evaluation: external. The ranges that matter to a property (fractions,
  identifiers, limits, usage maxima) are predicates of the model; the others are taken as
  checked. Summaries and prompt texts, which are constant, are not modelled, nor is the
  metadata of a stack, which both campaign schemas limit alike.
- Hostile objects, exception sanitising, pickling and freezing: no counterpart in values.
- Lone surrogates and other encoding questions of strings.
- Descriptors, file status and link checks of the replay reader, sandboxes and subprocesses:
  operating-system effects.
- The remaining configuration blockers of a campaign (commands, sandboxes, prices): one
  boolean. The runner's answers are a sequence, one per cell, and a replicate count is an
  integer.
- Blocked artifacts, metrics, evidence reports, the command line and the instruction
  builders: they would add branch tables and constant text.
- Controller.Analyze: does not model the wording of a notice, which follows from its status.
- Controller.BuildRecoveryInstruction: does not model the constant prompt texts of an
  instruction.
- Diagnosis.Diagnose: does not model which of several limits is reported first; the pipeline
  turns each into the same error.
- TraceFraming.ReadTrace: does not model the comparison of file status before and after, and
  the error code of a stream and of a buffer may differ.

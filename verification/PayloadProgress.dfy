/** The eleven reasons for progress read off the events and their payloads directly:
    which kinds of event carry which fields, with which values. */
module PayloadProgress {
  import opened Prelude
  import opened JsonPointers
  import opened Splitting
  import opened Fingerprints
  import opened ReasonLogs
  import opened TraceEvents
  import opened Progress
  import opened ProgressScan
  import opened ProgressTheorems

  // ------------------------------------------------------------ what events say

  /** The payload is an object with this field. */
  ghost predicate Carries(e: TraceEvent, name: string, j: Json) {
    && e.payload.Some? && e.payload.value.Value? && e.payload.value.json.Obj?
    && name in e.payload.value.json.fields && e.payload.value.json.fields[name] == j
  }

  ghost predicate CarriesNumber(e: TraceEvent, name: string, value: real) {
    exists j :: Carries(e, name, j) && IsNumber(j, value)
  }

  /** The field is an array of strings, and `text` is one of them. */
  ghost predicate Lists(e: TraceEvent, name: string, text: string) {
    exists items: seq<Json> ::
      Carries(e, name, Arr(items)) && Str(text) in items && forall item | item in items :: item.Str?
  }

  /** The field is an array of strings, none of them empty. */
  ghost predicate ListsNames(e: TraceEvent, name: string) {
    exists items: seq<Json> ::
      Carries(e, name, Arr(items)) && forall item | item in items :: item.Str? && item.text != ""
  }

  ghost predicate Observes(e: TraceEvent) {
    e.kind == ToolResult || e.kind == StateObservation
  }

  ghost predicate AtCursor(e: TraceEvent, cursor: Json) {
    Observes(e) && Carries(e, "pagination_cursor", cursor) && !cursor.Arr? && !cursor.Obj?
  }

  ghost predicate AtItem(e: TraceEvent, item: string) {
    Observes(e) && Carries(e, "batch_item_id", Str(item))
  }

  ghost predicate FailsWith(e: TraceEvent, fingerprint: string) {
    e.kind == TraceKind.Error && e.errorFingerprint == Some(fingerprint) && fingerprint != ""
  }

  ghost predicate ShowsFrame(e: TraceEvent, frame: string) {
    e.kind == TraceKind.Error && Lists(e, "stack_frames", frame)
  }

  ghost predicate Cites(e: TraceEvent, ref: string) {
    exists refs :: e.evidenceRefs == Some(refs) && ref in refs
  }

  ghost predicate RulesOut(e: TraceEvent, hypothesis: string) {
    e.kind == Plan && Lists(e, "eliminated_hypotheses", hypothesis) && ListsNames(e, "eliminated_hypotheses")
  }

  ghost predicate ChecksRequired(e: TraceEvent) {
    e.kind == AcceptanceCheck && Carries(e, "required_verification", Bool(true))
  }

  ghost predicate HandsOver(e: TraceEvent) {
    e.kind == Handoff &&
    ((exists id :: id != "" && Carries(e, "new_plan_id", Str(id))) ||
     (ListsNames(e, "new_capabilities") && !Carries(e, "new_capabilities", Arr([]))))
  }

  /** A reading of a poll on its way to a target. */
  ghost predicate Polls(e: TraceEvent, poll: string, reading: real, target: real) {
    && e.kind == StateObservation && poll != "" && Carries(e, "poll_id", Str(poll))
    && CarriesNumber(e, "poll_value", reading) && CarriesNumber(e, "poll_target", target)
  }

  /** Two readings of one poll with one target, the second strictly closer to it. */
  ghost predicate Approaches(a: TraceEvent, b: TraceEvent) {
    exists p, u, v, t :: Polls(a, p, u, t) && Polls(b, p, v, t) && (u < v < 2.0 * t - u || 2.0 * t - u < v < u)
  }

  /** A test of a hypothesis whose input has a canonical form. */
  ghost predicate Tests(e: TraceEvent, hypothesis: string, input: Json) {
    && e.kind == ToolCall && hypothesis != "" && Carries(e, "hypothesis_id", Str(hypothesis))
    && Carries(e, "hypothesis_test_input", input) && SafeIntegers(input)
  }

  /** An input apart from the three volatile fields at its top. */
  ghost function Stable(input: Json): Json {
    if input.Obj? then Obj(input.fields - {"event_id", "timestamp", "request_id"}) else input
  }

  /** One hypothesis tested with two inputs. */
  ghost predicate TestsOtherwise(a: TraceEvent, b: TraceEvent) {
    exists h, x, y :: Tests(a, h, x) && Tests(b, h, y) && !SameValue(Stable(x), Stable(y))
  }

  /** The latest state known at event `i`. */
  ghost predicate StateIs(s: Trace, i: nat, state: string)
    requires i < |s|
  {
    state != "" &&
    exists k :: 0 <= k <= i && s[k].stateFingerprint == Some(state) &&
                forall m | k < m <= i :: s[m].stateFingerprint in {None, Some("")}
  }

  /** Event `i` expects a change of the state, and `j` observes another one. */
  ghost predicate Fulfils(s: Trace, i: nat, j: nat)
    requires i < |s| && j < |s|
  {
    && s[i].expectedStateChange == Some(true) && s[j].kind == StateObservation
    && exists a :: StateIs(s, i, a) && s[j].stateFingerprint !in {None, Some(""), Some(a)}
  }

  // -------------------------------------------------------- the eleven reasons

  ghost predicate FirstRuling(s: Trace, f: nat) {
    f < |s| && (exists h :: RulesOut(s[f], h)) && forall i, h | 0 <= i < f :: !RulesOut(s[i], h)
  }

  ghost predicate Documented(r: Reason, s: Trace) {
    match r
    case PaginationAdvanced =>
      exists i, j, a, b :: 0 <= i < |s| && 0 <= j < |s| && AtCursor(s[i], a) && AtCursor(s[j], b) && a != b
    case BatchItemChanged =>
      exists i, j, a, b :: 0 <= i < |s| && 0 <= j < |s| && AtItem(s[i], a) && AtItem(s[j], b) && a != b
    case ErrorChanged =>
      exists i, j, a, b :: 0 <= i < |s| && 0 <= j < |s| && FailsWith(s[i], a) && FailsWith(s[j], b) && a != b
    case HypothesisInputChanged =>
      exists i, j :: 0 <= i < |s| && 0 <= j < |s| && TestsOtherwise(s[i], s[j])
    case StackFrameAdded =>
      exists f: nat, j, x :: FirstError(s, f) && 0 <= j < |s| && ShowsFrame(s[j], x) && !ShowsFrame(s[f], x)
    case EvidenceAdded =>
      exists j, x :: 0 <= j < |s| && Cites(s[j], x) && !Cites(s[0], x)
    case HypothesisEliminated =>
      exists f: nat, j, h :: FirstRuling(s, f) && 0 <= j < |s| && RulesOut(s[j], h) && !RulesOut(s[f], h)
    case RequiredAcceptanceVerified =>
      exists i, j :: 0 <= i < j < |s| && ChecksRequired(s[i]) && ChecksRequired(s[j]) &&
                     s[j].acceptanceDelta !in {None, Some("")}
    case ProductiveHandoff => exists j :: 0 <= j < |s| && HandsOver(s[j])
    case ExpectedStateChangeObserved =>
      exists i, j :: 0 <= i < j < |s| && Fulfils(s, i, j)
    case PollConverging =>
      exists i, j :: 0 <= i < j < |s| && Approaches(s[i], s[j])
  }

  // ------------------------------------------------------- reading the payload

  lemma {:induction false} FieldIs(e: TraceEvent, name: string, j: Json)
    ensures Field(e, name) == Some(j) <==> Carries(e, name, j)
  {
  }

  lemma {:induction false} TextIs(e: TraceEvent, name: string, text: string)
    ensures StringField(e, name) == Some(text) <==> Carries(e, name, Str(text))
  {
  }

  lemma {:induction false} NumberIs(e: TraceEvent, name: string, value: real)
    ensures PollNumber(Field(e, name)) == Some(value) <==> CarriesNumber(e, name, value)
  {
    if PollNumber(Field(e, name)).Some? {
      assert Carries(e, name, Field(e, name).value);
    }
  }

  lemma {:induction false} ListIs(e: TraceEvent, name: string, text: string)
    ensures StringsField(e, name).Some? && text in StringsField(e, name).value <==> Lists(e, name, text)
  {
    var field, names := Field(e, name), StringsField(e, name);
    if names.Some? {
      assert Carries(e, name, Arr(field.value.items));
      assert |names.value| == |field.value.items|;
      assert forall i | 0 <= i < |names.value| :: field.value.items[i] in field.value.items;
      assert forall i | 0 <= i < |names.value| :: field.value.items[i].text == names.value[i];
      if text in names.value {
        var i :| 0 <= i < |names.value| && names.value[i] == text;
        assert Str(text) == field.value.items[i];
      }
      if Str(text) in field.value.items {
        var i :| 0 <= i < |names.value| && field.value.items[i] == Str(text);
        assert names.value[i] == text;
      }
    }
  }

  lemma {:induction false} NamesAre(e: TraceEvent, name: string)
    ensures StringsField(e, name).Some? && AllNonEmpty(StringsField(e, name).value) <==>
      ListsNames(e, name) && !Carries(e, name, Arr([]))
  {
    var field, names := Field(e, name), StringsField(e, name);
    if names.Some? {
      assert Carries(e, name, Arr(field.value.items));
      assert |names.value| == |field.value.items|;
      assert forall i | 0 <= i < |names.value| :: field.value.items[i].text == names.value[i];
      if AllNonEmpty(names.value) {
        forall item | item in field.value.items
          ensures item.Str? && item.text != ""
        {
          var i :| 0 <= i < |names.value| && field.value.items[i] == item;
          assert names.value[i] in names.value;
        }
      }
      if ListsNames(e, name) {
        forall text | text in names.value
          ensures text != ""
        {
          var i :| 0 <= i < |names.value| && names.value[i] == text;
          assert field.value.items[i] in field.value.items;
        }
      }
    }
  }

  lemma {:induction false} CursorIs(e: TraceEvent, cursor: Json)
    ensures CursorOf(e) == Some(cursor) <==> AtCursor(e, cursor)
  {
    FieldIs(e, "pagination_cursor", cursor);
  }

  lemma {:induction false} ItemIs(e: TraceEvent, item: string)
    ensures BatchItemOf(e) == Some(item) <==> AtItem(e, item)
  {
    TextIs(e, "batch_item_id", item);
  }

  lemma {:induction false} FrameIs(e: TraceEvent, frame: string)
    ensures frame in FramesOf(e) <==> ShowsFrame(e, frame)
  {
    ListIs(e, "stack_frames", frame);
  }

  lemma {:induction false} RefIs(e: TraceEvent, ref: string)
    ensures ref in EvidenceOf(e) <==> Cites(e, ref)
  {
  }

  lemma {:induction false} EliminationIs(e: TraceEvent, hypothesis: string)
    ensures hypothesis in EliminatedOf(e) <==> RulesOut(e, hypothesis)
  {
    ListIs(e, "eliminated_hypotheses", hypothesis);
    NamesAre(e, "eliminated_hypotheses");
  }

  lemma {:induction false} CheckIs(e: TraceEvent)
    ensures IsRequiredCheck(e) <==> ChecksRequired(e)
  {
    FieldIs(e, "required_verification", Bool(true));
  }

  lemma {:induction false} HandoffIs(e: TraceEvent)
    ensures IsProductiveHandoff(e) <==> HandsOver(e)
  {
    NamesAre(e, "new_capabilities");
    forall id
      ensures StringField(e, "new_plan_id") == Some(id) <==> Carries(e, "new_plan_id", Str(id))
    {
      TextIs(e, "new_plan_id", id);
    }
    if NonEmpty(StringField(e, "new_plan_id")).Some? {
      assert Carries(e, "new_plan_id", Str(StringField(e, "new_plan_id").value));
    }
  }

  /** A poll is compared by how far its reading is from its target. */
  lemma {:induction false} PollIs(e: TraceEvent, poll: string, reading: real, target: real)
    requires Polls(e, poll, reading, target)
    ensures PollOf(e) == Some(Poll(PollKey(poll, target),
                                   if reading >= target then reading - target else target - reading))
  {
    TextIs(e, "poll_id", poll);
    NumberIs(e, "poll_value", reading);
    NumberIs(e, "poll_target", target);
  }

  lemma {:induction false} PollReading(e: TraceEvent) returns (reading: real)
    requires PollOf(e).Some?
    ensures Polls(e, PollOf(e).value.key.pollId, reading, PollOf(e).value.key.target)
  {
    var key := PollOf(e).value.key;
    reading := PollNumber(Field(e, "poll_value")).value;
    TextIs(e, "poll_id", key.pollId);
    NumberIs(e, "poll_value", reading);
    NumberIs(e, "poll_target", key.target);
  }

  lemma {:induction false} StateAt(s: Trace, i: nat, state: string)
    requires i < |s|
    ensures LatestState(s, i + 1) == Some(state) <==> StateIs(s, i, state)
    decreases i
  {
    if StateFingerprint(s[i]).Some? {
      if StateIs(s, i, state) {
        var k :| 0 <= k <= i && s[k].stateFingerprint == Some(state) &&
                 forall m | k < m <= i :: s[m].stateFingerprint in {None, Some("")};
        assert k == i;
      }
    } else if i > 0 {
      StateAt(s, i - 1, state);
      assert s[i].stateFingerprint in {None, Some("")};
    }
  }

  // ------------------------------------------------------------------- inputs

  lemma {:induction false} NestedPointer(outer: string, inner: string)
    requires '~' !in outer && '/' !in outer && '~' !in inner && '/' !in inner
    ensures IsPointer("/" + outer + "/" + inner) && Parts("/" + outer + "/" + inner) == [outer, inner]
  {
    PlainToken(outer);
    PlainToken(inner);
    SplitToken(outer, inner, '/');
    SplitToken(inner, "", '/');
    assert ("/" + outer + "/" + inner)[1..] == outer + ['/'] + inner;
  }

  lemma {:induction false} NestedFields(outer: string, names: seq<string>, pointers: seq<string>)
    requires '~' !in outer && '/' !in outer && |names| == |pointers|
    requires forall i | 0 <= i < |names| ::
      '~' !in names[i] && '/' !in names[i] && pointers[i] == "/" + outer + "/" + names[i]
    ensures forall p | p in pointers :: IsPointer(p)
    ensures forall path :: path in PathsOf(pointers) <==> exists k :: k in names && path == [outer, k]
  {
    forall i | 0 <= i < |names|
      ensures IsPointer(pointers[i]) && Parts(pointers[i]) == [outer, names[i]]
    {
      NestedPointer(outer, names[i]);
    }
    forall path | path in PathsOf(pointers)
      ensures exists k :: k in names && path == [outer, k]
    {
      var i :| 0 <= i < |names| && Parts(pointers[i]) == path;
      assert names[i] in names;
    }
    forall k | k in names
      ensures [outer, k] in PathsOf(pointers)
    {
      var i :| 0 <= i < |names| && names[i] == k;
      assert pointers[i] in pointers;
    }
  }

  /** The fields `names` at the top of a wrapper, and if `both` also those of what it wraps. */
  ghost predicate ReachBoth(paths: set<Path>, outer: string, names: set<string>, both: bool) {
    forall path :: path in paths <==> exists k :: k in names && (path == [k] || (both && path == [outer, k]))
  }

  lemma {:induction false} ReachedInside(paths: set<Path>, outer: string, names: set<string>)
    requires outer !in names && ReachBoth(paths, outer, names, true)
    ensures Under(paths, outer) == set k | k in names :: [k]
  {
    forall path | path in paths && |path| > 1 && path[0] == outer
      ensures exists k :: k in names && path[1..] == [k]
    {
      var k :| k in names && (path == [k] || path == [outer, k]);
      assert path[1..] == [k];
    }
    forall k | k in names
      ensures [k] in Under(paths, outer)
    {
      assert [outer, k] in paths && [outer, k][1..] == [k];
    }
  }

  /** Dropping the fields of a wrapper and of the object it wraps. */
  lemma {:induction false} DropWrapped(outer: string, input: Json, names: set<string>, paths: set<Path>)
    requires outer !in names && ReachBoth(paths, outer, names, input.Obj?)
    ensures Drop(Obj(map[outer := input]), paths) ==
      Obj(map[outer := if input.Obj? then Obj(input.fields - names) else input])
  {
    forall k | [outer] == [k]
      ensures k == outer
    {
      assert [k][0] == [outer][0];
    }
    assert [outer] !in paths;
    var below := Under(paths, outer);
    if input.Obj? {
      ReachedInside(paths, outer, names);
      DropTopLevel(input, names);
    } else {
      assert forall path | path in paths :: |path| == 1;
      assert below == {};
      DropNothing(input);
    }
    assert Drop(Obj(map[outer := input]), paths).fields == map[outer := Drop(input, below)];
  }

  lemma {:induction false} WrapperHasNoArrays(outer: string, input: Json, names: set<string>, pointers: seq<string>)
    requires forall p | p in pointers :: IsPointer(p)
    requires ReachBoth(PathsOf(pointers), outer, names, input.Obj?)
    ensures !SomePointerMeetsArray(Obj(map[outer := input]), pointers)
  {
    forall p | p in pointers
      ensures !MeetsArray(Obj(map[outer := input]), Parts(p))
    {
      assert Parts(p) in PathsOf(pointers);
    }
  }

  lemma {:induction false} WrapperPointers(
    outer: string, both: bool, names: seq<string>, plain: seq<string>, nested: seq<string>)
    requires '~' !in outer && '/' !in outer && |names| == |plain| == |nested|
    requires forall i | 0 <= i < |names| ::
      && '~' !in names[i] && '/' !in names[i]
      && plain[i] == "/" + names[i] && nested[i] == "/" + outer + "/" + names[i]
    ensures var pointers := plain + if both then nested else [];
      (forall p | p in pointers :: IsPointer(p)) && ReachBoth(PathsOf(pointers), outer, Elements(names), both)
  {
    PlainFields(names, plain);
    NestedFields(outer, names, nested);
    assert PathsOf(plain + nested) == PathsOf(plain) + PathsOf(nested);
    assert plain + [] == plain;
  }

  /** The digest of a wrapped input: there is one exactly when its integers are exact,
      and it is that of the input without its volatile fields. */
  lemma {:induction false} WrappedDigest(outer: string, input: Json, names: set<string>, pointers: seq<string>)
    requires outer !in names && forall p | p in pointers :: IsPointer(p)
    requires ReachBoth(PathsOf(pointers), outer, names, input.Obj?)
    ensures var r := FingerprintWithout(Obj(map[outer := input]), None, pointers);
      if SafeIntegers(input) then
        r.Ok? && r.value.digest ==
          Canonical(Obj(map[outer := if input.Obj? then Obj(input.fields - names) else input]))
      else r.Err?
  {
    var tree := Obj(map[outer := input]);
    DropWrapped(outer, input, names, PathsOf(pointers));
    WrapperHasNoArrays(outer, input, names, pointers);
    assert outer in tree.fields && tree.fields[outer] == input;
    assert SafeIntegers(tree) == SafeIntegers(input);
  }

  lemma {:induction false} VolatilePointer(i: nat)
    requires i < |VOLATILE_FIELDS|
    ensures '~' !in VOLATILE_FIELDS[i] && '/' !in VOLATILE_FIELDS[i]
    ensures DEFAULT_EXCLUDED_PATHS[i] == "/" + VOLATILE_FIELDS[i]
    ensures NESTED_VOLATILE_PATHS[i] == "/" + HYPOTHESIS_INPUT + "/" + VOLATILE_FIELDS[i]
  {
    NestedPointerText(i);
  }

  lemma {:induction false} NestedPointerText(i: nat)
    requires i < |VOLATILE_FIELDS|
    ensures NESTED_VOLATILE_PATHS[i] == "/" + HYPOTHESIS_INPUT + "/" + VOLATILE_FIELDS[i]
  {
    var front := "/" + HYPOTHESIS_INPUT + "/";
    assert front == "/hypothesis_test_input/";
    if i == 0 {
      assert "/hypothesis_test_input/event_id" == "/hypothesis_test_input/" + "event_id";
    } else if i == 1 {
      assert "/hypothesis_test_input/timestamp" == "/hypothesis_test_input/" + "timestamp";
    } else {
      assert "/hypothesis_test_input/request_id" == "/hypothesis_test_input/" + "request_id";
    }
  }

  lemma {:induction false} InputIs(input: Json)
    ensures InputFingerprint(input).Some? <==> SafeIntegers(input)
    ensures SafeIntegers(input) ==>
      InputFingerprint(input).value == Canonical(Obj(map["hypothesis_test_input" := Stable(input)]))
  {
    forall i | 0 <= i < |VOLATILE_FIELDS|
      ensures '~' !in VOLATILE_FIELDS[i] && '/' !in VOLATILE_FIELDS[i]
      ensures DEFAULT_EXCLUDED_PATHS[i] == "/" + VOLATILE_FIELDS[i]
      ensures NESTED_VOLATILE_PATHS[i] == "/" + HYPOTHESIS_INPUT + "/" + VOLATILE_FIELDS[i]
    {
      VolatilePointer(i);
    }
    WrapperPointers(HYPOTHESIS_INPUT, input.Obj?, VOLATILE_FIELDS, DEFAULT_EXCLUDED_PATHS, NESTED_VOLATILE_PATHS);
    VolatileFields();
    WrappedDigest(HYPOTHESIS_INPUT, input, Elements(VOLATILE_FIELDS),
                  DEFAULT_EXCLUDED_PATHS + if input.Obj? then NESTED_VOLATILE_PATHS else []);
  }

  /** Two inputs of a hypothesis are one input exactly when they are the same value apart
      from their volatile fields. */
  lemma {:induction false} SameInput(a: Json, b: Json)
    requires SafeIntegers(a) && SafeIntegers(b)
    ensures InputFingerprint(a) == InputFingerprint(b) <==> SameValue(Stable(a), Stable(b))
  {
    InputIs(a);
    InputIs(b);
    var x, y := map["hypothesis_test_input" := Stable(a)], map["hypothesis_test_input" := Stable(b)];
    CanonicalFields(x, y);
    CanonicalMeaning(Stable(a), Stable(b));
    assert "hypothesis_test_input" in x;
  }

  lemma {:induction false} ExperimentIs(e: TraceEvent, hypothesis: string, input: Json)
    requires Tests(e, hypothesis, input)
    ensures InputFingerprint(input).Some?
    ensures ExperimentOf(e) == Some(Experiment(hypothesis, InputFingerprint(input).value))
  {
    TextIs(e, "hypothesis_id", hypothesis);
    FieldIs(e, "hypothesis_test_input", input);
    InputIs(input);
  }

  lemma {:induction false} ExperimentInput(e: TraceEvent) returns (input: Json)
    requires ExperimentOf(e).Some?
    ensures Tests(e, ExperimentOf(e).value.hypothesis, input)
  {
    input := Field(e, "hypothesis_test_input").value;
    TextIs(e, "hypothesis_id", ExperimentOf(e).value.hypothesis);
    FieldIs(e, "hypothesis_test_input", input);
    InputIs(input);
  }

  // ----------------------------------------------------------- reason by reason

  lemma {:induction false} CursorsDiffer(s: Trace)
    ensures Evident(PaginationAdvanced, s) <==> Documented(PaginationAdvanced, s)
  {
    forall i, c | 0 <= i < |s|
      ensures CursorOf(s[i]) == Some(c) <==> AtCursor(s[i], c)
    {
      CursorIs(s[i], c);
    }
    if i, j :| 0 <= i < |s| && 0 <= j < |s| && CursorOf(s[i]).Some? && CursorOf(s[j]).Some? &&
               CursorOf(s[i]) != CursorOf(s[j]) {
      assert AtCursor(s[i], CursorOf(s[i]).value) && AtCursor(s[j], CursorOf(s[j]).value);
    }
  }

  lemma {:induction false} ItemsDiffer(s: Trace)
    ensures Evident(BatchItemChanged, s) <==> Documented(BatchItemChanged, s)
  {
    forall i, x | 0 <= i < |s|
      ensures BatchItemOf(s[i]) == Some(x) <==> AtItem(s[i], x)
    {
      ItemIs(s[i], x);
    }
    if i, j :| 0 <= i < |s| && 0 <= j < |s| && BatchItemOf(s[i]).Some? && BatchItemOf(s[j]).Some? &&
               BatchItemOf(s[i]) != BatchItemOf(s[j]) {
      assert AtItem(s[i], BatchItemOf(s[i]).value) && AtItem(s[j], BatchItemOf(s[j]).value);
    }
  }

  lemma {:induction false} ErrorsDiffer(s: Trace)
    ensures Evident(ErrorChanged, s) <==> Documented(ErrorChanged, s)
  {
    if i, j :| 0 <= i < |s| && 0 <= j < |s| && ErrorOf(s[i]).Some? && ErrorOf(s[j]).Some? &&
               ErrorOf(s[i]) != ErrorOf(s[j]) {
      assert FailsWith(s[i], ErrorOf(s[i]).value) && FailsWith(s[j], ErrorOf(s[j]).value);
    }
  }

  lemma {:induction false} InputsOf(a: TraceEvent, b: TraceEvent)
    ensures SameHypothesis(a, b) && ExperimentOf(a) != ExperimentOf(b) <==> TestsOtherwise(a, b)
  {
    if SameHypothesis(a, b) {
      var x := ExperimentInput(a);
      var y := ExperimentInput(b);
      var h := ExperimentOf(a).value.hypothesis;
      InputsCompared(a, b, h, x, y);
      assert Tests(a, h, x) && Tests(b, h, y);
    }
    if h, x, y :| Tests(a, h, x) && Tests(b, h, y) && !SameValue(Stable(x), Stable(y)) {
      InputsCompared(a, b, h, x, y);
    }
  }

  lemma {:induction false} InputsCompared(a: TraceEvent, b: TraceEvent, h: string, x: Json, y: Json)
    requires Tests(a, h, x) && Tests(b, h, y)
    ensures SameHypothesis(a, b)
    ensures ExperimentOf(a) == ExperimentOf(b) <==> SameValue(Stable(x), Stable(y))
  {
    ExperimentIs(a, h, x);
    ExperimentIs(b, h, y);
    SameInput(x, y);
  }

  lemma {:induction false} InputsDiffer(s: Trace)
    ensures Evident(HypothesisInputChanged, s) <==> Documented(HypothesisInputChanged, s)
  {
    forall i, j | 0 <= i < |s| && 0 <= j < |s|
      ensures SameHypothesis(s[i], s[j]) && ExperimentOf(s[i]) != ExperimentOf(s[j]) <==> TestsOtherwise(s[i], s[j])
    {
      InputsOf(s[i], s[j]);
    }
  }

  lemma {:induction false} FramesDiffer(s: Trace)
    ensures Evident(StackFrameAdded, s) <==> Documented(StackFrameAdded, s)
  {
    forall i, x | 0 <= i < |s|
      ensures x in FramesOf(s[i]) <==> ShowsFrame(s[i], x)
    {
      FrameIs(s[i], x);
    }
  }

  lemma {:induction false} EvidenceDiffers(s: Trace)
    ensures Evident(EvidenceAdded, s) <==> Documented(EvidenceAdded, s)
  {
    forall i, x | 0 <= i < |s|
      ensures x in EvidenceOf(s[i]) <==> Cites(s[i], x)
    {
      RefIs(s[i], x);
    }
  }

  lemma {:induction false} EliminationsDiffer(s: Trace)
    ensures Evident(HypothesisEliminated, s) <==> Documented(HypothesisEliminated, s)
  {
    forall i, h | 0 <= i < |s|
      ensures h in EliminatedOf(s[i]) <==> RulesOut(s[i], h)
    {
      EliminationIs(s[i], h);
    }
    forall i | 0 <= i < |s|
      ensures EliminatedOf(s[i]) != [] <==> exists h :: RulesOut(s[i], h)
    {
      if EliminatedOf(s[i]) != [] {
        assert EliminatedOf(s[i])[0] in EliminatedOf(s[i]);
      }
    }
    forall f: nat
      ensures FirstElimination(s, f) <==> FirstRuling(s, f)
    {
    }
  }

  lemma {:induction false} ChecksRepeat(s: Trace)
    ensures Evident(RequiredAcceptanceVerified, s) <==> Documented(RequiredAcceptanceVerified, s)
  {
    forall i | 0 <= i < |s|
      ensures IsRequiredCheck(s[i]) <==> ChecksRequired(s[i])
    {
      CheckIs(s[i]);
    }
  }

  lemma {:induction false} HandoffsHandOver(s: Trace)
    ensures Evident(ProductiveHandoff, s) <==> Documented(ProductiveHandoff, s)
  {
    forall i | 0 <= i < |s|
      ensures IsProductiveHandoff(s[i]) <==> HandsOver(s[i])
    {
      HandoffIs(s[i]);
    }
  }

  lemma {:induction false} StatesOf(s: Trace, i: nat, j: nat)
    requires i < |s| && j < |s|
    ensures ExpectedFrom(s, i).Some? && IsObservation(s[j]) && ExpectedFrom(s, i) != StateFingerprint(s[j]) <==>
      Fulfils(s, i, j)
  {
    forall a
      ensures LatestState(s, i + 1) == Some(a) <==> StateIs(s, i, a)
    {
      StateAt(s, i, a);
    }
    if LatestState(s, i + 1).Some? {
      assert StateIs(s, i, LatestState(s, i + 1).value);
    }
  }

  lemma {:induction false} StatesDiffer(s: Trace)
    ensures Evident(ExpectedStateChangeObserved, s) <==> Documented(ExpectedStateChangeObserved, s)
  {
    forall i: nat, j: nat | i < |s| && j < |s|
      ensures ExpectedFrom(s, i).Some? && IsObservation(s[j]) && ExpectedFrom(s, i) != StateFingerprint(s[j]) <==>
        Fulfils(s, i, j)
    {
      StatesOf(s, i, j);
    }
  }

  ghost predicate Nearer(a: TraceEvent, b: TraceEvent) {
    && PollOf(a).Some? && PollOf(b).Some? && PollOf(a).value.key == PollOf(b).value.key
    && PollOf(b).value.distance < PollOf(a).value.distance
  }

  lemma {:induction false} ReadingsOf(a: TraceEvent, b: TraceEvent)
    ensures Nearer(a, b) <==> Approaches(a, b)
  {
    if Nearer(a, b) {
      var u := PollReading(a);
      var v := PollReading(b);
      var key := PollOf(a).value.key;
      PollIs(a, key.pollId, u, key.target);
      PollIs(b, key.pollId, v, key.target);
      assert Polls(a, key.pollId, u, key.target) && Polls(b, key.pollId, v, key.target);
    }
    if p, u, v, t :| Polls(a, p, u, t) && Polls(b, p, v, t) && (u < v < 2.0 * t - u || 2.0 * t - u < v < u) {
      PollIs(a, p, u, t);
      PollIs(b, p, v, t);
    }
  }

  lemma {:induction false} ReadingsApproach(s: Trace)
    ensures Evident(PollConverging, s) <==> Documented(PollConverging, s)
  {
    forall i, j | 0 <= i < |s| && 0 <= j < |s|
      ensures Nearer(s[i], s[j]) <==> Approaches(s[i], s[j])
    {
      ReadingsOf(s[i], s[j]);
    }
    assert Evident(PollConverging, s) <==> exists i, j :: 0 <= i < j < |s| && Nearer(s[i], s[j]);
  }

  /** The classifier reports a reason exactly when the events document it. */
  lemma {:induction false} ReportedIffDocumented(r: Reason, s: Trace)
    ensures r in Classification(s).reasonCodes <==> Documented(r, s)
  {
    ClassifierDecidesEvident(s);
    match r
    case PaginationAdvanced => CursorsDiffer(s);
    case BatchItemChanged => ItemsDiffer(s);
    case HypothesisInputChanged => InputsDiffer(s);
    case ErrorChanged => ErrorsDiffer(s);
    case StackFrameAdded => FramesDiffer(s);
    case EvidenceAdded => EvidenceDiffers(s);
    case HypothesisEliminated => EliminationsDiffer(s);
    case RequiredAcceptanceVerified => ChecksRepeat(s);
    case ProductiveHandoff => HandoffsHandOver(s);
    case ExpectedStateChangeObserved => StatesDiffer(s);
    case PollConverging => ReadingsApproach(s);
  }
}

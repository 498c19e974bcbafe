/** Validated trace events and the identities detectors compare them by. */
module TraceEvents {
  import opened Prelude
  import opened Fingerprints

  datatype TraceKind =
    | Message | Plan | ToolCall | ToolResult | StateObservation
    | AcceptanceCheck | Handoff | Error | Budget

  datatype EffectClass = ReadOnly | IdempotentWrite | NonIdempotentWrite | Unknown

  datatype BudgetCounters = BudgetCounters(turns: nat, toolCalls: nat, tokens: nat, elapsedSeconds: real, cost: real)

  /** A payload that is one JSON string is text to the fingerprint boundary, which
      loads it: `parsed` is what its JSON loader makes of the text. If that is a
      string again, canonicalization loads it once more, and `reparsed` is what the
      loader makes of the inner text. `None` is a text the loader refuses. */
  datatype Payload = Text(text: string, parsed: Option<Json>, reparsed: Option<Json>) | Value(json: NonText)

  /** The fields the pipeline reads. */
  datatype TraceEvent = TraceEvent(
    runId: string,
    eventId: string,
    sequence: nat,
    kind: TraceKind,
    effectClass: EffectClass,
    payload: Option<Payload>,
    payloadDigest: Option<string>,
    parentEventId: Option<string>,
    stateFingerprint: Option<string>,
    errorFingerprint: Option<string>,
    acceptanceDelta: Option<string>,
    evidenceRefs: Option<seq<string>>,
    budgetCounters: Option<BudgetCounters>,
    expectedStateChange: Option<bool>)

  type Trace = seq<TraceEvent>

  /** One run, numbered without gaps. */
  ghost predicate Contiguous(s: Trace) {
    forall i | 0 <= i < |s| - 1 :: s[i + 1].sequence == s[i].sequence + 1 && s[i + 1].runId == s[i].runId
  }

  predicate UniqueIds(s: Trace) {
    forall i, j | 0 <= i < j < |s| :: s[i].eventId != s[j].eventId
  }

  /** What the trace contract asks of one event beyond its types: sequence numbers from 1
      on, not both a payload and a digest (an event with neither refers to a payload kept
      elsewhere), and no negative counter. Identifiers are any strings. */
  predicate InContract(e: TraceEvent) {
    && e.sequence >= 1
    && (e.payload.None? || e.payloadDigest.None?)
    && (e.budgetCounters.Some? ==> e.budgetCounters.value.elapsedSeconds >= 0.0 && e.budgetCounters.value.cost >= 0.0)
  }

  /** A trace the detectors can be given. */
  ghost predicate Admissible(s: Trace) {
    Contiguous(s) && UniqueIds(s) && forall i | 0 <= i < |s| :: InContract(s[i])
  }

  function NonEmpty(o: Option<string>): Option<string> {
    if o.Some? && o.value != "" then o else None
  }

  /** The nonempty state fingerprint, on whatever kind of event. */
  function StateFingerprint(e: TraceEvent): Option<string> {
    NonEmpty(e.stateFingerprint)
  }

  /** A state observation that says which state it saw. */
  predicate IsObservation(e: TraceEvent) {
    e.kind.StateObservation? && StateFingerprint(e).Some?
  }

  predicate ExpectsChange(e: TraceEvent) {
    e.expectedStateChange == Some(true)
  }

  function PayloadObject(e: TraceEvent): Option<map<string, Json>> {
    if e.payload.Some? && e.payload.value.Value? && e.payload.value.json.Obj?
    then Some(e.payload.value.json.fields)
    else None
  }

  /** A field of an object payload. */
  function Field(e: TraceEvent, name: string): Option<Json> {
    var fields := PayloadObject(e);
    if fields.Some? && name in fields.value then Some(fields.value[name]) else None
  }

  function StringField(e: TraceEvent, name: string): Option<string> {
    var field := Field(e, name);
    if field.Some? && field.value.Str? then Some(field.value.text) else None
  }

  /** A field that is an array of strings. */
  function StringsField(e: TraceEvent, name: string): Option<seq<string>> {
    var field := Field(e, name);
    if field.Some? && field.value.Arr? && (forall item | item in field.value.items :: item.Str?)
    then Some(seq(|field.value.items|, i requires 0 <= i < |field.value.items| =>
                    assert field.value.items[i] in field.value.items; field.value.items[i].text))
    else None
  }

  // ---------------------------------------------------------------- identity

  /** A declared digest and a computed one are never the same identity. */
  datatype Identity = DeclaredDigest(digest: string) | PayloadDigest(canonical: Json)

  datatype IdentityError = InvalidPayloadIdentity

  ghost function PayloadFingerprint(p: Payload): Result<Fingerprint, FingerprintError> {
    match p
    case Text(_, None, _) => Err(InvalidJson)
    case Text(_, Some(tree), reparsed) => FingerprintOf(tree, reparsed, [])
    case Value(tree) => FingerprintOf(tree, None, [])
  }

  ghost function IdentityOf(e: TraceEvent): Result<Option<Identity>, IdentityError> {
    if NonEmpty(e.payloadDigest).Some? then Ok(Some(DeclaredDigest(e.payloadDigest.value)))
    else if e.payload.None? then Ok(None)
    else
      var fingerprint := PayloadFingerprint(e.payload.value);
      if fingerprint.Err? then Err(InvalidPayloadIdentity) else Ok(Some(PayloadDigest(fingerprint.value.digest)))
  }

  method ComputeIdentity(e: TraceEvent) returns (r: Result<Option<Identity>, IdentityError>)
    ensures r == IdentityOf(e)
  {
    if NonEmpty(e.payloadDigest).Some? {
      return Ok(Some(DeclaredDigest(e.payloadDigest.value)));
    }
    if e.payload.None? {
      return Ok(None);
    }
    var fingerprint: Result<Fingerprint, FingerprintError>;
    match e.payload.value {
      case Text(_, None, _) => fingerprint := Err(InvalidJson);
      case Text(_, Some(tree), reparsed) => fingerprint := ActionFingerprint(tree, reparsed, []);
      case Value(tree) => fingerprint := ActionFingerprint(tree, None, []);
    }
    return if fingerprint.Err? then Err(InvalidPayloadIdentity) else Ok(Some(PayloadDigest(fingerprint.value.digest)));
  }

  /** Exactly which events have no identity at all: a payload that is an array or holds
      an integer outside the exact range, and text that is no JSON value, or one of
      these, or the text of a string that in turn is no JSON value or holds such an
      integer. An array inside a string inside a string is accepted. */
  lemma {:induction false} IdentityFails(e: TraceEvent)
    ensures IdentityOf(e).Err? <==>
      NonEmpty(e.payloadDigest).None? && e.payload.Some? &&
      match e.payload.value {
        case Value(tree) => tree.Arr? || !SafeIntegers(tree)
        case Text(_, parsed, reparsed) =>
          parsed.None? || parsed.value.Arr? || !SafeIntegers(parsed.value) || Unreadable(parsed.value, reparsed)
      }
  {
    if e.payload.Some? {
      match e.payload.value
      case Value(tree) => DefaultFingerprint(tree, None);
      case Text(_, parsed, reparsed) => if parsed.Some? { DefaultFingerprint(parsed.value, reparsed); }
    }
  }

  /** The text `"abc"`, quotes included, loads to the string `abc`, which is no JSON
      text: the event has no identity. */
  lemma {:induction false} QuotedTextHasNoIdentity(e: TraceEvent)
    requires NonEmpty(e.payloadDigest).None?
    requires e.payload == Some(Text("\"abc\"", Some(Str("abc")), None))
    ensures IdentityOf(e) == Err(InvalidPayloadIdentity)
  {
    IdentityFails(e);
  }

  /** The number 1 and the text `"1"`, quotes included, have the same identity. */
  lemma {:induction false} QuotedNumberIsTheNumber(number: TraceEvent, quoted: TraceEvent)
    requires NonEmpty(number.payloadDigest).None? && NonEmpty(quoted.payloadDigest).None?
    requires number.payload == Some(Value(Int(1)))
    requires quoted.payload == Some(Text("\"1\"", Some(Str("1")), Some(Int(1))))
    ensures IdentityOf(number) == IdentityOf(quoted) == Ok(Some(PayloadDigest(Float(1.0))))
  {
    DefaultFingerprint(Int(1), None);
    DefaultFingerprint(Str("1"), Some(Int(1)));
  }

  /** What is compared of a payload tree: an object without its volatile fields, and any
      other value as it is; nothing for an array or where an integer is not exact. */
  ghost function Compared(tree: Json): Option<Json> {
    if tree.Arr? || !SafeIntegers(tree) then None
    else if tree.Obj? then Some(Obj(tree.fields - {"event_id", "timestamp", "request_id"}))
    else Some(tree)
  }

  /** What is compared of a payload: text is loaded first, and once more if it is the text
      of a string; what comes out then is compared as a whole. */
  ghost function Content(payload: Payload): Option<Json> {
    match payload
    case Value(tree) => Compared(tree)
    case Text(_, None, _) => None
    case Text(_, Some(Str(_)), reparsed) => if reparsed.Some? && SafeIntegers(reparsed.value) then reparsed else None
    case Text(_, Some(tree), _) => Compared(tree)
  }

  ghost predicate Declares(e: TraceEvent, digest: string) {
    digest != "" && e.payloadDigest == Some(digest)
  }

  /** The event is identified by the content of its payload. */
  ghost predicate Shows(e: TraceEvent, content: Json) {
    && e.payloadDigest in {None, Some("")}
    && e.payload.Some? && Content(e.payload.value) == Some(content)
  }

  /** The payload is all there is to identify the event by, and it has no content. */
  ghost predicate CannotBeIdentified(e: TraceEvent) {
    e.payloadDigest in {None, Some("")} && e.payload.Some? && Content(e.payload.value).None?
  }

  /** Two events with one identity: one declared digest, or payloads of the same value. */
  ghost predicate Alike(a: TraceEvent, b: TraceEvent) {
    || (exists digest :: Declares(a, digest) && Declares(b, digest))
    || (exists x, y :: Shows(a, x) && Shows(b, y) && SameValue(x, y))
  }

  lemma {:induction false} VolatileFields()
    ensures Elements(VOLATILE_FIELDS) == {"event_id", "timestamp", "request_id"}
  {
    assert VOLATILE_FIELDS == ["event_id", "timestamp", "request_id"];
  }

  lemma {:induction false} ContentIsDigested(payload: Payload)
    ensures PayloadFingerprint(payload).Ok? <==> Content(payload).Some?
    ensures Content(payload).Some? ==> PayloadFingerprint(payload).value.digest == Canonical(Content(payload).value)
  {
    VolatileFields();
    match payload
    case Value(tree) => DefaultFingerprint(tree, None);
    case Text(_, None, _) =>
    case Text(_, Some(tree), reparsed) => DefaultFingerprint(tree, reparsed);
  }

  /** What the identity of an event is, in each of the four cases. */
  lemma {:induction false} IdentityMeaning(e: TraceEvent)
    ensures forall digest | Declares(e, digest) :: IdentityOf(e) == Ok(Some(DeclaredDigest(digest)))
    ensures forall content | Shows(e, content) :: IdentityOf(e) == Ok(Some(PayloadDigest(Canonical(content))))
    ensures IdentityOf(e).Err? <==> CannotBeIdentified(e)
    ensures IdentityOf(e) == Ok(None) <==> e.payloadDigest in {None, Some("")} && e.payload.None?
    ensures IdentityOf(e).Ok? && IdentityOf(e).value.Some? ==>
      (exists digest :: Declares(e, digest)) || (exists content :: Shows(e, content))
  {
    if e.payloadDigest !in {None, Some("")} {
      assert Declares(e, e.payloadDigest.value);
    } else if e.payload.Some? {
      ContentIsDigested(e.payload.value);
      if Content(e.payload.value).Some? {
        assert Shows(e, Content(e.payload.value).value);
      }
    }
  }

  ghost predicate HasIdentity(e: TraceEvent) {
    IdentityOf(e).Ok? && IdentityOf(e).value.Some?
  }

  /** Exactly when two events have one identity. */
  lemma {:induction false} AlikeExactly(a: TraceEvent, b: TraceEvent)
    ensures HasIdentity(a) && IdentityOf(a) == IdentityOf(b) <==> Alike(a, b)
  {
    IdentityMeaning(a);
    IdentityMeaning(b);
    forall x, y | Shows(a, x) && Shows(b, y)
      ensures IdentityOf(a) == IdentityOf(b) <==> SameValue(x, y)
    {
      CanonicalMeaning(x, y);
    }
  }

  /** Two object payloads are the same identity exactly when they are the same value
      outside the three volatile top-level fields. */
  lemma {:induction false} SameIdentity(a: TraceEvent, b: TraceEvent)
    requires PayloadObject(a).Some? && PayloadObject(b).Some?
    requires NonEmpty(a.payloadDigest).None? && NonEmpty(b.payloadDigest).None?
    requires IdentityOf(a).Ok? && IdentityOf(b).Ok?
    ensures IdentityOf(a) == IdentityOf(b) <==>
      SameValue(Obj(PayloadObject(a).value - {"event_id", "timestamp", "request_id"}),
                Obj(PayloadObject(b).value - {"event_id", "timestamp", "request_id"}))
  {
    IdentityMeaning(a);
    IdentityMeaning(b);
    AlikeExactly(a, b);
  }

  // ------------------------------------------------------------ identifiers

  predicate SafeCharacter(c: char, first: bool) {
    ('A' <= c <= 'Z') || ('a' <= c <= 'z') || ('0' <= c <= '9') || (!first && c in "._:-")
  }

  /** The public identifier pattern, 1 to 128 characters. */
  predicate SafeIdentifier(id: string) {
    0 < |id| <= 128 && forall i | 0 <= i < |id| :: SafeCharacter(id[i], i == 0)
  }

  /** The same pattern as a schema applies it: its `$` also matches before a final newline. */
  predicate SchemaIdentifier(id: string) {
    SafeIdentifier(id) || (1 < |id| <= 128 && id[|id| - 1] == '\n' && SafeIdentifier(id[..|id| - 1]))
  }

  /** A letter or digit of ASCII. */
  ghost predicate Alphanumeric(c: char) {
    48 <= c as int <= 57 || 65 <= c as int <= 90 || 97 <= c as int <= 122
  }

  /** A safe identifier starts with a letter or digit and goes on with letters, digits,
      dots, underscores, colons and hyphens; a schema also takes one newline after it. */
  lemma {:induction false} IdentifierMeaning(id: string)
    ensures SafeIdentifier(id) <==>
      && 1 <= |id| <= 128 && Alphanumeric(id[0])
      && forall c | c in id :: Alphanumeric(c) || c == '.' || c == '_' || c == ':' || c == '-'
    ensures SchemaIdentifier(id) <==>
      SafeIdentifier(id) || exists name: string :: SafeIdentifier(name) && |name| <= 127 && id == name + "\n"
  {
    if |id| > 0 && id[|id| - 1] == '\n' {
      assert id == id[..|id| - 1] + "\n";
    }
    forall name: string | id == name + "\n"
      ensures id[..|id| - 1] == name && id[|id| - 1] == '\n'
    {
    }
    if forall c | c in id :: Alphanumeric(c) || c == '.' || c == '_' || c == ':' || c == '-' {
      assert forall i | 0 <= i < |id| :: id[i] in id;
    }
  }
}

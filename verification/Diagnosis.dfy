/** Diagnosis: exact markers and findings become a closed, ordered list of causes with
    bounded evidence. */
module Diagnosis {
  import opened Prelude
  import opened Fingerprints
  import opened TraceEvents
  import opened RunPolicies
  import GraphValidation

  datatype Cause =
    | MissingKnowledge | IncorrectPlan | UnsuitableTool | RuntimeDefect
    | MissingAuthority | UnsafeSideEffect | AmbiguousCompletion | ExhaustedBudget

  const CAUSE_ORDER: seq<Cause> :=
    [MissingKnowledge, IncorrectPlan, UnsuitableTool, RuntimeDefect,
     MissingAuthority, UnsafeSideEffect, AmbiguousCompletion, ExhaustedBudget]

  function CauseNamed(text: string): Option<Cause> {
    match text
    case "missing_knowledge" => Some(MissingKnowledge)
    case "incorrect_plan" => Some(IncorrectPlan)
    case "unsuitable_tool" => Some(UnsuitableTool)
    case "runtime_defect" => Some(RuntimeDefect)
    case "missing_authority" => Some(MissingAuthority)
    case "unsafe_side_effect" => Some(UnsafeSideEffect)
    case "ambiguous_completion" => Some(AmbiguousCompletion)
    case "exhausted_budget" => Some(ExhaustedBudget)
    case _ => None
  }

  function MarkerOf(e: TraceEvent): Option<Cause> {
    var text := StringField(e, "diagnostic_cause");
    if e.kind in {Plan, Error} && text.Some? then CauseNamed(text.value) else None
  }

  /** Only deterministic hard evidence is a cause by itself. */
  function FindingCause(f: Finding): Option<Cause> {
    if f.matched && f.findingClass.RiskClass? && f.reason.RiskDetected? then Some(UnsafeSideEffect)
    else if f.matched && f.findingClass.BudgetClass? && f.reason.BudgetLimitReached? then Some(ExhaustedBudget)
    else None
  }

  function NonEmptyTexts(items: seq<Json>): seq<string> {
    if items == [] then []
    else (if items[0].Str? && items[0].text != "" then [items[0].text] else []) + NonEmptyTexts(items[1..])
  }

  /** The hypotheses a plan rejects; malformed items are skipped one by one. */
  function RejectedBy(e: TraceEvent): seq<string> {
    var listed := Field(e, "eliminated_hypotheses");
    if e.kind.Plan? && listed.Some? && listed.value.Arr? then NonEmptyTexts(listed.value.items) else []
  }

  const MAX_INPUT_CHARS: nat := 1048576

  /** The length of one character in a JSON string. */
  function EscapedLength(c: char): nat {
    if c in "\"\\\n\r\t\U{8}\U{c}" then 2 else if c < ' ' then 6 else 1
  }

  /** Quotes, backslashes and the five short escapes take two characters, other control
      characters six, and everything else one. */
  lemma {:induction false} EscapedLengthMeaning(c: char)
    ensures EscapedLength(c) == 2 <==> c as int in {34, 92, 8, 9, 10, 12, 13}
    ensures EscapedLength(c) == 6 <==> c as int < 32 && c as int !in {8, 9, 10, 12, 13}
    ensures EscapedLength(c) in {1, 2, 6}
  {
  }

  function EscapedChars(text: string): nat {
    if text == "" then 0 else EscapedLength(text[0]) + EscapedChars(text[1..])
  }

  /** A hypothesis is written as JSON text and canonicalized from there, within the
      limits of the JSON loader: escapes can make a legal string too long. */
  predicate Encodable(text: string) {
    |text| <= GraphValidation.MAX_STRING_CHARS && EscapedChars(text) + 2 <= MAX_INPUT_CHARS
  }

  lemma {:induction false} EscapedCharsBounds(text: string)
    ensures |text| <= EscapedChars(text) <= 6 * |text|
    ensures (forall c | c in text :: EscapedLength(c) == 6) ==> EscapedChars(text) == 6 * |text|
  {
    if text != "" {
      EscapedCharsBounds(text[1..]);
    }
  }

  /** A sixth of the input limit is always encodable; a legal string of control
      characters beyond that never is. */
  lemma {:induction false} EncodableBounds(text: string)
    ensures |text| > 262144 ==> !Encodable(text)
    ensures 6 * |text| + 2 <= 1048576 ==> Encodable(text)
    ensures 6 * |text| + 2 > 1048576 && (forall c | c in text :: EscapedLength(c) == 6) ==> !Encodable(text)
  {
    EscapedCharsBounds(text);
  }

  /** What one input contributes: a cause, supporting events, rejected hypotheses. */
  datatype Reading = Reading(cause: Option<Cause>, support: seq<string>, rejected: seq<string>)

  function EventReading(e: TraceEvent): Reading {
    var cause, rejected := MarkerOf(e), RejectedBy(e);
    Reading(cause, if cause.Some? || rejected != [] then [e.eventId] else [], rejected)
  }

  function FindingReading(f: Finding): Reading {
    var cause := FindingCause(f);
    Reading(cause, if cause.Some? then f.eventIds else [], [])
  }

  ghost function EventReadings(s: Trace, n: nat): (xs: seq<Reading>)
    requires n <= |s|
    ensures |xs| == n
  {
    if n == 0 then [] else EventReadings(s, n - 1) + [EventReading(s[n - 1])]
  }

  ghost function FindingReadings(fs: seq<Finding>, n: nat): (xs: seq<Reading>)
    requires n <= |fs|
    ensures |xs| == n
  {
    if n == 0 then [] else FindingReadings(fs, n - 1) + [FindingReading(fs[n - 1])]
  }

  ghost function TraceReadings(s: Trace): seq<Reading> {
    EventReadings(s, |s|)
  }

  /** Everything there is to read, in order. */
  ghost function Readings(s: Trace, fs: seq<Finding>): seq<Reading> {
    TraceReadings(s) + FindingReadings(fs, |fs|)
  }

  ghost function AllSupport(xs: seq<Reading>): seq<string> {
    if xs == [] then [] else AllSupport(xs[..|xs| - 1]) + xs[|xs| - 1].support
  }

  ghost function AllRejected(xs: seq<Reading>): seq<string> {
    if xs == [] then [] else AllRejected(xs[..|xs| - 1]) + xs[|xs| - 1].rejected
  }

  ghost predicate HasCause(xs: seq<Reading>, c: Cause) {
    exists x :: x in xs && x.cause == Some(c)
  }

  lemma {:induction false} EventReadingAt(s: Trace, n: nat, i: nat)
    requires i < n <= |s|
    ensures EventReadings(s, n)[i] == EventReading(s[i])
  {
    if i < n - 1 {
      EventReadingAt(s, n - 1, i);
    }
  }

  lemma {:induction false} FindingReadingAt(fs: seq<Finding>, n: nat, i: nat)
    requires i < n <= |fs|
    ensures FindingReadings(fs, n)[i] == FindingReading(fs[i])
  {
    if i < n - 1 {
      FindingReadingAt(fs, n - 1, i);
    }
  }

  lemma {:induction false} EventIsRead(s: Trace, fs: seq<Finding>, e: TraceEvent)
    requires e in s
    ensures EventReading(e) in Readings(s, fs)
  {
    var i :| 0 <= i < |s| && s[i] == e;
    EventReadingAt(s, |s|, i);
    assert Readings(s, fs)[i] == EventReading(e);
  }

  lemma {:induction false} FindingIsRead(s: Trace, fs: seq<Finding>, f: Finding)
    requires f in fs
    ensures FindingReading(f) in Readings(s, fs)
  {
    var i :| 0 <= i < |fs| && fs[i] == f;
    FindingReadingAt(fs, |fs|, i);
    assert Readings(s, fs)[|s| + i] == FindingReading(f);
  }

  /** Nothing else is. */
  lemma {:induction false} ReadFrom(s: Trace, fs: seq<Finding>, x: Reading)
    returns (e: Option<TraceEvent>, f: Option<Finding>)
    requires x in Readings(s, fs)
    ensures e.Some? || f.Some?
    ensures e.Some? ==> e.value in s && EventReading(e.value) == x
    ensures f.Some? ==> f.value in fs && FindingReading(f.value) == x
  {
    var i :| 0 <= i < |Readings(s, fs)| && Readings(s, fs)[i] == x;
    e, f := None, None;
    if i < |s| {
      EventReadingAt(s, |s|, i);
      e := Some(s[i]);
    } else {
      FindingReadingAt(fs, |fs|, i - |s|);
      f := Some(fs[i - |s|]);
    }
  }

  lemma {:induction false} SupportedBy(xs: seq<Reading>, id: string) returns (x: Reading)
    requires id in AllSupport(xs)
    ensures x in xs && id in x.support
  {
    x := xs[|xs| - 1];
    if id !in x.support {
      x := SupportedBy(xs[..|xs| - 1], id);
    }
  }

  /** A cause is a marker of some event or the hard evidence of some finding. */
  lemma {:induction false} HasCauseMeaning(c: Cause, s: Trace, fs: seq<Finding>)
    ensures HasCause(Readings(s, fs), c) <==>
      (exists e :: e in s && MarkerOf(e) == Some(c)) || (exists f :: f in fs && FindingCause(f) == Some(c))
  {
    var xs := Readings(s, fs);
    if x :| x in xs && x.cause == Some(c) {
      var e, f := ReadFrom(s, fs, x);
    }
    if e :| e in s && MarkerOf(e) == Some(c) {
      EventIsRead(s, fs, e);
      assert EventReading(e).cause == Some(c);
    }
    if f :| f in fs && FindingCause(f) == Some(c) {
      FindingIsRead(s, fs, f);
      assert FindingReading(f).cause == Some(c);
    }
  }

  // ---------------------------------------------------------------- the record

  datatype Disposition = Verify | Assume | Escalate | Block

  datatype Uncertainty = Uncertainty(cause: Cause, disposition: Disposition, highRisk: bool)

  const HIGH_RISK: set<Cause> := {MissingAuthority, UnsafeSideEffect, ExhaustedBudget}

  function UncertaintyOf(c: Cause): Uncertainty {
    Uncertainty(c, match c
                   case MissingAuthority => Escalate
                   case UnsafeSideEffect => Block
                   case ExhaustedBudget => Block
                   case _ => Verify,
        c in HIGH_RISK)
  }

  /** High-risk causes are escalated or blocked, and the others are to be verified. */
  lemma {:induction false} UncertaintyMeaning(c: Cause)
    ensures UncertaintyOf(c).cause == c
    ensures UncertaintyOf(c).disposition == Escalate <==> c == MissingAuthority
    ensures UncertaintyOf(c).disposition == Block <==> c == UnsafeSideEffect || c == ExhaustedBudget
    ensures UncertaintyOf(c).disposition != Assume
    ensures UncertaintyOf(c).highRisk <==> UncertaintyOf(c).disposition != Verify
  {
  }

  datatype Record = Record(
    runId: string,
    causes: seq<Cause>,
    uncertainties: seq<Uncertainty>,
    evidence: seq<string>,
    rejected: seq<string>)

  const MAX_EVIDENCE: nat := 1000
  const MAX_REJECTED: nat := 100

  function CauseRank(c: Cause): (k: nat)
    ensures k < |CAUSE_ORDER| && CAUSE_ORDER[k] == c
  {
    match c
    case MissingKnowledge => 0
    case IncorrectPlan => 1
    case UnsuitableTool => 2
    case RuntimeDefect => 3
    case MissingAuthority => 4
    case UnsafeSideEffect => 5
    case AmbiguousCompletion => 6
    case ExhaustedBudget => 7
  }

  /** The record's own state check. */
  predicate ValidRecord(d: Record) {
    && SafeIdentifier(d.runId)
    && (forall i, j | 0 <= i < j < |d.causes| :: CauseRank(d.causes[i]) < CauseRank(d.causes[j]))
    && |d.uncertainties| == |d.causes|
    && (forall i | 0 <= i < |d.causes| ::
          && d.uncertainties[i].cause == d.causes[i]
          && d.uncertainties[i].highRisk == (d.causes[i] in HIGH_RISK)
          && !(d.uncertainties[i].disposition.Assume? && d.uncertainties[i].highRisk))
    && Distinct(d.evidence) && |d.evidence| <= MAX_EVIDENCE && (forall id | id in d.evidence :: SafeIdentifier(id))
    && Distinct(d.rejected) && |d.rejected| <= MAX_REJECTED
  }

  /** The observed causes, in the fixed order. */
  function InOrder(observed: set<Cause>, n: nat): seq<Cause>
    requires n <= |CAUSE_ORDER|
  {
    if n == 0 then []
    else InOrder(observed, n - 1) + if CAUSE_ORDER[n - 1] in observed then [CAUSE_ORDER[n - 1]] else []
  }

  ghost function ObservedCauses(xs: seq<Reading>): set<Cause> {
    set c: Cause | HasCause(xs, c)
  }

  /** What a diagnosis contains, as a function of what was read. */
  ghost function RecordOf(runId: string, xs: seq<Reading>): Record {
    var causes := InOrder(ObservedCauses(xs), |CAUSE_ORDER|);
    Record(runId, causes, seq(|causes|, i requires 0 <= i < |causes| => UncertaintyOf(causes[i])),
           Dedup(AllSupport(xs)), Dedup(AllRejected(xs)))
  }

  /** When there is one. */
  ghost predicate Diagnosable(runId: string, xs: seq<Reading>) {
    && SafeIdentifier(runId)
    && |Dedup(AllSupport(xs))| <= MAX_EVIDENCE
    && (forall id | id in Dedup(AllSupport(xs)) :: SafeIdentifier(id))
    && |Dedup(AllRejected(xs))| <= MAX_REJECTED
    && forall text | text in AllRejected(xs) :: Encodable(text)
  }

  lemma {:induction false} InOrderMeaning(observed: set<Cause>, n: nat)
    requires n <= |CAUSE_ORDER|
    ensures forall c :: c in InOrder(observed, n) <==> c in observed && CauseRank(c) < n
    ensures forall i, j | 0 <= i < j < |InOrder(observed, n)| ::
      CauseRank(InOrder(observed, n)[i]) < CauseRank(InOrder(observed, n)[j])
  {
    if n > 0 {
      InOrderMeaning(observed, n - 1);
      RankOfCause(n - 1);
      var front := InOrder(observed, n - 1);
      forall i | 0 <= i < |front|
        ensures CauseRank(front[i]) < n - 1
      {
        assert front[i] in front;
      }
    }
  }

  lemma {:induction false} RankOfCause(k: nat)
    requires k < |CAUSE_ORDER|
    ensures CauseRank(CAUSE_ORDER[k]) == k
  {
  }

  /** Every diagnosis that is made passes the record's state check, and its causes are
      exactly the observed ones. The check fails exactly where there is no diagnosis,
      but for a hypothesis that cannot be encoded, which never reaches a record. */
  lemma {:induction false} DiagnosisIsValid(runId: string, xs: seq<Reading>)
    ensures Diagnosable(runId, xs) <==>
      ValidRecord(RecordOf(runId, xs)) && forall text | text in RecordOf(runId, xs).rejected :: Encodable(text)
    ensures forall c :: c in RecordOf(runId, xs).causes <==> HasCause(xs, c)
  {
    InOrderMeaning(ObservedCauses(xs), |CAUSE_ORDER|);
    DedupMeaning(AllSupport(xs));
    DedupMeaning(AllRejected(xs));
    forall c: Cause
      ensures CauseRank(c) < |CAUSE_ORDER|
    {
    }
  }

  // ----------------------------------------------------------------- the loops

  datatype DiagnosisError = EvidenceLimit | RejectedHypothesisLimit | InvalidTraceEvent | InvalidRecord

  datatype Gathered = Gathered(observed: set<Cause>, evidence: seq<string>, rejected: seq<string>)

  /** What has been gathered is what the readings so far contain. */
  ghost predicate Gathers(xs: seq<Reading>, g: Gathered) {
    && g.observed == ObservedCauses(xs)
    && g.evidence == Dedup(AllSupport(xs)) && |g.evidence| <= MAX_EVIDENCE
    && g.rejected == Dedup(AllRejected(xs)) && |g.rejected| <= MAX_REJECTED
    && forall text | text in AllRejected(xs) :: Encodable(text)
  }

  ghost predicate TooMuch(xs: seq<Reading>) {
    || |Dedup(AllSupport(xs))| > 1000
    || |Dedup(AllRejected(xs))| > 100
    || exists text :: text in AllRejected(xs) && !Encodable(text)
  }

  /** Reading more never helps. */
  lemma {:induction false} TooMuchStays(xs: seq<Reading>, ys: seq<Reading>)
    requires TooMuch(xs)
    ensures TooMuch(xs + ys)
  {
    if ys == [] {
      assert xs + ys == xs;
    } else {
      var front, last := ys[..|ys| - 1], ys[|ys| - 1];
      TooMuchStays(xs, front);
      TooMuchOneMore(xs + front, last);
      assert xs + ys == xs + front + [last];
    }
  }

  lemma {:induction false} TooMuchOneMore(xs: seq<Reading>, x: Reading)
    requires TooMuch(xs)
    ensures TooMuch(xs + [x])
  {
    assert (xs + [x])[..|xs|] == xs;
    DedupPrefix(AllSupport(xs), x.support);
    DedupPrefix(AllRejected(xs), x.rejected);
  }

  lemma {:induction false} TooMuchAfter(xs: seq<Reading>, ys: seq<Reading>)
    requires TooMuch(xs) && xs <= ys
    ensures TooMuch(ys)
  {
    TooMuchStays(xs, ys[|xs|..]);
    assert xs + ys[|xs|..] == ys;
  }

  method Read(x: Reading, g: Gathered, ghost xs: seq<Reading>) returns (r: Result<Gathered, DiagnosisError>)
    requires Gathers(xs, g)
    ensures r.Err? <==> TooMuch(xs + [x])
    ensures r.Ok? ==> Gathers(xs + [x], r.value)
  {
    assert (xs + [x])[..|xs|] == xs;
    var observed := g.observed + if x.cause.Some? then {x.cause.value} else {};
    assert observed == ObservedCauses(xs + [x]);
    if exists text | text in x.rejected :: !Encodable(text) {
      return Err(InvalidTraceEvent);
    }
    var evidence := AppendNew(g.evidence, AllSupport(xs), x.support, MAX_EVIDENCE);
    if evidence.None? {
      return Err(EvidenceLimit);
    }
    var rejected := AppendNew(g.rejected, AllRejected(xs), x.rejected, MAX_REJECTED);
    if rejected.None? {
      return Err(RejectedHypothesisLimit);
    }
    return Ok(Gathered(observed, evidence.value, rejected.value));
  }

  method ReadTrace(s: Trace) returns (r: Result<Gathered, DiagnosisError>)
    ensures r.Err? <==> TooMuch(TraceReadings(s))
    ensures r.Ok? ==> Gathers(TraceReadings(s), r.value)
  {
    r := Ok(Gathered({}, [], []));
    for n := 0 to |s|
      invariant r.Ok? && Gathers(EventReadings(s, n), r.value)
    {
      r := Read(EventReading(s[n]), r.value, EventReadings(s, n));
      if r.Err? {
        EventsStayTooMuch(s, n + 1);
        return;
      }
    }
  }

  lemma {:induction false} EventReadingsPrefix(s: Trace, m: nat, n: nat)
    requires m <= n <= |s|
    ensures EventReadings(s, m) <= EventReadings(s, n)
  {
    if m < n {
      EventReadingsPrefix(s, m, n - 1);
    }
  }

  lemma {:induction false} EventsStayTooMuch(s: Trace, n: nat)
    requires n <= |s| && TooMuch(EventReadings(s, n))
    ensures TooMuch(EventReadings(s, |s|))
  {
    EventReadingsPrefix(s, n, |s|);
    TooMuchAfter(EventReadings(s, n), EventReadings(s, |s|));
  }

  method ReadFindings(fs: seq<Finding>, g: Gathered, ghost before: seq<Reading>)
    returns (r: Result<Gathered, DiagnosisError>)
    requires Gathers(before, g)
    ensures r.Err? <==> TooMuch(before + FindingReadings(fs, |fs|))
    ensures r.Ok? ==> Gathers(before + FindingReadings(fs, |fs|), r.value)
  {
    r := Ok(g);
    assert before + FindingReadings(fs, 0) == before;
    for n := 0 to |fs|
      invariant r.Ok? && Gathers(before + FindingReadings(fs, n), r.value)
    {
      ghost var xs := before + FindingReadings(fs, n);
      r := Read(FindingReading(fs[n]), r.value, xs);
      assert xs + [FindingReading(fs[n])] == before + FindingReadings(fs, n + 1);
      if r.Err? {
        FindingsStayTooMuch(before, fs, n + 1);
        return;
      }
    }
  }

  lemma {:induction false} FindingReadingsPrefix(fs: seq<Finding>, m: nat, n: nat)
    requires m <= n <= |fs|
    ensures FindingReadings(fs, m) <= FindingReadings(fs, n)
  {
    if m < n {
      FindingReadingsPrefix(fs, m, n - 1);
    }
  }

  lemma {:induction false} FindingsStayTooMuch(before: seq<Reading>, fs: seq<Finding>, n: nat)
    requires n <= |fs| && TooMuch(before + FindingReadings(fs, n))
    ensures TooMuch(before + FindingReadings(fs, |fs|))
  {
    FindingReadingsPrefix(fs, n, |fs|);
    TooMuchAfter(before + FindingReadings(fs, n), before + FindingReadings(fs, |fs|));
  }

  /** The source's diagnosis of a validated trace and its findings. */
  method Diagnose(runId: string, s: Trace, fs: seq<Finding>) returns (r: Result<Record, DiagnosisError>)
    ensures r.Ok? <==> Diagnosable(runId, Readings(s, fs))
    ensures r.Ok? ==> r.value == RecordOf(runId, Readings(s, fs))
  {
    var events := ReadTrace(s);
    if events.Err? {
      TooMuchStays(TraceReadings(s), FindingReadings(fs, |fs|));
      return Err(events.error);
    }
    var all := ReadFindings(fs, events.value, TraceReadings(s));
    if all.Err? {
      return Err(all.error);
    }
    var causes := InOrder(all.value.observed, |CAUSE_ORDER|);
    var record := Record(runId, causes, seq(|causes|, i requires 0 <= i < |causes| => UncertaintyOf(causes[i])),
                         all.value.evidence, all.value.rejected);
    if !SafeIdentifier(runId) || exists id | id in record.evidence :: !SafeIdentifier(id) {
      return Err(InvalidRecord);
    }
    return Ok(record);
  }
}

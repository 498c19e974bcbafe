/** Repeated error: the same declared error twice under the same tool input. */
module RepeatedError {
  import opened Prelude
  import opened TraceEvents
  import opened Progress
  import opened DetectorOutcomes
  import opened FirstOutcomes

  /** The tool call an error happened under. A call without an identity equals only itself. */
  datatype CallContext = NoCall | Identified(identity: Identity) | Unidentified(eventId: string)

  ghost function ContextAfter(e: TraceEvent): CallContext {
    var identity := IdentityOf(e);
    if identity.Ok? && identity.value.Some? then Identified(identity.value.value) else Unidentified(e.eventId)
  }

  /** The context set by the last tool call before position `n`. */
  ghost function ContextAt(s: Trace, n: nat): CallContext
    requires n <= |s|
  {
    if n == 0 then NoCall
    else if s[n - 1].kind.ToolCall? then ContextAfter(s[n - 1])
    else ContextAt(s, n - 1)
  }

  /** What one event contributes to the comparison. */
  datatype Entry = Silent | Unidentifiable | Occurrence(error: string, context: CallContext)

  ghost function EntryOf(s: Trace, j: nat): Entry
    requires j < |s|
  {
    if s[j].kind.ToolCall? then (if IdentityOf(s[j]).Err? then Unidentifiable else Silent)
    else if ErrorOf(s[j]).Some? then Occurrence(ErrorOf(s[j]).value, ContextAt(s, j))
    else Silent
  }

  ghost function Entries(s: Trace, n: nat): (xs: seq<Entry>)
    requires n <= |s|
    ensures |xs| == n
  {
    if n == 0 then [] else Entries(s, n - 1) + [EntryOf(s, n - 1)]
  }

  lemma {:induction false} EntryAt(s: Trace, n: nat, j: nat)
    requires j < n <= |s|
    ensures Entries(s, n)[j] == EntryOf(s, j)
  {
    if j < n - 1 {
      EntryAt(s, n - 1, j);
    }
  }

  /** The earliest occurrence of an entry before `n`. */
  ghost function FirstEqual(xs: seq<Entry>, x: Entry, n: nat): (first: Option<nat>)
    requires n <= |xs|
    ensures first.Some? ==> first.value < n && xs[first.value] == x && forall i | 0 <= i < first.value :: xs[i] != x
    ensures first.None? ==> forall i | 0 <= i < n :: xs[i] != x
  {
    if n == 0 then None
    else
      var front := FirstEqual(xs, x, n - 1);
      if front.Some? then front else if xs[n - 1] == x then Some(n - 1) else None
  }

  /** All pairs: an error that repeats ANY earlier one in the same context completes the candidate. */
  ghost function EntryVerdict(xs: seq<Entry>, j: nat): Option<Outcome>
    requires j < |xs|
  {
    match xs[j]
    case Silent => None
    case Unidentifiable => Some(Fail)
    case Occurrence(_, _) =>
      var first := FirstEqual(xs, xs[j], j);
      if first.Some? then Some(Match([first.value, j])) else None
  }

  ghost function EntryVerdicts(xs: seq<Entry>): Verdicts {
    seq(|xs|, j requires 0 <= j < |xs| => EntryVerdict(xs, j))
  }

  ghost function ErrorVerdicts(s: Trace): Verdicts {
    EntryVerdicts(Entries(s, |s|))
  }

  // ----------------------------------------------------------------- the scan

  /** The index of the scan: per error and context, the first occurrence only. */
  ghost predicate IndexesFirst(xs: seq<Entry>, n: nat, firstErrors: map<(string, CallContext), nat>)
    requires n <= |xs|
  {
    forall key: (string, CallContext) ::
      var first := FirstEqual(xs, Occurrence(key.0, key.1), n);
      (key in firstErrors <==> first.Some?) && (key in firstErrors ==> firstErrors[key] == first.value)
  }

  /** Reads one event and keeps the call context. */
  method ReadEntry(s: Trace, n: nat, context: CallContext) returns (entry: Entry, context': CallContext)
    requires n < |s| && context == ContextAt(s, n)
    ensures entry == EntryOf(s, n) && context' == ContextAt(s, n + 1)
  {
    var event := s[n];
    if !event.kind.ToolCall? {
      var error := ErrorOf(event);
      return if error.Some? then Occurrence(error.value, context) else Silent, context;
    }
    var identity := ComputeIdentity(event);
    context' := if identity.Ok? && identity.value.Some? then Identified(identity.value.value)
                else Unidentified(event.eventId);
    return if identity.Err? then Unidentifiable else Silent, context';
  }

  method DetectRepeatedError(window: Trace) returns (outcome: Option<Outcome>)
    ensures outcome == FirstOutcome(ErrorVerdicts(window))
  {
    ghost var xs := Entries(window, |window|);
    ghost var verdicts := EntryVerdicts(xs);
    var context := NoCall;
    var firstErrors: map<(string, CallContext), nat> := map[];
    for position := 0 to |window|
      invariant FirstOutcome(verdicts[..position]).None?
      invariant context == ContextAt(window, position)
      invariant IndexesFirst(xs, position, firstErrors)
    {
      ScanStep(verdicts, position);
      EntryAt(window, |window|, position);
      var entry;
      entry, context := ReadEntry(window, position, context);
      match entry
      case Silent =>
      case Unidentifiable =>
        return Some(Fail);
      case Occurrence(error, under) =>
        if (error, under) in firstErrors {
          return Some(Match([firstErrors[(error, under)], position]));
        }
        firstErrors := firstErrors[(error, under) := position];
    }
    ScanEnd(verdicts);
    return None;
  }

  // -------------------------------------------------------------- what it means

  /** The same declared error under the same call. */
  ghost predicate SameError(s: Trace, i: nat, j: nat)
    requires i < |s| && j < |s|
  {
    EntryOf(s, j).Occurrence? && EntryOf(s, i) == EntryOf(s, j)
  }

  ghost predicate Decides(s: Trace, j: nat)
    requires j < |s|
  {
    EntryOf(s, j).Unidentifiable? || exists i :: 0 <= i < j && SameError(s, i, j)
  }

  ghost predicate DecidesFirst(s: Trace, j: nat)
    requires j < |s|
  {
    Decides(s, j) && forall k | 0 <= k < j :: !Decides(s, k)
  }

  ghost predicate FirstLike(s: Trace, i: nat, j: nat)
    requires i < |s| && j < |s|
  {
    SameError(s, i, j) && forall k | 0 <= k < i :: !SameError(s, k, j)
  }

  lemma {:induction false} DecidesExactly(s: Trace, j: nat)
    requires j < |s|
    ensures ErrorVerdicts(s)[j].Some? <==> Decides(s, j)
    ensures EntryOf(s, j).Unidentifiable? <==> ErrorVerdicts(s)[j] == Some(Fail)
    ensures ErrorVerdicts(s)[j].Some? && ErrorVerdicts(s)[j].value.Match? ==>
      exists i :: 0 <= i < j && FirstLike(s, i, j) && ErrorVerdicts(s)[j].value.support == [i, j]
  {
    var xs := Entries(s, |s|);
    forall k: nat | k < |s|
      ensures xs[k] == EntryOf(s, k)
    {
      EntryAt(s, |s|, k);
    }
    var first := FirstEqual(xs, xs[j], j);
    if i :| 0 <= i < j && SameError(s, i, j) {
      assert xs[i] == xs[j];
    }
    if first.Some? && xs[j].Occurrence? {
      assert FirstLike(s, first.value, j);
    }
  }

  /** Keeping only the first occurrence loses nothing: there is an outcome exactly when
      any two errors are alike (or a call has no identity), the pair reported is of that
      kind, and no earlier event decides. */
  lemma {:induction false} RepeatedErrorMeaning(s: Trace)
    ensures FirstOutcome(ErrorVerdicts(s)).Some? <==> exists j :: 0 <= j < |s| && Decides(s, j)
    ensures FirstOutcome(ErrorVerdicts(s)).Some? && FirstOutcome(ErrorVerdicts(s)).value.Match? ==>
      exists i, j :: 0 <= i < j < |s| && FirstLike(s, i, j) && DecidesFirst(s, j) &&
        FirstOutcome(ErrorVerdicts(s)).value.support == [i, j]
  {
    var verdicts := ErrorVerdicts(s);
    forall j: nat | j < |s|
      ensures verdicts[j].Some? <==> Decides(s, j)
    {
      DecidesExactly(s, j);
    }
    OutcomeIfAny(verdicts);
    if FirstOutcome(verdicts).Some? {
      var j := OutcomeIsFirst(verdicts);
      DecidesExactly(s, j);
    }
  }

  // ----------------------------------------------------------------- locality

  lemma {:induction false} ContextLocal(s: Trace, t: Trace, n: nat)
    requires n <= |s|
    ensures ContextAt(s + t, n) == ContextAt(s, n)
  {
    if n > 0 {
      ContextLocal(s, t, n - 1);
    }
  }

  lemma {:induction false} EntriesLocal(s: Trace, t: Trace, n: nat)
    requires n <= |s|
    ensures Entries(s + t, n) == Entries(s, n)
  {
    if n > 0 {
      EntriesLocal(s, t, n - 1);
      ContextLocal(s, t, n - 1);
    }
  }

  lemma {:induction false} EntriesPrefix(s: Trace, m: nat, n: nat)
    requires m <= n <= |s|
    ensures Entries(s, m) <= Entries(s, n)
  {
    if m < n {
      EntriesPrefix(s, m, n - 1);
    }
  }

  lemma {:induction false} FirstEqualLocal(xs: seq<Entry>, ys: seq<Entry>, x: Entry, n: nat)
    requires n <= |xs| && xs <= ys
    ensures FirstEqual(ys, x, n) == FirstEqual(xs, x, n)
  {
    if n > 0 {
      FirstEqualLocal(xs, ys, x, n - 1);
    }
  }

  lemma {:induction false} ErrorVerdictLocal(s: Trace, t: Trace, j: nat)
    requires j < |s|
    ensures ErrorVerdicts(s + t)[j] == ErrorVerdicts(s)[j]
  {
    var xs, ys := Entries(s, |s|), Entries(s + t, |s + t|);
    EntriesLocal(s, t, |s|);
    EntriesPrefix(s + t, |s|, |s + t|);
    FirstEqualLocal(xs, ys, xs[j], j);
  }

  lemma {:induction false} SupportInWindow(s: Trace, j: nat)
    requires j < |s| && ErrorVerdicts(s)[j].Some? && ErrorVerdicts(s)[j].value.Match?
    ensures forall p | p in ErrorVerdicts(s)[j].value.support :: p <= j
  {
  }
}

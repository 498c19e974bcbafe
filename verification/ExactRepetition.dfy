/** Exact repetition: two different tool calls with one identity got results with one identity. */
module ExactRepetition {
  import opened Prelude
  import opened TraceEvents
  import opened DetectorOutcomes
  import opened FirstOutcomes

  ghost predicate Identifies(e: TraceEvent, identity: Identity) {
    IdentityOf(e) == Ok(Some(identity))
  }

  /** A tool call that a later result can refer to. */
  ghost predicate IsNamedCall(e: TraceEvent) {
    e.kind.ToolCall? && IdentityOf(e).Ok? && IdentityOf(e).value.Some?
  }

  ghost function IdentityValue(e: TraceEvent): Identity
    requires IdentityOf(e).Ok? && IdentityOf(e).value.Some?
  {
    IdentityOf(e).value.value
  }

  /** The identified tool call before `n` that event `j` names as its parent. */
  ghost function ParentCallBelow(s: Trace, j: nat, n: nat): (a: Option<nat>)
    requires n <= j < |s|
    ensures a.Some? ==> a.value < n && IsNamedCall(s[a.value]) && s[j].parentEventId == Some(s[a.value].eventId)
    ensures a.None? ==> forall i | 0 <= i < n :: IsNamedCall(s[i]) ==> s[j].parentEventId != Some(s[i].eventId)
  {
    if n == 0 then None
    else if IsNamedCall(s[n - 1]) && s[j].parentEventId == Some(s[n - 1].eventId) then Some(n - 1)
    else ParentCallBelow(s, j, n - 1)
  }

  ghost function ParentCall(s: Trace, j: nat): Option<nat>
    requires j < |s|
  {
    ParentCallBelow(s, j, j)
  }

  /** An equivalence class of call and result. */
  datatype PairKey = PairKey(call: Identity, result: Identity)

  datatype Pair = Pair(key: PairKey, call: nat)

  /** What one event contributes. Identities are computed for every call, and for
      the results of identified calls. */
  datatype Answer = Nothing | Unidentifiable | Completes(pair: Pair)

  ghost function AnswerOf(s: Trace, j: nat): Answer
    requires j < |s|
  {
    var identity := IdentityOf(s[j]);
    if s[j].kind.ToolCall? then (if identity.Err? then Unidentifiable else Nothing)
    else
      var call := ParentCall(s, j);
      if !s[j].kind.ToolResult? || call.None? then Nothing
      else if identity.Err? then Unidentifiable
      else if identity.value.None? then Nothing
      else Completes(Pair(PairKey(IdentityValue(s[call.value]), identity.value.value), call.value))
  }

  ghost function Answers(s: Trace, n: nat): (xs: seq<Answer>)
    requires n <= |s|
    ensures |xs| == n
  {
    if n == 0 then [] else Answers(s, n - 1) + [AnswerOf(s, n - 1)]
  }

  lemma {:induction false} AnswerAt(s: Trace, n: nat, j: nat)
    requires j < n <= |s|
    ensures Answers(s, n)[j] == AnswerOf(s, j)
  {
    if j < n - 1 {
      AnswerAt(s, n - 1, j);
    }
  }

  /** All pairs: one equivalence class under two different calls. */
  ghost predicate Repeats(xs: seq<Answer>, i: nat, j: nat)
    requires i < |xs| && j < |xs|
  {
    xs[i].Completes? && xs[j].Completes? && xs[i].pair.key == xs[j].pair.key && xs[i].pair.call != xs[j].pair.call
  }

  ghost function FirstRepeatedBelow(xs: seq<Answer>, j: nat, n: nat): (first: Option<nat>)
    requires n <= j < |xs|
    ensures first.Some? ==> first.value < n && Repeats(xs, first.value, j)
    ensures first.Some? ==> forall i | 0 <= i < first.value :: !Repeats(xs, i, j)
    ensures first.None? ==> forall i | 0 <= i < n :: !Repeats(xs, i, j)
  {
    if n == 0 then None
    else
      var front := FirstRepeatedBelow(xs, j, n - 1);
      if front.Some? then front else if Repeats(xs, n - 1, j) then Some(n - 1) else None
  }

  ghost function FirstRepeated(xs: seq<Answer>, j: nat): Option<nat>
    requires j < |xs|
  {
    FirstRepeatedBelow(xs, j, j)
  }

  function InsertPosition(x: nat, sorted: seq<nat>): seq<nat> {
    if sorted == [] || x <= sorted[0] then [x] + sorted else [sorted[0]] + InsertPosition(x, sorted[1..])
  }

  function SortPositions(xs: seq<nat>): seq<nat> {
    if xs == [] then [] else InsertPosition(xs[0], SortPositions(xs[1..]))
  }

  ghost predicate Ascending(xs: seq<nat>) {
    forall i, j | 0 <= i < j < |xs| :: xs[i] <= xs[j]
  }

  lemma {:induction false} InsertPositionMeaning(x: nat, sorted: seq<nat>)
    requires Ascending(sorted)
    ensures Ascending(InsertPosition(x, sorted))
    ensures multiset(InsertPosition(x, sorted)) == multiset(sorted) + multiset{x}
    ensures forall y :: y in InsertPosition(x, sorted) <==> y == x || y in sorted
  {
    if sorted == [] || x <= sorted[0] {
      SmallestFirst(x, sorted);
    } else {
      var tail := sorted[1..];
      assert sorted == [sorted[0]] + tail;
      InsertPositionMeaning(x, tail);
      SmallestFirst(sorted[0], InsertPosition(x, tail));
    }
  }

  lemma {:induction false} SmallestFirst(x: nat, rest: seq<nat>)
    requires Ascending(rest) && forall y | y in rest :: x <= y
    ensures Ascending([x] + rest)
  {
    forall i, j | 0 <= i < j < |rest| + 1
      ensures ([x] + rest)[i] <= ([x] + rest)[j]
    {
      assert ([x] + rest)[j] == rest[j - 1] && rest[j - 1] in rest;
    }
  }

  /** Support is reported in trace order, whatever order call and result were found in. */
  lemma {:induction false} SortPositionsMeaning(xs: seq<nat>)
    ensures Ascending(SortPositions(xs)) && multiset(SortPositions(xs)) == multiset(xs)
  {
    if xs != [] {
      SortPositionsMeaning(xs[1..]);
      InsertPositionMeaning(xs[0], SortPositions(xs[1..]));
      assert xs == [xs[0]] + xs[1..];
    }
  }

  ghost function PairVerdict(xs: seq<Answer>, j: nat): Option<Outcome>
    requires j < |xs|
  {
    if xs[j].Unidentifiable? then Some(Fail)
    else
      var first := FirstRepeated(xs, j);
      if first.None? then None
      else Some(Match(SortPositions([xs[first.value].pair.call, first.value, xs[j].pair.call, j])))
  }

  ghost function PairVerdicts(xs: seq<Answer>): Verdicts {
    seq(|xs|, j requires 0 <= j < |xs| => PairVerdict(xs, j))
  }

  ghost function RepetitionVerdicts(s: Trace): Verdicts {
    PairVerdicts(Answers(s, |s|))
  }

  // ----------------------------------------------------------------- the scan

  /** Identified calls by event id. */
  ghost predicate CallsIndexed(s: Trace, n: nat, calls: map<string, (nat, Identity)>)
    requires n <= |s|
  {
    && (forall i | 0 <= i < n && IsNamedCall(s[i]) :: s[i].eventId in calls)
    && (forall id | id in calls ::
          && calls[id].0 < n && s[calls[id].0].eventId == id
          && s[calls[id].0].kind.ToolCall? && Identifies(s[calls[id].0], calls[id].1))
  }

  /** Per equivalence class, the first call and result only. */
  ghost predicate PairsIndexed(xs: seq<Answer>, n: nat, firstPairs: map<PairKey, (nat, nat)>)
    requires n <= |xs|
  {
    && (forall i | 0 <= i < n && xs[i].Completes? :: xs[i].pair.key in firstPairs)
    && (forall key | key in firstPairs ::
          && firstPairs[key].1 < n
          && xs[firstPairs[key].1] == Completes(Pair(key, firstPairs[key].0))
          && forall i | 0 <= i < firstPairs[key].1 && xs[i].Completes? :: xs[i].pair.key != key)
  }

  lemma {:induction false} SameIdSamePosition(s: Trace, a: nat, b: nat)
    requires UniqueIds(s) && a < |s| && b < |s| && s[a].eventId == s[b].eventId
    ensures a == b
  {
  }

  lemma {:induction false} ParentIsIndexed(s: Trace, n: nat, calls: map<string, (nat, Identity)>)
    requires UniqueIds(s) && n < |s| && CallsIndexed(s, n, calls)
    ensures var parent := s[n].parentEventId;
      ParentCall(s, n) == if parent.Some? && parent.value in calls then Some(calls[parent.value].0) else None
  {
    var parent, call := s[n].parentEventId, ParentCall(s, n);
    if parent.Some? && parent.value in calls {
      var a := calls[parent.value].0;
      assert IsNamedCall(s[a]) && s[n].parentEventId == Some(s[a].eventId);
      SameIdSamePosition(s, call.value, a);
    }
  }

  /** Without a match so far, the first pair decides for all earlier pairs. */
  lemma {:induction false} FirstPairAnswers(xs: seq<Answer>, n: nat, firstPairs: map<PairKey, (nat, nat)>)
    requires n < |xs| && PairsIndexed(xs, n, firstPairs) && xs[n].Completes?
    requires forall i | 0 <= i < n :: PairVerdict(xs, i).None?
    ensures var Pair(key, call) := xs[n].pair;
      FirstRepeated(xs, n) == if key in firstPairs && call != firstPairs[key].0 then Some(firstPairs[key].1) else None
  {
    var Pair(key, call) := xs[n].pair;
    if key in firstPairs {
      var f := firstPairs[key].1;
      if call != firstPairs[key].0 {
        assert Repeats(xs, f, n);
      } else {
        forall i | 0 <= i < n
          ensures !Repeats(xs, i, n)
        {
          if xs[i].Completes? && xs[i].pair.key == key && i > f {
            assert PairVerdict(xs, i).None?;
            assert !Repeats(xs, f, i);
          }
        }
      }
    }
  }

  /** A call: its identity is recorded under its event id. */
  method RecordCall(s: Trace, n: nat, calls: map<string, (nat, Identity)>)
    returns (answer: Answer, calls': map<string, (nat, Identity)>)
    requires n < |s| && s[n].kind.ToolCall? && UniqueIds(s) && CallsIndexed(s, n, calls)
    ensures answer == AnswerOf(s, n) && CallsIndexed(s, n + 1, calls')
  {
    var identity := ComputeIdentity(s[n]);
    if identity.Err? {
      return Unidentifiable, calls;
    }
    return Nothing, if identity.value.Some? then calls[s[n].eventId := (n, identity.value.value)] else calls;
  }

  /** A result: the pair it completes, if it answers an identified call. */
  method CompletePair(s: Trace, n: nat, calls: map<string, (nat, Identity)>) returns (answer: Answer)
    requires n < |s| && !s[n].kind.ToolCall? && UniqueIds(s) && CallsIndexed(s, n, calls)
    ensures answer == AnswerOf(s, n) && CallsIndexed(s, n + 1, calls)
  {
    var event := s[n];
    ParentIsIndexed(s, n, calls);
    if !event.kind.ToolResult? || event.parentEventId.None? || event.parentEventId.value !in calls {
      return Nothing;
    }
    var result := ComputeIdentity(event);
    if result.Err? {
      return Unidentifiable;
    }
    if result.value.None? {
      return Nothing;
    }
    var (call, callIdentity) := calls[event.parentEventId.value];
    return Completes(Pair(PairKey(callIdentity, result.value.value), call));
  }

  /** Looks a completed pair up in the index, or enters it. */
  method LookUpPair(ghost xs: seq<Answer>, n: nat, answer: Answer, firstPairs: map<PairKey, (nat, nat)>)
    returns (verdict: Option<Outcome>, firstPairs': map<PairKey, (nat, nat)>)
    requires n < |xs| && xs[n] == answer && PairsIndexed(xs, n, firstPairs)
    requires forall i | 0 <= i < n :: PairVerdict(xs, i).None?
    ensures verdict == PairVerdict(xs, n)
    ensures verdict.None? ==> PairsIndexed(xs, n + 1, firstPairs')
  {
    match answer
    case Nothing => return None, firstPairs;
    case Unidentifiable => return Some(Fail), firstPairs;
    case Completes(pair) =>
      var Pair(key, call) := pair;
      FirstPairAnswers(xs, n, firstPairs);
      if key in firstPairs && call != firstPairs[key].0 {
        return Some(Match(SortPositions([firstPairs[key].0, firstPairs[key].1, call, n]))), firstPairs;
      }
      return None, if key in firstPairs then firstPairs else firstPairs[key := (call, n)];
  }

  method DetectExactRepetition(window: Trace) returns (outcome: Option<Outcome>)
    requires UniqueIds(window)
    ensures outcome == FirstOutcome(RepetitionVerdicts(window))
  {
    var calls: map<string, (nat, Identity)> := map[];
    var firstPairs: map<PairKey, (nat, nat)> := map[];
    ghost var xs := Answers(window, |window|);
    ghost var verdicts := PairVerdicts(xs);
    for position := 0 to |window|
      invariant FirstOutcome(verdicts[..position]).None?
      invariant forall i | 0 <= i < position :: PairVerdict(xs, i).None?
      invariant CallsIndexed(window, position, calls)
      invariant PairsIndexed(xs, position, firstPairs)
    {
      ScanStep(verdicts, position);
      var answer;
      if window[position].kind.ToolCall? {
        answer, calls := RecordCall(window, position, calls);
      } else {
        answer := CompletePair(window, position, calls);
      }
      AnswerAt(window, |window|, position);
      outcome, firstPairs := LookUpPair(xs, position, answer, firstPairs);
      if outcome.Some? {
        return outcome;
      }
    }
    ScanEnd(verdicts);
    return None;
  }

  // -------------------------------------------------------------- what it means

  /** Two results of different calls, alike in the call and in the result. */
  ghost predicate SamePair(s: Trace, i: nat, j: nat)
    requires i < |s| && j < |s|
  {
    var a, b := AnswerOf(s, i), AnswerOf(s, j);
    a.Completes? && b.Completes? && a.pair.key == b.pair.key && a.pair.call != b.pair.call
  }

  ghost predicate Decides(s: Trace, j: nat)
    requires j < |s|
  {
    AnswerOf(s, j).Unidentifiable? || exists i :: 0 <= i < j && SamePair(s, i, j)
  }

  ghost predicate DecidesFirst(s: Trace, j: nat)
    requires j < |s|
  {
    Decides(s, j) && forall k | 0 <= k < j :: !Decides(s, k)
  }

  /** The two calls and the two results. */
  ghost predicate Supports(s: Trace, support: seq<nat>, i: nat, j: nat)
    requires i < |s| && j < |s| && SamePair(s, i, j)
  {
    Ascending(support) && multiset(support) == multiset{AnswerOf(s, i).pair.call, i, AnswerOf(s, j).pair.call, j}
  }

  lemma {:induction false} PairDecides(xs: seq<Answer>, j: nat)
    requires j < |xs|
    ensures PairVerdict(xs, j).Some? <==> xs[j].Unidentifiable? || exists i :: 0 <= i < j && Repeats(xs, i, j)
    ensures PairVerdict(xs, j).Some? && PairVerdict(xs, j).value.Match? ==>
      exists i :: 0 <= i < j && Repeats(xs, i, j) && SupportsPairs(xs, PairVerdict(xs, j).value.support, i, j)
  {
    var first := FirstRepeated(xs, j);
    if first.Some? && !xs[j].Unidentifiable? {
      SortPositionsMeaning([xs[first.value].pair.call, first.value, xs[j].pair.call, j]);
      assert SupportsPairs(xs, PairVerdict(xs, j).value.support, first.value, j);
    }
  }

  ghost predicate SupportsPairs(xs: seq<Answer>, support: seq<nat>, i: nat, j: nat)
    requires i < |xs| && j < |xs| && Repeats(xs, i, j)
  {
    Ascending(support) && multiset(support) == multiset{xs[i].pair.call, i, xs[j].pair.call, j}
  }

  lemma {:induction false} DecidesExactly(s: Trace, j: nat)
    requires j < |s|
    ensures |RepetitionVerdicts(s)| == |s|
    ensures RepetitionVerdicts(s)[j].Some? <==> Decides(s, j)
    ensures RepetitionVerdicts(s)[j].Some? && RepetitionVerdicts(s)[j].value.Match? ==>
      exists i :: 0 <= i < j && SamePair(s, i, j) && Supports(s, RepetitionVerdicts(s)[j].value.support, i, j)
  {
    var xs := Answers(s, |s|);
    forall k: nat | k < |s|
      ensures xs[k] == AnswerOf(s, k)
    {
      AnswerAt(s, |s|, k);
    }
    PairDecides(xs, j);
    forall i | 0 <= i < j
      ensures Repeats(xs, i, j) <==> SamePair(s, i, j)
    {
    }
    if PairVerdict(xs, j).Some? && PairVerdict(xs, j).value.Match? {
      var i :| 0 <= i < j && Repeats(xs, i, j) && SupportsPairs(xs, PairVerdict(xs, j).value.support, i, j);
      assert SamePair(s, i, j) && Supports(s, PairVerdict(xs, j).value.support, i, j);
    }
  }

  /** Keeping one pair per class loses nothing: there is an outcome exactly when any two
      pairs are alike (or an event has no identity), the pairs reported are, and no
      earlier event decides. */
  lemma {:induction false} ExactRepetitionMeaning(s: Trace)
    ensures FirstOutcome(RepetitionVerdicts(s)).Some? <==> exists j :: 0 <= j < |s| && Decides(s, j)
    ensures FirstOutcome(RepetitionVerdicts(s)).Some? && FirstOutcome(RepetitionVerdicts(s)).value.Match? ==>
      exists i, j :: 0 <= i < j < |s| && SamePair(s, i, j) && DecidesFirst(s, j) &&
        Supports(s, FirstOutcome(RepetitionVerdicts(s)).value.support, i, j)
  {
    var verdicts := RepetitionVerdicts(s);
    forall j: nat | j < |s|
      ensures |verdicts| == |s| && (verdicts[j].Some? <==> Decides(s, j))
    {
      DecidesExactly(s, j);
    }
    OutcomeIfAny(verdicts);
    if FirstOutcome(verdicts).Some? {
      var j := OutcomeIsFirst(verdicts);
      DecidesExactly(s, j);
    }
  }

  // ----------------------------------------------------------------- locality

  lemma {:induction false} ParentCallLocal(s: Trace, t: Trace, j: nat, n: nat)
    requires n <= j < |s|
    ensures ParentCallBelow(s + t, j, n) == ParentCallBelow(s, j, n)
  {
    if n > 0 {
      ParentCallLocal(s, t, j, n - 1);
    }
  }

  lemma {:induction false} AnswersLocal(s: Trace, t: Trace, n: nat)
    requires n <= |s|
    ensures Answers(s + t, n) == Answers(s, n)
  {
    if n > 0 {
      AnswersLocal(s, t, n - 1);
      ParentCallLocal(s, t, n - 1, n - 1);
    }
  }

  lemma {:induction false} AnswersPrefix(s: Trace, m: nat, n: nat)
    requires m <= n <= |s|
    ensures Answers(s, m) <= Answers(s, n)
  {
    if m < n {
      AnswersPrefix(s, m, n - 1);
    }
  }

  lemma {:induction false} PairVerdictLocal(xs: seq<Answer>, ys: seq<Answer>, j: nat)
    requires j < |xs| && xs <= ys
    ensures PairVerdict(xs, j) == PairVerdict(ys, j)
  {
    var before, after := FirstRepeated(xs, j), FirstRepeated(ys, j);
    if before.Some? {
      assert Repeats(ys, before.value, j);
    }
    if after.Some? {
      assert Repeats(xs, after.value, j);
    }
  }

  lemma {:induction false} RepetitionVerdictLocal(s: Trace, t: Trace, j: nat)
    requires j < |s|
    ensures RepetitionVerdicts(s + t)[j] == RepetitionVerdicts(s)[j]
  {
    AnswersLocal(s, t, |s|);
    AnswersPrefix(s + t, |s|, |s + t|);
    PairVerdictLocal(Answers(s, |s|), Answers(s + t, |s + t|), j);
  }

  lemma {:induction false} CallsPrecede(s: Trace, n: nat)
    requires n <= |s|
    ensures forall i | 0 <= i < n && Answers(s, n)[i].Completes? :: Answers(s, n)[i].pair.call < i
  {
    if n > 0 {
      CallsPrecede(s, n - 1);
    }
  }

  /** The support of a match lies in the window and ends at the completing event. */
  lemma {:induction false} SupportInWindow(s: Trace, j: nat)
    requires j < |s| && RepetitionVerdicts(s)[j].Some? && RepetitionVerdicts(s)[j].value.Match?
    ensures forall p | p in RepetitionVerdicts(s)[j].value.support :: p <= j
  {
    var xs := Answers(s, |s|);
    CallsPrecede(s, |s|);
    var first := FirstRepeated(xs, j).value;
    var found := [xs[first].pair.call, first, xs[j].pair.call, j];
    SortPositionsMeaning(found);
    forall p | p in SortPositions(found)
      ensures p <= j
    {
      assert p in multiset(SortPositions(found));
      assert p in multiset(found) && p in found;
    }
  }
}

/** The classifier's output discipline: each reason is recorded once, at its earliest
    witness, in the order in which one event is tested for the reasons. */
module ReasonLogs {
  import opened Prelude

  datatype Reason =
    | PaginationAdvanced | BatchItemChanged | HypothesisInputChanged | ErrorChanged
    | StackFrameAdded | EvidenceAdded | HypothesisEliminated | RequiredAcceptanceVerified
    | ProductiveHandoff | ExpectedStateChangeObserved | PollConverging

  /** Whether position `j` is a witness for a reason. */
  type Judge = (Reason, nat) -> bool

  const TEST_ORDER: seq<Reason> :=
    [ExpectedStateChangeObserved, RequiredAcceptanceVerified, ProductiveHandoff, EvidenceAdded, HypothesisEliminated,
     ErrorChanged, StackFrameAdded, PaginationAdvanced, BatchItemChanged, PollConverging, HypothesisInputChanged]

  const TESTS := 11

  function Rank(r: Reason): (k: nat)
    ensures k < TESTS && TEST_ORDER[k] == r
  {
    match r
    case ExpectedStateChangeObserved => 0
    case RequiredAcceptanceVerified => 1
    case ProductiveHandoff => 2
    case EvidenceAdded => 3
    case HypothesisEliminated => 4
    case ErrorChanged => 5
    case StackFrameAdded => 6
    case PaginationAdvanced => 7
    case BatchItemChanged => 8
    case PollConverging => 9
    case HypothesisInputChanged => 10
  }

  lemma {:induction false} RankOfTest(k: nat)
    requires k < TESTS
    ensures Rank(TEST_ORDER[k]) == k
  {
  }

  /** The two parallel lists of the classifier. */
  datatype Log = Log(reasons: seq<Reason>, eventIds: seq<string>)

  /** A reason is recorded the first time only. */
  function Note(log: Log, r: Reason, holds: bool, eventId: string): Log {
    if holds && r !in log.reasons then Log(log.reasons + [r], log.eventIds + [eventId]) else log
  }

  /** The log after the first `n` events and the first `k` tests of event `n`. */
  ghost function LogOf(judge: Judge, ids: seq<string>, n: nat, k: nat): Log
    requires n <= |ids| && k <= TESTS && (n == |ids| ==> k == 0)
    decreases n, k
  {
    if k > 0 then Note(LogOf(judge, ids, n, k - 1), TEST_ORDER[k - 1], judge(TEST_ORDER[k - 1], n), ids[n])
    else if n > 0 then LogOf(judge, ids, n - 1, TESTS)
    else Log([], [])
  }

  /** Reason `r` has a witness before event `n`, or at event `n` within its first `k` tests. */
  ghost predicate Recorded(judge: Judge, r: Reason, n: nat, k: nat) {
    (exists i :: 0 <= i < n && judge(r, i)) || (Rank(r) < k && judge(r, n))
  }

  lemma {:induction false} LogReasons(judge: Judge, ids: seq<string>, n: nat, k: nat, r: Reason)
    requires n <= |ids| && k <= TESTS && (n == |ids| ==> k == 0)
    ensures r in LogOf(judge, ids, n, k).reasons <==> Recorded(judge, r, n, k)
    decreases n, k
  {
    if k > 0 {
      RankOfTest(k - 1);
      LogReasons(judge, ids, n, k - 1, r);
    } else if n > 0 {
      LogReasons(judge, ids, n - 1, TESTS, r);
    }
  }

  ghost predicate First(judge: Judge, r: Reason, j: nat) {
    judge(r, j) && forall i | 0 <= i < j :: !judge(r, i)
  }

  /** Position `m` of the log was recorded before the second pair of coordinates. */
  ghost predicate Before(n: nat, k: nat, n': nat, k': nat) {
    n < n' || (n == n' && k < k')
  }

  /** Every entry of the log is the earliest witness of its reason, no reason is
      there twice, and entries are in order of event, then of test. */
  ghost predicate Faithful(judge: Judge, ids: seq<string>, log: Log, at: seq<nat>) {
    && |log.reasons| == |log.eventIds| == |at|
    && Distinct(log.reasons)
    && (forall m | 0 <= m < |at| ::
          at[m] < |ids| && First(judge, log.reasons[m], at[m]) && log.eventIds[m] == ids[at[m]])
    && (forall m, m' | 0 <= m < m' < |at| :: Before(at[m], Rank(log.reasons[m]), at[m'], Rank(log.reasons[m'])))
  }

  lemma {:induction false} LogIsFaithful(judge: Judge, ids: seq<string>, n: nat, k: nat) returns (at: seq<nat>)
    requires n <= |ids| && k <= TESTS && (n == |ids| ==> k == 0)
    ensures Faithful(judge, ids, LogOf(judge, ids, n, k), at)
    ensures forall m | 0 <= m < |at| :: Before(at[m], Rank(LogOf(judge, ids, n, k).reasons[m]), n, k)
    decreases n, k
  {
    if k > 0 {
      at := LogIsFaithful(judge, ids, n, k - 1);
      var r, log := TEST_ORDER[k - 1], LogOf(judge, ids, n, k - 1);
      RankOfTest(k - 1);
      LogReasons(judge, ids, n, k - 1, r);
      if judge(r, n) && r !in log.reasons {
        at := at + [n];
      }
    } else if n > 0 {
      at := LogIsFaithful(judge, ids, n - 1, TESTS);
    } else {
      at := [];
    }
  }

  /** Judgements that agree on the first `n` events give the same log. */
  lemma {:induction false} LogAgrees(judge: Judge, ids: seq<string>, judge': Judge, ids': seq<string>, n: nat, k: nat)
    requires n <= |ids| && k <= TESTS && (n == |ids| ==> k == 0)
    requires n <= |ids'| && (n == |ids'| ==> k == 0)
    requires forall r, i | 0 <= i < |ids| :: judge(r, i) == judge'(r, i)
    requires ids <= ids'
    ensures LogOf(judge, ids, n, k) == LogOf(judge', ids', n, k)
    decreases n, k
  {
    if k > 0 {
      LogAgrees(judge, ids, judge', ids', n, k - 1);
    } else if n > 0 {
      LogAgrees(judge, ids, judge', ids', n - 1, TESTS);
    }
  }

  /** The log only grows. */
  lemma {:induction false} LogGrows(judge: Judge, ids: seq<string>, n: nat, n': nat, k: nat)
    requires n <= n' <= |ids| && k <= TESTS && (n' == |ids| ==> k == 0)
    ensures LogOf(judge, ids, n, 0).reasons <= LogOf(judge, ids, n', k).reasons
    ensures LogOf(judge, ids, n, 0).eventIds <= LogOf(judge, ids, n', k).eventIds
    decreases n', k
  {
    if k > 0 {
      LogGrows(judge, ids, n, n', k - 1);
    } else if n < n' {
      LogGrows(judge, ids, n, n' - 1, TESTS);
    }
  }

  // ------------------------------------------------------------- assessments

  datatype Assessment = Assessment(madeProgress: bool, reasonCodes: seq<Reason>, supportingEventIds: seq<string>)

  /** The source's own state check. */
  predicate ValidAssessment(a: Assessment) {
    && Distinct(a.reasonCodes) && Distinct(a.supportingEventIds)
    && a.madeProgress == (a.reasonCodes != [])
    && (a.madeProgress ==> a.supportingEventIds != [])
    && (!a.madeProgress ==> a.reasonCodes == [] && a.supportingEventIds == [])
  }

  function AssessmentOf(log: Log): Assessment {
    Assessment(log.reasons != [], log.reasons, Dedup(log.eventIds))
  }

  lemma {:induction false} AssessmentIsValid(judge: Judge, ids: seq<string>)
    ensures ValidAssessment(AssessmentOf(LogOf(judge, ids, |ids|, 0)))
  {
    var log := LogOf(judge, ids, |ids|, 0);
    var at := LogIsFaithful(judge, ids, |ids|, 0);
    DedupMeaning(log.eventIds);
    if log.reasons != [] {
      assert log.eventIds[0] in log.eventIds;
      assert log.eventIds[0] in Dedup(log.eventIds);
    }
  }
}

/** Scans that end at the first event with an outcome. */
module FirstOutcomes {
  import opened Prelude

  /** The scan's answer. */
  ghost function FirstOutcome<T>(verdicts: seq<Option<T>>): Option<T> {
    if verdicts == [] then None
    else if verdicts[0].Some? then verdicts[0]
    else FirstOutcome(verdicts[1..])
  }

  lemma {:induction false} FirstOutcomeAt<T>(verdicts: seq<Option<T>>, n: nat)
    requires n < |verdicts| && verdicts[n].Some?
    requires forall i | 0 <= i < n :: verdicts[i].None?
    ensures FirstOutcome(verdicts) == verdicts[n]
  {
    if n > 0 {
      FirstOutcomeAt(verdicts[1..], n - 1);
    }
  }

  lemma {:induction false} NoOutcome<T>(verdicts: seq<Option<T>>)
    requires forall i | 0 <= i < |verdicts| :: verdicts[i].None?
    ensures FirstOutcome(verdicts) == None
  {
    if verdicts != [] {
      NoOutcome(verdicts[1..]);
    }
  }

  /** One step of a scan that has found nothing so far. */
  lemma {:induction false} ScanStep<T>(verdicts: seq<Option<T>>, n: nat)
    requires n < |verdicts| && FirstOutcome(verdicts[..n]).None?
    ensures verdicts[n].None? ==> FirstOutcome(verdicts[..n + 1]).None?
    ensures verdicts[n].Some? ==> FirstOutcome(verdicts) == verdicts[n]
  {
    forall i | 0 <= i < n
      ensures verdicts[i].None?
    {
      if verdicts[i].Some? {
        SomeOutcome(verdicts[..n], i);
      }
    }
    if verdicts[n].Some? {
      FirstOutcomeAt(verdicts, n);
    } else {
      NoOutcome(verdicts[..n + 1]);
    }
  }

  lemma {:induction false} SomeOutcome<T>(verdicts: seq<Option<T>>, n: nat)
    requires n < |verdicts| && verdicts[n].Some?
    ensures FirstOutcome(verdicts).Some?
  {
    if n > 0 {
      SomeOutcome(verdicts[1..], n - 1);
    }
  }

  lemma {:induction false} ScanEnd<T>(verdicts: seq<Option<T>>)
    requires FirstOutcome(verdicts[..|verdicts|]).None?
    ensures FirstOutcome(verdicts).None?
  {
    assert verdicts[..|verdicts|] == verdicts;
  }

  lemma {:induction false} OutcomeIsFirst<T>(verdicts: seq<Option<T>>) returns (n: nat)
    requires FirstOutcome(verdicts).Some?
    ensures n < |verdicts| && verdicts[n] == FirstOutcome(verdicts)
    ensures forall i | 0 <= i < n :: verdicts[i].None?
  {
    if verdicts[0].Some? {
      n := 0;
    } else {
      n := OutcomeIsFirst(verdicts[1..]);
      n := n + 1;
    }
  }

  lemma {:induction false} OutcomeIfAny<T>(verdicts: seq<Option<T>>)
    ensures FirstOutcome(verdicts).Some? <==> exists n :: 0 <= n < |verdicts| && verdicts[n].Some?
  {
    if FirstOutcome(verdicts).Some? {
      var n := OutcomeIsFirst(verdicts);
    } else if n :| 0 <= n < |verdicts| && verdicts[n].Some? {
      SomeOutcome(verdicts, n);
    }
  }

  /** More events never change an outcome already reached. */
  lemma {:induction false} OutcomeIsStable<T>(verdicts: seq<Option<T>>, more: seq<Option<T>>)
    requires FirstOutcome(verdicts).Some?
    ensures FirstOutcome(verdicts + more) == FirstOutcome(verdicts)
  {
    var n := OutcomeIsFirst(verdicts);
    assert forall i | 0 <= i <= n :: (verdicts + more)[i] == verdicts[i];
    FirstOutcomeAt(verdicts + more, n);
  }
}

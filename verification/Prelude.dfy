/** Values that stand for the source's `None` and for its sanitized exceptions. */
module Prelude {

  datatype Option<+T> = None | Some(value: T)

  /** `Err` carries the stable code a boundary raises instead of returning. */
  datatype Result<+T, +E> = Ok(value: T) | Err(error: E) {

    predicate IsFailure() {
      Err?
    }

    function PropagateFailure<U>(): Result<U, E>
      requires Err?
    {
      Err(error)
    }

    function Extract(): T
      requires Ok?
    {
      value
    }
  }

  predicate Distinct<T(==)>(xs: seq<T>) {
    forall i, j :: 0 <= i < j < |xs| ==> xs[i] != xs[j]
  }

  /** The members of a sequence, as a set. */
  function Elements<T>(xs: seq<T>): set<T> {
    set x | x in xs
  }

  /** Python's `list(dict.fromkeys(xs))`: first occurrences, in order. */
  function Dedup<T(==)>(xs: seq<T>): seq<T> {
    if xs == [] then []
    else
      var front := Dedup(xs[..|xs| - 1]);
      var last := xs[|xs| - 1];
      if last in front then front else front + [last]
  }

  lemma {:induction false} DedupMeaning<T(!new)>(xs: seq<T>)
    ensures Distinct(Dedup(xs))
    ensures forall x :: x in Dedup(xs) <==> x in xs
  {
    if xs != [] {
      DedupMeaning(xs[..|xs| - 1]);
      assert xs == xs[..|xs| - 1] + [xs[|xs| - 1]];
    }
  }

  lemma {:induction false} DedupStep<T>(xs: seq<T>, x: T)
    ensures Dedup(xs + [x]) == if x in Dedup(xs) then Dedup(xs) else Dedup(xs) + [x]
  {
    assert (xs + [x])[..|xs|] == xs;
  }

  /** A sequence without repetitions is kept as it is. */
  lemma {:induction false} DedupOfDistinct<T(!new)>(xs: seq<T>)
    requires Distinct(xs)
    ensures Dedup(xs) == xs
  {
    if xs != [] {
      DedupOfDistinct(xs[..|xs| - 1]);
      assert xs == xs[..|xs| - 1] + [xs[|xs| - 1]];
    }
  }

  /** Deduplication is a left-to-right scan: a longer input only adds at the end. */
  lemma {:induction false} DedupPrefix<T>(xs: seq<T>, ys: seq<T>)
    ensures Dedup(xs) <= Dedup(xs + ys)
  {
    if ys == [] {
      assert xs + ys == xs;
    } else {
      var front, last := ys[..|ys| - 1], ys[|ys| - 1];
      DedupPrefix(xs, front);
      DedupStep(xs + front, last);
      assert xs + front + [last] == xs + ys;
    }
  }

  /** Adds the members of `more` that are not there yet, and gives up as soon as there
      are more than `limit`. `stream` is everything that was offered before. */
  method AppendNew<T(==)>(kept: seq<T>, ghost stream: seq<T>, more: seq<T>, limit: nat) returns (r: Option<seq<T>>)
    requires kept == Dedup(stream) && |kept| <= limit
    ensures r.None? <==> |Dedup(stream + more)| > limit
    ensures r.Some? ==> r.value == Dedup(stream + more)
  {
    var result := kept;
    ghost var offered := stream;
    for i := 0 to |more|
      invariant offered + more[i..] == stream + more
      invariant result == Dedup(offered) && |result| <= limit
    {
      DedupStep(offered, more[i]);
      offered := offered + [more[i]];
      assert offered + more[i + 1..] == stream + more;
      if more[i] !in result {
        if |result| == limit {
          DedupPrefix(offered, more[i + 1..]);
          return None;
        }
        result := result + [more[i]];
      }
    }
    assert offered == stream + more;
    return Some(result);
  }

  /** All the values, or the first failure. */
  ghost function AllOk<T, E>(rs: seq<Result<T, E>>, n: nat): Result<seq<T>, E>
    requires n <= |rs|
  {
    if n == 0 then Ok([])
    else
      var before := AllOk(rs, n - 1);
      if before.Err? then before
      else if rs[n - 1].Err? then Err(rs[n - 1].error)
      else Ok(before.value + [rs[n - 1].value])
  }

  lemma {:induction false} FailureIsFinal<T, E>(rs: seq<Result<T, E>>, m: nat, n: nat)
    requires m <= n <= |rs| && AllOk(rs, m).Err?
    ensures AllOk(rs, n) == AllOk(rs, m)
  {
    if m < n {
      FailureIsFinal(rs, m, n - 1);
    }
  }

  lemma {:induction false} AllOkMeaning<T, E>(rs: seq<Result<T, E>>, n: nat)
    requires n <= |rs| && AllOk(rs, n).Ok?
    ensures |AllOk(rs, n).value| == n
    ensures forall i | 0 <= i < n :: rs[i] == Ok(AllOk(rs, n).value[i])
  {
    if n > 0 {
      AllOkMeaning(rs, n - 1);
    }
  }

  lemma {:induction false} AllOkIfEach<T, E>(rs: seq<Result<T, E>>, n: nat)
    requires n <= |rs| && forall i | 0 <= i < n :: rs[i].Ok?
    ensures AllOk(rs, n).Ok?
  {
    if n > 0 {
      AllOkIfEach(rs, n - 1);
    }
  }
}

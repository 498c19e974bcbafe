/** Splitting a sequence at a separator, and joining it again. */
module Splitting {

  /** Python's `s.split(separator)` for a one-element separator: never empty, and empty
      parts are kept. */
  function Split<T(==)>(s: seq<T>, separator: T): (parts: seq<seq<T>>)
    ensures |parts| > 0
  {
    if s == [] then [[]]
    else
      var rest := Split(s[1..], separator);
      if s[0] == separator then [[]] + rest else [[s[0]] + rest[0]] + rest[1..]
  }

  function Join<T>(parts: seq<seq<T>>, separator: T): seq<T>
    requires |parts| > 0
  {
    if |parts| == 1 then parts[0] else parts[0] + [separator] + Join(parts[1..], separator)
  }

  lemma {:induction false} JoinSplit<T(!new)>(s: seq<T>, separator: T)
    ensures Join(Split(s, separator), separator) == s
    ensures forall part | part in Split(s, separator) :: separator !in part
  {
    if s != [] {
      JoinSplit(s[1..], separator);
      var rest := Split(s[1..], separator);
      if s[0] != separator && |rest| > 1 {
        assert ([[s[0]] + rest[0]] + rest[1..])[1..] == rest[1..];
      }
      if s[0] == separator {
        assert ([[]] + rest)[1..] == rest;
      }
    }
  }

  /** A part without separators is put in front of whatever the rest splits into. */
  lemma {:induction false} SplitToken<T>(token: seq<T>, rest: seq<T>, separator: T)
    requires separator !in token
    ensures Split(token, separator) == [token]
    ensures Split(token + [separator] + rest, separator) == [token] + Split(rest, separator)
  {
    if token == [] {
      assert token + [separator] + rest == [separator] + rest;
      assert ([separator] + rest)[1..] == rest;
    } else {
      SplitToken(token[1..], rest, separator);
      assert (token + [separator] + rest)[1..] == token[1..] + [separator] + rest;
      assert [token[0]] + token[1..] == token;
    }
  }

  lemma {:induction false} SplitJoin<T(!new)>(parts: seq<seq<T>>, separator: T)
    requires |parts| > 0
    requires forall part | part in parts :: separator !in part
    ensures Split(Join(parts, separator), separator) == parts
  {
    if |parts| == 1 {
      SplitToken(parts[0], [], separator);
    } else {
      SplitJoin(parts[1..], separator);
      SplitToken(parts[0], Join(parts[1..], separator), separator);
    }
  }
}

/** Non-root JSON pointers (RFC 6901): recognition, single-pass decoding, and the
    encoder that inverts it. */
module JsonPointers {
  import opened Prelude
  import opened Splitting

  // ---------------------------------------------------------------- tokens

  /** Every `~` in a reference token starts one of the two escapes `~0` and `~1`. */
  predicate ValidToken(raw: string) {
    raw == "" ||
    (if raw[0] == '~' then |raw| >= 2 && raw[1] in "01" && ValidToken(raw[2..])
     else ValidToken(raw[1..]))
  }

  /** One left-to-right pass that decodes both escapes. */
  function Unescape(raw: string): string
    requires ValidToken(raw)
  {
    if raw == "" then ""
    else if raw[0] == '~' then [if raw[1] == '0' then '~' else '/'] + Unescape(raw[2..])
    else [raw[0]] + Unescape(raw[1..])
  }

  function Escape(token: string): string {
    if token == "" then ""
    else (if token[0] == '~' then "~0" else if token[0] == '/' then "~1" else [token[0]]) + Escape(token[1..])
  }

  /** The substitution of section 4 of RFC 6901: replace every `~digit` by `decoded`. */
  function Substitute(s: string, digit: char, decoded: char): string {
    if s == "" then ""
    else if |s| >= 2 && s[0] == '~' && s[1] == digit then [decoded] + Substitute(s[2..], digit, decoded)
    else [s[0]] + Substitute(s[1..], digit, decoded)
  }

  /** The single pass computes what section 4 of RFC 6901 prescribes: first
      `~1` to `/`, and only then `~0` to `~`. */
  lemma {:induction false} UnescapeIsSubstitution(raw: string)
    requires ValidToken(raw)
    ensures Unescape(raw) == Substitute(Substitute(raw, '1', '/'), '0', '~')
  {
    if raw != "" {
      if raw[0] == '~' {
        UnescapeIsSubstitution(raw[2..]);
        if raw[1] == '0' {
          var rest := Substitute(raw[2..], '1', '/');
          assert raw[1..][1..] == raw[2..];
          assert Substitute(raw[1..], '1', '/') == ['0'] + rest;
          assert Substitute(raw, '1', '/') == ['~', '0'] + rest;
          assert (['~', '0'] + rest)[2..] == rest;
        }
      } else {
        UnescapeIsSubstitution(raw[1..]);
      }
    }
  }

  lemma {:induction false} UnescapeEscape(token: string)
    ensures ValidToken(Escape(token)) && Unescape(Escape(token)) == token
    ensures '/' !in Escape(token)
  {
    if token != "" {
      UnescapeEscape(token[1..]);
      var head := if token[0] == '~' then "~0" else if token[0] == '/' then "~1" else [token[0]];
      assert Escape(token)[|head|..] == Escape(token[1..]);
    }
  }

  lemma {:induction false} EscapeUnescape(raw: string)
    requires ValidToken(raw) && '/' !in raw
    ensures Escape(Unescape(raw)) == raw
  {
    if raw != "" {
      var width := if raw[0] == '~' then 2 else 1;
      EscapeUnescape(raw[width..]);
      assert Unescape(raw)[1..] == Unescape(raw[width..]);
      assert raw == raw[..width] + raw[width..];
    }
  }

  // -------------------------------------------------------------- pointers

  predicate IsPointer(path: string) {
    |path| > 0 && path[0] == '/' && forall raw | raw in Split(path[1..], '/') :: ValidToken(raw)
  }

  /** The object keys a pointer names, outermost first. */
  function Parts(path: string): (parts: seq<string>)
    requires IsPointer(path)
    ensures |parts| > 0
  {
    var raws := Split(path[1..], '/');
    seq(|raws|, i requires 0 <= i < |raws| => assert raws[i] in raws; Unescape(raws[i]))
  }

  /** Section 3 of RFC 6901: each token is escaped and prefixed by a slash. */
  function Encode(parts: seq<string>): string
    requires |parts| > 0
  {
    "/" + Join(seq(|parts|, i requires 0 <= i < |parts| => Escape(parts[i])), '/')
  }

  lemma {:induction false} EncodeIsPointer(parts: seq<string>)
    requires |parts| > 0
    ensures IsPointer(Encode(parts)) && Parts(Encode(parts)) == parts
  {
    var raws := seq(|parts|, i requires 0 <= i < |parts| => Escape(parts[i]));
    forall i | 0 <= i < |parts|
      ensures '/' !in raws[i] && ValidToken(raws[i]) && Unescape(raws[i]) == parts[i]
    {
      UnescapeEscape(parts[i]);
    }
    SplitJoin(raws, '/');
    assert Encode(parts)[1..] == Join(raws, '/');
  }

  lemma {:induction false} EncodeParts(path: string)
    requires IsPointer(path)
    ensures Encode(Parts(path)) == path
  {
    var raws := Split(path[1..], '/');
    var parts := Parts(path);
    JoinSplit(path[1..], '/');
    forall i | 0 <= i < |raws|
      ensures Escape(parts[i]) == raws[i]
    {
      assert raws[i] in raws;
      EscapeUnescape(raws[i]);
    }
    assert seq(|parts|, i requires 0 <= i < |parts| => Escape(parts[i])) == raws;
  }

  /** The recognized strings are exactly the encodings of nonempty key paths. */
  lemma {:induction false} PointersAreEncodings(path: string)
    ensures IsPointer(path) <==> exists parts: seq<string> :: |parts| > 0 && Encode(parts) == path
  {
    if IsPointer(path) {
      EncodeParts(path);
    }
    if parts: seq<string> :| |parts| > 0 && Encode(parts) == path {
      EncodeIsPointer(parts);
    }
  }

  /** Two different pointers never name the same key path. */
  lemma {:induction false} PartsInjective(p: string, q: string)
    requires IsPointer(p) && IsPointer(q) && Parts(p) == Parts(q)
    ensures p == q
  {
    EncodeParts(p);
    EncodeParts(q);
  }

  // ------------------------------------------------------- the source's loops

  method IsNonRootJsonPointer(path: string) returns (ok: bool)
    ensures ok <==> IsPointer(path)
  {
    if |path| == 0 || path[0] != '/' {
      return false;
    }
    var raws := Split(path[1..], '/');
    for k := 0 to |raws|
      invariant forall raw | raw in raws[..k] :: ValidToken(raw)
    {
      var raw := raws[k];
      var index := 0;
      while index < |raw|
        invariant 0 <= index <= |raw|
        invariant ValidToken(raw) == ValidToken(raw[index..])
      {
        if raw[index] == '~' {
          if index + 1 == |raw| || raw[index + 1] !in "01" {
            assert raw in raws;
            return false;
          }
          assert raw[index..][2..] == raw[index + 2..];
          index := index + 2;
        } else {
          assert raw[index..][1..] == raw[index + 1..];
          index := index + 1;
        }
      }
    }
    assert raws[..|raws|] == raws;
    return true;
  }

  /** The inner loop of the decoder. */
  method DecodeToken(raw: string) returns (decoded: string)
    requires ValidToken(raw)
    ensures decoded == Unescape(raw)
  {
    decoded := "";
    var index := 0;
    while index < |raw|
      invariant 0 <= index <= |raw|
      invariant ValidToken(raw[index..])
      invariant decoded + Unescape(raw[index..]) == Unescape(raw)
    {
      if raw[index] == '~' {
        assert raw[index..][2..] == raw[index + 2..];
        decoded := decoded + [if raw[index + 1] == '0' then '~' else '/'];
        index := index + 2;
      } else {
        assert raw[index..][1..] == raw[index + 1..];
        decoded := decoded + [raw[index]];
        index := index + 1;
      }
    }
  }

  method PointerParts(path: string) returns (r: Option<seq<string>>)
    ensures r == if IsPointer(path) then Some(Parts(path)) else None
  {
    var ok := IsNonRootJsonPointer(path);
    if !ok {
      return None;
    }
    var parts: seq<string> := [];
    var raws := Split(path[1..], '/');
    for k := 0 to |raws|
      invariant parts == Parts(path)[..k]
    {
      assert raws[k] in raws;
      var decoded := DecodeToken(raws[k]);
      parts := parts + [decoded];
    }
    assert Parts(path)[..|raws|] == Parts(path);
    return Some(parts);
  }
}

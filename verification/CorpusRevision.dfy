/** The payload a corpus revision is a digest of: length-prefixed, so that equal payloads
    come from equal corpora. */
module CorpusRevision {
  import opened Prelude
  import opened TraceFraming

  datatype CapturedTrace = CapturedTrace(name: Bytes, raw: Bytes)

  const BASE: nat := 256

  function Power(k: nat): (p: nat)
    ensures p > 0
  {
    if k == 0 then 1 else BASE * Power(k - 1)
  }

  /** The big-endian representation of `n` in `width` bytes. */
  function BigEndian(n: nat, width: nat): (bytes: Bytes)
    ensures |bytes| == width
  {
    if width == 0 then [] else BigEndian(n / BASE, width - 1) + [(n % BASE) as Byte]
  }

  function FromBigEndian(bytes: Bytes): nat {
    if bytes == [] then 0 else FromBigEndian(bytes[..|bytes| - 1]) * BASE + bytes[|bytes| - 1] as nat
  }

  lemma {:induction false} BigEndianRoundTrip(n: nat, width: nat)
    requires n < Power(width)
    ensures FromBigEndian(BigEndian(n, width)) == n
  {
    if width > 0 {
      BigEndianRoundTrip(n / BASE, width - 1);
      var bytes := BigEndian(n, width);
      assert bytes[..|bytes| - 1] == BigEndian(n / BASE, width - 1);
    }
  }

  const LENGTH_BYTES: nat := 8

  /** The first length that has no representation, 2^64. */
  const LENGTH_LIMIT: nat := 0x1_0000_0000_0000_0000

  predicate Fits(field: Bytes) {
    |field| < LENGTH_LIMIT
  }

  function Prefixed(field: Bytes): Bytes {
    BigEndian(|field|, LENGTH_BYTES) + field
  }

  const DOMAIN: string := "semantic-reheating-corpus-revision-v1\0"

  function Ascii(s: string): (bytes: Bytes)
    requires forall c | c in s :: c as int < 128
    ensures |bytes| == |s|
  {
    seq(|s|, i requires 0 <= i < |s| => assert s[i] in s; s[i] as int as Byte)
  }

  function Tag(): Bytes {
    assert forall c | c in DOMAIN :: c as int < 128;
    Ascii(DOMAIN)
  }

  function Entry(t: CapturedTrace): Bytes {
    Prefixed(t.name) + Prefixed(t.raw)
  }

  function Fields(traces: seq<CapturedTrace>): Bytes {
    if traces == [] then [] else Entry(traces[0]) + Fields(traces[1..])
  }

  function Payload(tag: Bytes, manifest: Bytes, traces: seq<CapturedTrace>): Bytes {
    tag + Prefixed(manifest) + Fields(traces)
  }

  predicate AllFit(manifest: Bytes, traces: seq<CapturedTrace>) {
    Fits(manifest) && forall t | t in traces :: Fits(t.name) && Fits(t.raw)
  }

  // ------------------------------------------------------------------ decoding

  /** One field and what follows it. */
  function ReadField(payload: Bytes): Option<(Bytes, Bytes)> {
    if |payload| < LENGTH_BYTES then None
    else
      var length := FromBigEndian(payload[..LENGTH_BYTES]);
      var rest := payload[LENGTH_BYTES..];
      if length > |rest| then None else Some((rest[..length], rest[length..]))
  }

  function ReadTraces(payload: Bytes): Option<seq<CapturedTrace>>
    decreases |payload|
  {
    if payload == [] then Some([])
    else
      var name := ReadField(payload);
      if name.None? then None
      else
        var raw := ReadField(name.value.1);
        if raw.None? then None
        else
          var others := ReadTraces(raw.value.1);
          if others.None? then None else Some([CapturedTrace(name.value.0, raw.value.0)] + others.value)
  }

  function Decode(tag: Bytes, payload: Bytes): Option<(Bytes, seq<CapturedTrace>)> {
    if !(tag <= payload) then None
    else
      var manifest := ReadField(payload[|tag|..]);
      if manifest.None? then None
      else
        var traces := ReadTraces(manifest.value.1);
        if traces.None? then None else Some((manifest.value.0, traces.value))
  }

  lemma {:induction false} LengthFits(n: nat)
    requires n < LENGTH_LIMIT
    ensures n < Power(LENGTH_BYTES)
  {
    assert Power(2) == BASE * BASE;
    assert Power(4) == BASE * (BASE * Power(2));
    assert Power(6) == BASE * (BASE * Power(4));
    assert Power(8) == BASE * (BASE * Power(6));
  }

  lemma {:induction false} ReadPrefixed(field: Bytes, rest: Bytes)
    requires Fits(field)
    ensures ReadField(Prefixed(field) + rest) == Some((field, rest))
  {
    var payload := Prefixed(field) + rest;
    var length := BigEndian(|field|, LENGTH_BYTES);
    LengthFits(|field|);
    BigEndianRoundTrip(|field|, LENGTH_BYTES);
    assert payload == length + (field + rest);
    assert payload[..LENGTH_BYTES] == length && payload[LENGTH_BYTES..] == field + rest;
  }

  lemma {:induction false} ReadFields(traces: seq<CapturedTrace>)
    requires forall t | t in traces :: Fits(t.name) && Fits(t.raw)
    ensures ReadTraces(Fields(traces)) == Some(traces)
  {
    if traces != [] {
      var t, others := traces[0], Fields(traces[1..]);
      ReadFields(traces[1..]);
      assert Fields(traces) == Prefixed(t.name) + (Prefixed(t.raw) + others);
      ReadPrefixed(t.name, Prefixed(t.raw) + others);
      ReadPrefixed(t.raw, others);
      assert [t] + traces[1..] == traces;
    }
  }

  /** Decoding undoes encoding, for every field length that has a representation. */
  lemma {:induction false} PayloadRoundTrip(tag: Bytes, manifest: Bytes, traces: seq<CapturedTrace>)
    requires AllFit(manifest, traces)
    ensures Decode(tag, Payload(tag, manifest, traces)) == Some((manifest, traces))
  {
    var payload := Payload(tag, manifest, traces);
    assert payload == tag + (Prefixed(manifest) + Fields(traces));
    assert tag <= payload && payload[|tag|..] == Prefixed(manifest) + Fields(traces);
    ReadPrefixed(manifest, Fields(traces));
    ReadFields(traces);
  }

  /** So equal payloads come from the same manifest and the same traces, in order. */
  lemma {:induction false} PayloadIsInjective(tag: Bytes, manifest: Bytes, traces: seq<CapturedTrace>, manifest': Bytes,
        traces': seq<CapturedTrace>)
    requires AllFit(manifest, traces) && AllFit(manifest', traces')
    requires Payload(tag, manifest, traces) == Payload(tag, manifest', traces')
    ensures manifest == manifest' && traces == traces'
  {
    PayloadRoundTrip(tag, manifest, traces);
    PayloadRoundTrip(tag, manifest', traces');
  }

  // ------------------------------------------------------------------ the loop

  lemma {:induction false} FieldsAppend(traces: seq<CapturedTrace>, t: CapturedTrace)
    ensures Fields(traces + [t]) == Fields(traces) + Entry(t)
  {
    if traces == [] {
      assert (traces + [t])[1..] == traces;
    } else {
      var first, rest := traces[0], traces[1..];
      FieldsAppend(rest, t);
      assert (traces + [t])[1..] == rest + [t];
      Associates(Entry(first), Fields(rest), Entry(t));
    }
  }

  lemma {:induction false} Associates(a: Bytes, b: Bytes, c: Bytes)
    ensures a + (b + c) == a + b + c
  {
  }

  /** A length without a representation is an overflow. */
  method AppendField(payload: Bytes, field: Bytes) returns (r: Option<Bytes>)
    ensures r == if Fits(field) then Some(payload + Prefixed(field)) else None
  {
    if |field| >= LENGTH_LIMIT {
      return None;
    }
    var longer := payload + BigEndian(|field|, LENGTH_BYTES);
    assert longer + field == payload + Prefixed(field);
    return Some(longer + field);
  }

  method Revision(manifest: Bytes, traces: seq<CapturedTrace>) returns (r: Option<Bytes>)
    ensures r == if AllFit(manifest, traces) then Some(Payload(Tag(), manifest, traces)) else None
  {
    var tag := Tag();
    var start := AppendField(tag, manifest);
    if start.None? {
      return None;
    }
    var payload := start.value;
    assert traces[..0] == [] && payload + [] == payload;
    for n := 0 to |traces|
      invariant payload == Payload(tag, manifest, traces[..n])
      invariant AllFit(manifest, traces[..n])
    {
      var name := AppendField(payload, traces[n].name);
      if name.None? {
        return None;
      }
      var raw := AppendField(name.value, traces[n].raw);
      if raw.None? {
        return None;
      }
      FieldsAppend(traces[..n], traces[n]);
      assert raw.value == payload + Entry(traces[n]);
      assert traces[..n] + [traces[n]] == traces[..n + 1];
      assert raw.value == Payload(tag, manifest, traces[..n + 1]);
      payload := raw.value;
    }
    assert traces[..|traces|] == traces;
    return Some(payload);
  }
}

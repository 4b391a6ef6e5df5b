/** Continuation tokens: a typed payload, canonical JSON, base64url, and the strict way back. */
module PagingTokens {
  import opened Common
  import opened Decimals
  import B64 = Base64Url

  const TOKEN_VERSION := 2
  const MAX_TOKEN_CHARS := 12000
  const MAX_JSON_BYTES := 9000
  const MAX_ANCHORS := 32
  const MAX_STRING_CHARS := 4096
  const MAX_BYTES := 4096
  const MAX_INT_DIGITS := 128

  datatype Json = JNull | JBool(b: bool) | JInt(n: int) | JStr(s: string) | JList(items: seq<Json>)
    | JObject(members: map<string, Json>)

  datatype TextKind = FloatHex | IsoDatetime | IsoDate

  /** An order value of the last row; floats, datetimes and dates are named by their canonical text. */
  datatype Anchor = ANone | ABool(b: bool) | AInt(n: int) | AStr(s: string) | ABytes(bytes: seq<B64.Octet>)
    | AText(kind: TextKind, text: string)

  /** The canonical JSON printer and the parser, and which texts are canonical spellings of a finite
      float, a datetime or a date. */
  datatype Codecs = Codecs(
    dumps: Json -> seq<B64.Octet>, loads: seq<B64.Octet> -> Option<Json>, canonical: (TextKind, string) -> bool)

  ghost predicate CodecsOk(k: Codecs) {
    && (forall j :: k.loads(k.dumps(j)) == Some(j) && k.dumps(j) != [])
    && (forall kind, text :: k.canonical(kind, text) ==> 0 < |text| <= MAX_STRING_CHARS)
  }

  predicate ValidInt(n: int) { |NatText(if n < 0 then -n else n)| <= MAX_INT_DIGITS }

  predicate ValidSid(n: int) { n >= 1 && ValidInt(n) }

  predicate ValidFingerprint(s: string) {
    |s| == 64 && forall c :: c in s ==> '0' <= c <= '9' || 'a' <= c <= 'f'
  }

  // ----------------------------------------------------------------- anchors

  function Tagged(tag: string, v: Json): Json {
    JObject(map["t" := JStr(tag), "v" := v])
  }

  function TagOf(kind: TextKind): string {
    match kind case FloatHex => "float" case IsoDatetime => "datetime" case IsoDate => "date"
  }

  function EncodeValue(k: Codecs, a: Anchor): Option<Json> {
    match a
    case ANone => Some(Tagged("null", JNull))
    case ABool(b) => Some(Tagged("bool", JBool(b)))
    case AInt(n) => if ValidInt(n) then Some(Tagged("int", JStr(IntText(n)))) else None
    case AStr(s) => if |s| <= MAX_STRING_CHARS then Some(Tagged("str", JStr(s))) else None
    case ABytes(bytes) => if |bytes| <= MAX_BYTES then Some(Tagged("bytes", JStr(B64.Encode(bytes)))) else None
    case AText(kind, text) => if k.canonical(kind, text) then Some(Tagged(TagOf(kind), JStr(text))) else None
  }

  function DecodeValue(k: Codecs, j: Json): Option<Anchor> {
    if !j.JObject? || j.members.Keys != {"t", "v"} || !j.members["t"].JStr? then None
    else
      var tag, raw := j.members["t"].s, j.members["v"];
      if tag == "null" && raw.JNull? then Some(ANone)
      else if tag == "bool" && raw.JBool? then Some(ABool(raw.b))
      else if !raw.JStr? then None
      else if tag == "int" then DecodeInt(raw.s)
      else if tag == "float" then DecodeText(k, FloatHex, raw.s)
      else if tag == "str" then if |raw.s| <= MAX_STRING_CHARS then Some(AStr(raw.s)) else None
      else if tag == "bytes" then DecodeBytes(raw.s)
      else if tag == "datetime" && |raw.s| <= MAX_STRING_CHARS then DecodeText(k, IsoDatetime, raw.s)
      else if tag == "date" && |raw.s| <= MAX_STRING_CHARS then DecodeText(k, IsoDate, raw.s)
      else None
  }

  /** Strips every leading minus sign. */
  function WithoutSigns(s: string): string {
    if s != [] && s[0] == '-' then WithoutSigns(s[1..]) else s
  }

  function DecodeInt(raw: string): Option<Anchor> {
    if raw == [] || |WithoutSigns(raw)| > MAX_INT_DIGITS then None
    else
      var n := ParseInt(raw);
      if n.None? || IntText(n.value) != raw then None else Some(AInt(n.value))
  }

  function DecodeText(k: Codecs, kind: TextKind, raw: string): Option<Anchor> {
    if k.canonical(kind, raw) then Some(AText(kind, raw)) else None
  }

  function DecodeBytes(raw: string): Option<Anchor> {
    if |raw| > 2 * MAX_BYTES || (raw != [] && !B64.UrlSafe(raw)) then None
    else
      var bytes := B64.Decode(raw);
      if bytes.None? || |bytes.value| > MAX_BYTES || B64.Encode(bytes.value) != raw then None
      else Some(ABytes(bytes.value))
  }

  function EncodeValues(k: Codecs, anchors: seq<Anchor>): Option<seq<Json>> {
    if anchors == [] then Some([])
    else
      var n := |anchors| - 1;
      var before, last := EncodeValues(k, anchors[..n]), EncodeValue(k, anchors[n]);
      if before.None? || last.None? then None else Some(before.value + [last.value])
  }

  function DecodeValues(k: Codecs, items: seq<Json>): Option<seq<Anchor>> {
    if items == [] then Some([])
    else
      var n := |items| - 1;
      var before, last := DecodeValues(k, items[..n]), DecodeValue(k, items[n]);
      if before.None? || last.None? then None else Some(before.value + [last.value])
  }

  // ------------------------------------------------------------------ tokens

  datatype Decoded = Decoded(direction: string, anchors: seq<Anchor>, sid: int)

  function Payload(items: seq<Json>, direction: string, fingerprint: string, sid: int): Json {
    JObject(map["a" := JList(items), "d" := JStr(direction), "f" := JStr(fingerprint), "s" := JInt(sid),
                "v" := JInt(TOKEN_VERSION)])
  }

  predicate ValidDirection(d: string) { d == "forward" || d == "backward" }

  function EncodeContinuation(k: Codecs, c: Decoded, fingerprint: string): Option<string> {
    if !ValidDirection(c.direction) || !ValidSid(c.sid) || !ValidFingerprint(fingerprint) || |c.anchors| > MAX_ANCHORS
    then None
    else
      var items := EncodeValues(k, c.anchors);
      if items.None? then None
      else
        var text := B64.Encode(k.dumps(Payload(items.value, c.direction, fingerprint, c.sid)));
        if |text| > MAX_TOKEN_CHARS then None else Some(text)
  }

  function DecodeContinuation(k: Codecs, text: string, fingerprint: string, anchors: int): Option<Decoded> {
    if !ValidFingerprint(fingerprint) || !(0 <= anchors <= MAX_ANCHORS) then None
    else if text == [] || |text| > MAX_TOKEN_CHARS || !B64.UrlSafe(text) then None
    else
      var raw := B64.Decode(text);
      if raw.None? || |raw.value| > MAX_JSON_BYTES then None
      else
        var payload := k.loads(raw.value);
        if payload.None? then None else DecodePayload(k, payload.value, text, fingerprint, anchors)
  }

  function DecodePayload(k: Codecs, payload: Json, text: string, fingerprint: string, anchors: int): Option<Decoded> {
    if !payload.JObject? || payload.members.Keys != {"a", "d", "f", "s", "v"} then None
    else
      var m := payload.members;
      if m["v"] != JInt(TOKEN_VERSION) || m["f"] != JStr(fingerprint) then None
      else if !m["d"].JStr? || !ValidDirection(m["d"].s) then None
      else if !m["a"].JList? || |m["a"].items| != anchors then None
      else
        var values := DecodeValues(k, m["a"].items);
        if values.None? || !m["s"].JInt? || !ValidSid(m["s"].n) then None
        else if B64.Encode(k.dumps(payload)) != text then None
        else Some(Decoded(m["d"].s, values.value, m["s"].n))
  }

  // -------------------------------------------------------------- round trips

  lemma IntTextLength(n: int)
    ensures WithoutSigns(IntText(n)) == NatText(if n < 0 then -n else n)
    ensures IntText(n) != []
  {
    NatTextParses(if n < 0 then -n else n);
    if n < 0 {
      assert IntText(n)[1..] == NatText(-n);
    }
  }

  lemma TaggedReads(tag: string, v: Json)
    ensures var m := Tagged(tag, v).members;
            m.Keys == {"t", "v"} && m["t"] == JStr(tag) && m["v"] == v
  {
  }

  lemma IntReads(n: int)
    requires ValidInt(n)
    ensures DecodeInt(IntText(n)) == Some(AInt(n))
  {
    IntTextLength(n);
    IntTextParses(n);
  }

  lemma BytesRead(bytes: seq<B64.Octet>)
    requires |bytes| <= MAX_BYTES
    ensures DecodeBytes(B64.Encode(bytes)) == Some(ABytes(bytes))
  {
    B64.DecodeInvertsEncode(bytes);
    B64.EncodedLength(bytes);
  }

  lemma ValueRoundTrip(k: Codecs, a: Anchor)
    requires CodecsOk(k) && EncodeValue(k, a).Some?
    ensures DecodeValue(k, EncodeValue(k, a).value) == Some(a)
  {
    var j := EncodeValue(k, a).value;
    TaggedReads(j.members["t"].s, j.members["v"]);
    match a
    case AInt(n) => IntReads(n);
    case ABytes(bytes) => BytesRead(bytes);
    case _ =>
  }

  lemma IntReencodes(raw: string)
    requires DecodeInt(raw).Some?
    ensures DecodeInt(raw).value.AInt? && ValidInt(DecodeInt(raw).value.n) && IntText(DecodeInt(raw).value.n) == raw
  {
    IntTextLength(DecodeInt(raw).value.n);
  }

  lemma TaggedIsWhole(j: Json)
    requires j.JObject? && j.members.Keys == {"t", "v"} && j.members["t"].JStr?
    ensures j == Tagged(j.members["t"].s, j.members["v"])
  {
    var m := j.members;
    assert m == map["t" := m["t"], "v" := m["v"]];
  }

  lemma ValueReencodes(k: Codecs, j: Json)
    requires CodecsOk(k) && DecodeValue(k, j).Some?
    ensures EncodeValue(k, DecodeValue(k, j).value) == Some(j)
  {
    TaggedIsWhole(j);
    if j.members["t"] == JStr("int") && j.members["v"].JStr? {
      IntReencodes(j.members["v"].s);
    }
  }

  lemma EncodeValuesStep(k: Codecs, anchors: seq<Anchor>, items: seq<Json>, a: Anchor, j: Json)
    requires EncodeValues(k, anchors) == Some(items) && EncodeValue(k, a) == Some(j)
    ensures EncodeValues(k, anchors + [a]) == Some(items + [j])
  {
    assert (anchors + [a])[..|anchors|] == anchors;
  }

  lemma DecodeValuesStep(k: Codecs, items: seq<Json>, anchors: seq<Anchor>, j: Json, a: Anchor)
    requires DecodeValues(k, items) == Some(anchors) && DecodeValue(k, j) == Some(a)
    ensures DecodeValues(k, items + [j]) == Some(anchors + [a])
  {
    assert (items + [j])[..|items|] == items;
  }

  lemma {:induction false} ValuesRoundTrip(k: Codecs, anchors: seq<Anchor>)
    requires CodecsOk(k) && EncodeValues(k, anchors).Some?
    ensures DecodeValues(k, EncodeValues(k, anchors).value) == Some(anchors)
    ensures |EncodeValues(k, anchors).value| == |anchors|
  {
    if anchors != [] {
      var n := |anchors| - 1;
      ValuesRoundTrip(k, anchors[..n]);
      ValueRoundTrip(k, anchors[n]);
      DecodeValuesStep(k, EncodeValues(k, anchors[..n]).value, anchors[..n],
                       EncodeValue(k, anchors[n]).value, anchors[n]);
      assert anchors == anchors[..n] + [anchors[n]];
    }
  }

  lemma {:induction false} ValuesReencode(k: Codecs, items: seq<Json>)
    requires CodecsOk(k) && DecodeValues(k, items).Some?
    ensures EncodeValues(k, DecodeValues(k, items).value) == Some(items)
    ensures |DecodeValues(k, items).value| == |items|
  {
    if items != [] {
      var n := |items| - 1;
      ValuesReencode(k, items[..n]);
      ValueReencodes(k, items[n]);
      EncodeValuesStep(k, DecodeValues(k, items[..n]).value, items[..n], DecodeValue(k, items[n]).value, items[n]);
      assert items == items[..n] + [items[n]];
    }
  }

  /** The character limit implies the byte limit, so no token is refused for its size on the way back. */
  lemma CharacterLimitImpliesByteLimit(octets: seq<B64.Octet>)
    requires |B64.Encode(octets)| <= MAX_TOKEN_CHARS
    ensures |octets| <= MAX_JSON_BYTES
  {
    B64.EncodedLength(octets);
  }

  /** Every token that can be made decodes to what it was made from. */
  lemma DecodeInvertsEncode(k: Codecs, c: Decoded, fingerprint: string)
    requires CodecsOk(k) && EncodeContinuation(k, c, fingerprint).Some?
    ensures DecodeContinuation(k, EncodeContinuation(k, c, fingerprint).value, fingerprint, |c.anchors|) == Some(c)
  {
    var items := EncodeValues(k, c.anchors).value;
    var payload := Payload(items, c.direction, fingerprint, c.sid);
    var octets := k.dumps(payload);
    ValuesRoundTrip(k, c.anchors);
    B64.DecodeInvertsEncode(octets);
    CharacterLimitImpliesByteLimit(octets);
    assert k.loads(octets) == Some(payload);
    B64.EncodedLength(octets);
    PayloadDecodes(k, c, items, fingerprint);
  }

  lemma PayloadDecodes(k: Codecs, c: Decoded, items: seq<Json>, fingerprint: string)
    requires ValidDirection(c.direction) && ValidSid(c.sid)
    requires DecodeValues(k, items) == Some(c.anchors) && |items| == |c.anchors|
    ensures var payload := Payload(items, c.direction, fingerprint, c.sid);
            DecodePayload(k, payload, B64.Encode(k.dumps(payload)), fingerprint, |c.anchors|) == Some(c)
  {
    var payload := Payload(items, c.direction, fingerprint, c.sid);
    assert payload.members.Keys == {"a", "d", "f", "s", "v"};
  }

  /** Every accepted token is the one that encoding its contents gives. */
  lemma EncodeInvertsDecode(k: Codecs, text: string, fingerprint: string, anchors: int)
    requires CodecsOk(k) && DecodeContinuation(k, text, fingerprint, anchors).Some?
    ensures var c := DecodeContinuation(k, text, fingerprint, anchors).value;
            |c.anchors| == anchors && EncodeContinuation(k, c, fingerprint) == Some(text)
  {
    var payload := k.loads(B64.Decode(text).value).value;
    var m := payload.members;
    ValuesReencode(k, m["a"].items);
    assert m == map["a" := m["a"], "d" := m["d"], "f" := m["f"], "s" := m["s"], "v" := m["v"]];
    assert payload == Payload(m["a"].items, m["d"].s, fingerprint, m["s"].n);
  }
}

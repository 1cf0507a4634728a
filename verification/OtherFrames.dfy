/**
 * The memory, biography, and roleplay assessment responses: three more flat frames with an exact
 * key count, each encoded by the sidecar and read back by the worldserver.
 */
module OtherFrames {
  import opened Bytes
  import opened Wrappers
  import opened FlatJson
  import opened FlatJsonParserClass
  import opened JsonWriter
  import opened Utf8Text
  import opened SocialFrame
  import opened SocialEncoder

  const SCHEMA_VERSION: nat := 6
  const MAX_THREAD_ID_BYTES: nat := 64
  const MAX_EXTRACTED_MEMORIES: nat := 4
  const MAX_CONTEXT_ENTRY_BYTES: nat := 512
  const MAX_BIOGRAPHY_FIELD_BYTES: nat := 240

  // ---- Memories ----

  /** Scope is public, party, or whisper by name. */
  datatype Memory = Memory(paraphrase: bytes, about: nat, scope: bytes, source: bytes)
  datatype MemoryResponse = MemoryResponse(thread: bytes, memories: seq<Memory>)

  const MEMORY_HEAD: seq<bytes> :=
    ["schema_version", "token", "kind", "memory_request_token", "bot_guid", "thread_id", "memory_count"]

  function PartName(part: nat): bytes
    requires part < 4
  {
    if part == 0 then "paraphrase"
    else if part == 1 then "about_guid"
    else if part == 2 then "scope"
    else "source_event_id"
  }

  function MemorySlot(i: nat, part: nat): bytes
    requires part < 4
  {
    "memory_" + Decimal(i) + "_" + PartName(part)
  }

  function MemorySlots(n: nat): (names: seq<bytes>)
    ensures |names| == 4 * n && forall k | 0 <= k < 4 * n :: names[k] == MemorySlot(k / 4, k % 4)
  {
    seq(4 * n, k requires 0 <= k < 4 * n => MemorySlot(k / 4, k % 4))
  }

  predicate KnownScope(scope: bytes) { scope == "public" || scope == "party" || scope == "whisper" }

  predicate IsLowerHex(c: char) { IsDigit(c) || 'a' <= c <= 'f' }

  /** The event identity shape both sides check. */
  predicate EventId(id: bytes) { |id| == 36 && id[..4] == "evt_" && forall i | 4 <= i < 36 :: IsLowerHex(id[i]) }

  predicate MemoryOk(m: Memory) {
    && m.paraphrase != [] && |m.paraphrase| <= MAX_CONTEXT_ENTRY_BYTES
    && m.about != 0 && KnownScope(m.scope) && EventId(m.source)
  }

  function MemoryAt(fields: map<bytes, Value>, i: nat): Option<Memory> {
    var paraphrase, about := TextAt(fields, MemorySlot(i, 0)), NumberAt(fields, MemorySlot(i, 1));
    var scope, source := TextAt(fields, MemorySlot(i, 2)), TextAt(fields, MemorySlot(i, 3));
    if paraphrase.None? || about.None? || scope.None? || source.None? then None
    else
      var m := Memory(paraphrase.value, about.value, scope.value, source.value);
      if MemoryOk(m) then Some(m) else None
  }

  function ReadMemories(fields: map<bytes, Value>, n: nat): Option<seq<Memory>> {
    if n == 0 then Some([])
    else
      var front, last := ReadMemories(fields, n - 1), MemoryAt(fields, n - 1);
      if front.None? || last.None? then None else Some(front.value + [last.value])
  }

  predicate MemoryHeadOk(fields: map<bytes, Value>, token: bytes, request: nat, bot: nat) {
    && NumberAt(fields, "schema_version") == Some(SCHEMA_VERSION)
    && TokenUsable(token) && TextAt(fields, "token") == Some(token)
    && TextAt(fields, "kind") == Some("memory")
    && NumberAt(fields, "memory_request_token") == Some(request)
    && NumberAt(fields, "bot_guid") == Some(bot)
    && TextAt(fields, "thread_id").Some? && 0 < |TextAt(fields, "thread_id").value| <= MAX_THREAD_ID_BYTES
    && NumberWithin(fields, "memory_count", MAX_EXTRACTED_MEMORIES)
    && |fields| == 7 + NumberAt(fields, "memory_count").value * 4
  }

  function ParseMemoryFields(fields: map<bytes, Value>, token: bytes, request: nat, bot: nat): Option<MemoryResponse> {
    if !MemoryHeadOk(fields, token, request, bot) then None
    else
      var memories := ReadMemories(fields, NumberAt(fields, "memory_count").value);
      if memories.None? then None else Some(MemoryResponse(TextAt(fields, "thread_id").value, memories.value))
  }

  method ParseMemoryResponsePayload(payload: bytes, token: bytes, request: nat, bot: nat)
    returns (response: Option<MemoryResponse>)
    ensures response
         == if Parse(payload).None? then None else ParseMemoryFields(Parse(payload).value, token, request, bot)
  {
    var parser := new FlatJsonParser(payload);
    var parsed := parser.Parse();
    if parsed.None? { return None; }
    var fields := parsed.value;
    if !MemoryHeadOk(fields, token, request, bot) { return None; }
    var count := fields["memory_count"].n;
    var memories: seq<Memory> := [];
    for index := 0 to count
      invariant ReadMemories(fields, index) == Some(memories)
    {
      var candidate := MemoryAt(fields, index);
      if candidate.None? {
        RefusedMemoryStaysRefused(fields, index + 1, count);
        return None;
      }
      memories := memories + [candidate.value];
    }
    return Some(MemoryResponse(fields["thread_id"].s, memories));
  }

  lemma {:induction false} RefusedMemoryStaysRefused(fields: map<bytes, Value>, n: nat, count: nat)
    requires n <= count && ReadMemories(fields, n).None?
    ensures ReadMemories(fields, count).None?
  {
    if n < count { RefusedMemoryStaysRefused(fields, n, count - 1); }
  }

  /** A single-digit slot shows its index at one position and its part at another. */
  lemma MemorySlotShape(i: nat, part: nat)
    requires i < 10 && part < 4
    ensures var s := MemorySlot(i, part);
      |s| == 9 + |PartName(part)| && s[0] == 'm' && s[7] == DigitChar(i) && s[9] == PartName(part)[0]
  {
    assert Decimal(i) == [DigitChar(i)];
  }

  lemma MemoryKeysDistinct(n: nat)
    requires n <= MAX_EXTRACTED_MEMORIES
    ensures Distinct(MEMORY_HEAD + MemorySlots(n))
  {
    var slots := MemorySlots(n);
    forall k | 0 <= k < 4 * n
      ensures |slots[k]| == 9 + |PartName(k % 4)| && slots[k][0] == 'm'
      ensures slots[k][7] == DigitChar(k / 4) && slots[k][9] == PartName(k % 4)[0]
    {
      MemorySlotShape(k / 4, k % 4);
    }
    forall j, k | 0 <= j < k < 4 * n ensures slots[j] != slots[k] {
      if slots[j] == slots[k] {
        assert DigitChar(j / 4) == DigitChar(k / 4);
        PartsDiffer(j % 4, k % 4);
      }
    }
    forall i, k | 0 <= i < 7 && 0 <= k < 4 * n ensures MEMORY_HEAD[i] != slots[k] { HeadIsNoSlot(i, k % 4); }
    DistinctConcat(MEMORY_HEAD, slots);
  }

  lemma PartsDiffer(a: nat, b: nat)
    requires a < 4 && b < 4 && |PartName(a)| == |PartName(b)| && PartName(a)[0] == PartName(b)[0]
    ensures a == b
  {
  }

  lemma HeadIsNoSlot(i: nat, part: nat)
    requires i < 7 && part < 4
    ensures |MEMORY_HEAD[i]| != 9 + |PartName(part)| || MEMORY_HEAD[i][0] != 'm'
  {
  }

  lemma {:induction false} ReadMemoriesPresent(fields: map<bytes, Value>, n: nat, k: nat)
    requires ReadMemories(fields, n).Some? && k < 4 * n
    ensures MemorySlot(k / 4, k % 4) in fields
  {
    if k < 4 * (n - 1) { ReadMemoriesPresent(fields, n - 1, k); }
  }

  /** An accepted memory frame carries exactly the seven protocol keys and four keys a memory. */
  lemma AcceptedMemoryFrameHasExactlyItsKeys(fields: map<bytes, Value>, token: bytes, request: nat, bot: nat)
    requires ParseMemoryFields(fields, token, request, bot).Some?
    ensures var n := NumberAt(fields, "memory_count").value;
      fields.Keys == set k | k in MEMORY_HEAD + MemorySlots(n)
  {
    var n := NumberAt(fields, "memory_count").value;
    var keys := MEMORY_HEAD + MemorySlots(n);
    forall i | 0 <= i < |keys| ensures keys[i] in fields {
      if i >= 7 { ReadMemoriesPresent(fields, n, i - 7); }
    }
    MemoryKeysDistinct(n);
    ExactKeys(fields, keys);
  }

  // The encoder.

  predicate MemoriesEncodable(request: nat, bot: nat, thread: bytes, memories: seq<Memory>, token: bytes) {
    && 1 <= request <= UINT64_MAX && 1 <= bot <= UINT64_MAX && TokenUsable(token)
    && 0 < |thread| <= MAX_THREAD_ID_BYTES && |memories| <= MAX_EXTRACTED_MEMORIES
    && forall i | 0 <= i < |memories| :: MemoryOk(memories[i]) && memories[i].about <= UINT64_MAX
  }

  function MemoryHeadFields(request: nat, bot: nat, thread: bytes, count: nat, token: bytes): seq<Field> {
    [Field("schema_version", Number(SCHEMA_VERSION)), Field("token", Text(token)), Field("kind", Text("memory")),
     Field("memory_request_token", Number(request)), Field("bot_guid", Number(bot)), Field("thread_id", Text(thread)),
     Field("memory_count", Number(count))]
  }

  function PartValue(m: Memory, part: nat): Value
    requires part < 4
  {
    if part == 0 then Text(m.paraphrase) else if part == 1 then Number(m.about)
    else if part == 2 then Text(m.scope) else Text(m.source)
  }

  function MemorySlotFields(memories: seq<Memory>): (fields: seq<Field>)
    ensures |fields| == 4 * |memories|
    ensures forall k | 0 <= k < 4 * |memories| ::
      fields[k] == Field(MemorySlot(k / 4, k % 4), PartValue(memories[k / 4], k % 4))
  {
    seq(4 * |memories|, k requires 0 <= k < 4 * |memories| =>
      Field(MemorySlot(k / 4, k % 4), PartValue(memories[k / 4], k % 4)))
  }

  function MemoryFrameFields(request: nat, bot: nat, thread: bytes, memories: seq<Memory>, token: bytes): seq<Field> {
    MemoryHeadFields(request, bot, thread, |memories|, token) + MemorySlotFields(memories)
  }

  lemma MemoryHeadReadBack(m: map<bytes, Value>, request: nat, bot: nat, thread: bytes, count: nat, token: bytes)
    requires Holds(m, MemoryHeadFields(request, bot, thread, count, token)) && TokenUsable(token)
    requires 0 < |thread| <= MAX_THREAD_ID_BYTES && count <= MAX_EXTRACTED_MEMORIES && |m| == 7 + count * 4
    ensures MemoryHeadOk(m, token, request, bot)
    ensures NumberAt(m, "memory_count") == Some(count) && TextAt(m, "thread_id") == Some(thread)
  {
    var f := MemoryHeadFields(request, bot, thread, count, token);
    assert f[0].key == "schema_version" && f[1].key == "token" && f[2].key == "kind";
    assert f[3].key == "memory_request_token";
    assert f[4].key == "bot_guid" && f[5].key == "thread_id" && f[6].key == "memory_count";
  }

  lemma SlotReadBack(m: map<bytes, Value>, memories: seq<Memory>, i: nat)
    requires Holds(m, MemorySlotFields(memories)) && i < |memories| && MemoryOk(memories[i])
    ensures MemoryAt(m, i) == Some(memories[i])
  {
    var f := MemorySlotFields(memories);
    forall part: nat | part < 4
      ensures MemorySlot(i, part) in m && m[MemorySlot(i, part)] == PartValue(memories[i], part)
    {
      var k := 4 * i + part;
      assert k / 4 == i && k % 4 == part;
      assert f[k] == Field(MemorySlot(i, part), PartValue(memories[i], part));
    }
  }

  lemma {:induction false} MemoriesReadBack(m: map<bytes, Value>, memories: seq<Memory>, n: nat)
    requires Holds(m, MemorySlotFields(memories)) && n <= |memories|
    requires forall i | 0 <= i < |memories| :: MemoryOk(memories[i])
    ensures ReadMemories(m, n) == Some(memories[..n])
  {
    hide MemorySlot, PartValue, MemoryOk, MemoryAt, Holds;
    if n > 0 {
      MemoriesReadBack(m, memories, n - 1);
      SlotReadBack(m, memories, n - 1);
      assert memories[..n] == memories[..n - 1] + [memories[n - 1]];
    }
  }

  lemma MemoryNumbersFit(request: nat, bot: nat, thread: bytes, memories: seq<Memory>, token: bytes)
    requires MemoriesEncodable(request, bot, thread, memories, token)
    ensures NumbersFit(MemoryFrameFields(request, bot, thread, memories, token))
  {
    assert NumbersFit(MemoryHeadFields(request, bot, thread, |memories|, token));
    var slots := MemorySlotFields(memories);
    forall k | 0 <= k < |slots| && slots[k].value.Number? ensures slots[k].value.n <= UINT64_MAX {
      assert MemoryOk(memories[k / 4]) && slots[k].value == PartValue(memories[k / 4], k % 4);
    }
  }

  lemma KeysAre(fields: seq<Field>, keys: seq<bytes>)
    requires |fields| == |keys| && (forall i | 0 <= i < |keys| :: fields[i].key == keys[i]) && Distinct(keys)
    ensures KeysDiffer(fields)
  {
  }

  lemma MemoryHeadKeys(request: nat, bot: nat, thread: bytes, count: nat, token: bytes)
    ensures forall i | 0 <= i < 7 :: MemoryHeadFields(request, bot, thread, count, token)[i].key == MEMORY_HEAD[i]
  {
  }

  lemma MemoryKeysDiffer(request: nat, bot: nat, thread: bytes, memories: seq<Memory>, token: bytes)
    requires |memories| <= MAX_EXTRACTED_MEMORIES
    ensures KeysDiffer(MemoryFrameFields(request, bot, thread, memories, token))
  {
    hide MemorySlot, PartValue;
    var fields := MemoryFrameFields(request, bot, thread, memories, token);
    var keys := MEMORY_HEAD + MemorySlots(|memories|);
    MemoryHeadKeys(request, bot, thread, |memories|, token);
    forall i | 0 <= i < |keys| ensures fields[i].key == keys[i] {
      if i >= 7 {
        assert fields[i] == MemorySlotFields(memories)[i - 7];
        assert keys[i] == MemorySlots(|memories|)[i - 7];
      }
    }
    MemoryKeysDistinct(|memories|);
    KeysAre(fields, keys);
  }

  /** Every memory reply the sidecar encodes is read back with the same thread and the same memories. */
  lemma MemoryFrameRoundTrip(request: nat, bot: nat, thread: bytes, memories: seq<Memory>, token: bytes)
    requires MemoriesEncodable(request, bot, thread, memories, token)
    ensures var parsed := Parse(WriteObject(MemoryFrameFields(request, bot, thread, memories, token)));
      parsed.Some? && ParseMemoryFields(parsed.value, token, request, bot) == Some(MemoryResponse(thread, memories))
  {
    hide Quoted, ReadMemories, WriteObject, MemoryHeadOk;
    var fields := MemoryFrameFields(request, bot, thread, memories, token);
    MemoryNumbersFit(request, bot, thread, memories, token);
    MemoryKeysDiffer(request, bot, thread, memories, token);
    WrittenObjectIsReadBack(fields);
    MapHoldsItsFields(fields);
    var m := MapOf(fields);
    HoldsParts(m, MemoryHeadFields(request, bot, thread, |memories|, token), MemorySlotFields(memories));
    MemoryHeadReadBack(m, request, bot, thread, |memories|, token);
    MemoriesReadBack(m, memories, |memories|);
    assert memories[..|memories|] == memories;
  }

  // ---- Biographies ----

  const BIOGRAPHY_HEAD: seq<bytes> := ["schema_version", "token", "kind", "biography_request_token", "bot_guid"]

  const BIOGRAPHY_FIELD_NAMES: seq<bytes> := ["origin", "motivation", "formative_experience", "interests", "aversions",
    "preferred_topics", "mannerisms", "values"]

  predicate BiographyTextOk(text: bytes) {
    text != [] && |text| <= MAX_BIOGRAPHY_FIELD_BYTES && IsSingleCleanLine(text)
  }

  predicate BiographyHeadOk(fields: map<bytes, Value>, token: bytes, request: nat, bot: nat) {
    && |fields| == 13
    && NumberAt(fields, "schema_version") == Some(SCHEMA_VERSION)
    && TokenUsable(token) && TextAt(fields, "token") == Some(token)
    && TextAt(fields, "kind") == Some("biography")
    && NumberAt(fields, "biography_request_token") == Some(request)
    && NumberAt(fields, "bot_guid") == Some(bot)
  }

  /** The generated fields in the contract's order; one bad field refuses them all. */
  function ReadBiography(fields: map<bytes, Value>, n: nat): Option<seq<bytes>>
    requires n <= |BIOGRAPHY_FIELD_NAMES|
  {
    if n == 0 then Some([])
    else
      var front, last := ReadBiography(fields, n - 1), TextAt(fields, BIOGRAPHY_FIELD_NAMES[n - 1]);
      if front.None? || last.None? || !BiographyTextOk(last.value) then None else Some(front.value + [last.value])
  }

  function ParseBiographyFields(fields: map<bytes, Value>, token: bytes, request: nat, bot: nat): Option<seq<bytes>> {
    if BiographyHeadOk(fields, token, request, bot) then ReadBiography(fields, 8) else None
  }

  /** Walked in the contract's order; the first bad field refuses the biography whole. */
  method ParseBiographyResponsePayload(payload: bytes, token: bytes, request: nat, bot: nat)
    returns (texts: Option<seq<bytes>>)
    ensures texts
         == if Parse(payload).None? then None else ParseBiographyFields(Parse(payload).value, token, request, bot)
  {
    var parser := new FlatJsonParser(payload);
    var parsed := parser.Parse();
    if parsed.None? { return None; }
    var fields := parsed.value;
    if !BiographyHeadOk(fields, token, request, bot) { return None; }
    var collected: seq<bytes> := [];
    for index := 0 to 8
      invariant ReadBiography(fields, index) == Some(collected)
    {
      var text := TextAt(fields, BIOGRAPHY_FIELD_NAMES[index]);
      if text.None? || !BiographyTextOk(text.value) {
        RefusedFieldStaysRefused(fields, index + 1);
        return None;
      }
      collected := collected + [text.value];
    }
    return Some(collected);
  }

  lemma {:induction false} RefusedFieldStaysRefused(fields: map<bytes, Value>, n: nat)
    requires n <= 8 && ReadBiography(fields, n).None?
    ensures ReadBiography(fields, 8).None?
    decreases 8 - n
  {
    if n < 8 { RefusedFieldStaysRefused(fields, n + 1); }
  }

  lemma {:induction false} ReadBiographyPresent(fields: map<bytes, Value>, n: nat, i: nat)
    requires n <= 8 && i < n && ReadBiography(fields, n).Some?
    ensures BIOGRAPHY_FIELD_NAMES[i] in fields
  {
    if i < n - 1 { ReadBiographyPresent(fields, n - 1, i); }
  }

  lemma BiographyKeysDistinct()
    ensures Distinct(BIOGRAPHY_HEAD + BIOGRAPHY_FIELD_NAMES)
  {
    var keys := BIOGRAPHY_HEAD + BIOGRAPHY_FIELD_NAMES;
    assert forall i, j | 0 <= i < j < 13 && (i, j) != (6, 11) :: Mark(keys[i]) != Mark(keys[j]);
    assert keys[6][1] != keys[11][1];
  }

  /** An accepted biography carries exactly the five protocol keys and the eight generated ones. */
  lemma AcceptedBiographyHasExactlyItsKeys(fields: map<bytes, Value>, token: bytes, request: nat, bot: nat)
    requires ParseBiographyFields(fields, token, request, bot).Some?
    ensures fields.Keys == set k | k in BIOGRAPHY_HEAD + BIOGRAPHY_FIELD_NAMES
  {
    var keys := BIOGRAPHY_HEAD + BIOGRAPHY_FIELD_NAMES;
    forall i | 0 <= i < 13 ensures keys[i] in fields {
      if i >= 5 { ReadBiographyPresent(fields, 8, i - 5); }
    }
    BiographyKeysDistinct();
    ExactKeys(fields, keys);
  }

  function BiographyHeadFields(request: nat, bot: nat, token: bytes): seq<Field> {
    [Field("schema_version", Number(SCHEMA_VERSION)), Field("token", Text(token)), Field("kind", Text("biography")),
     Field("biography_request_token", Number(request)), Field("bot_guid", Number(bot))]
  }

  function BiographyTextFields(texts: seq<bytes>): (fields: seq<Field>)
    requires |texts| == 8
    ensures |fields| == 8 && forall i | 0 <= i < 8 :: fields[i] == Field(BIOGRAPHY_FIELD_NAMES[i], Text(texts[i]))
  {
    seq(8, i requires 0 <= i < 8 => Field(BIOGRAPHY_FIELD_NAMES[i], Text(texts[i])))
  }

  lemma {:induction false} BiographyReadBack(m: map<bytes, Value>, texts: seq<bytes>, n: nat)
    requires |texts| == 8 && n <= 8 && Holds(m, BiographyTextFields(texts))
    requires forall i | 0 <= i < 8 :: BiographyTextOk(texts[i])
    ensures ReadBiography(m, n) == Some(texts[..n])
  {
    if n > 0 {
      BiographyReadBack(m, texts, n - 1);
      assert BiographyTextFields(texts)[n - 1].key == BIOGRAPHY_FIELD_NAMES[n - 1];
      assert texts[..n] == texts[..n - 1] + [texts[n - 1]];
    }
  }

  lemma BiographyKeysDiffer(request: nat, bot: nat, texts: seq<bytes>, token: bytes)
    requires |texts| == 8
    ensures KeysDiffer(BiographyHeadFields(request, bot, token) + BiographyTextFields(texts))
  {
    var head := BiographyHeadFields(request, bot, token);
    assert forall i | 0 <= i < 5 :: head[i].key == BIOGRAPHY_HEAD[i];
    BiographyKeysDistinct();
    KeysAre(head + BiographyTextFields(texts), BIOGRAPHY_HEAD + BIOGRAPHY_FIELD_NAMES);
  }

  lemma BiographyHeadReadBack(m: map<bytes, Value>, request: nat, bot: nat, token: bytes)
    requires Holds(m, BiographyHeadFields(request, bot, token)) && TokenUsable(token) && |m| == 13
    ensures BiographyHeadOk(m, token, request, bot)
  {
    var f := BiographyHeadFields(request, bot, token);
    assert f[0].key == "schema_version" && f[1].key == "token" && f[2].key == "kind";
    assert f[3].key == "biography_request_token" && f[4].key == "bot_guid";
  }

  /** Every biography of eight bounded clean lines is read back line for line. */
  lemma BiographyRoundTrip(request: nat, bot: nat, texts: seq<bytes>, token: bytes)
    requires 1 <= request <= UINT64_MAX && 1 <= bot <= UINT64_MAX && TokenUsable(token)
    requires |texts| == 8 && forall i | 0 <= i < 8 :: BiographyTextOk(texts[i])
    ensures var parsed := Parse(WriteObject(BiographyHeadFields(request, bot, token) + BiographyTextFields(texts)));
      parsed.Some? && ParseBiographyFields(parsed.value, token, request, bot) == Some(texts)
  {
    hide Quoted, ReadBiography, WriteObject, BiographyHeadOk;
    var head, body := BiographyHeadFields(request, bot, token), BiographyTextFields(texts);
    var fields := head + body;
    assert NumbersFit(head);
    BiographyKeysDiffer(request, bot, texts, token);
    WrittenObjectIsReadBack(fields);
    MapHoldsItsFields(fields);
    HoldsParts(MapOf(fields), head, body);
    BiographyHeadReadBack(MapOf(fields), request, bot, token);
    BiographyReadBack(MapOf(fields), texts, 8);
    assert texts[..8] == texts;
  }

  // ---- Roleplay assessments ----

  const ASSESSMENT_HEAD: seq<bytes> := ["schema_version", "token", "kind", "roleplay_assessment_request_token",
    "assessment_kind", "capability_count"]

  const CAPABILITIES: set<bytes> := {"classic_content", "outland", "blood_elf", "draenei", "death_knight",
    "burning_crusade_profession", "wrath_profession", "other_burning_crusade", "other_wrath", "unknown"}

  const ASSESSMENT_KINDS: set<bytes> := {"ordinary", "roleplay_invitation", "roleplay_continuation", "practical",
                                         "opt_out", "uncertain"}

  /** How many and which capabilities each kind may name: the contract both sides enforce. */
  predicate AssessmentShape(kind: bytes, capabilities: seq<bytes>) {
    if kind == "ordinary" || kind == "practical" || kind == "opt_out" then capabilities == []
    else if kind == "uncertain" then capabilities == ["unknown"]
    else
      && capabilities != [] && Unique(capabilities) && "unknown" !in capabilities
      && ("classic_content" in capabilities ==> |capabilities| == 1)
  }

  function CapabilitySlot(i: nat): bytes { "capability_" + Decimal(i) }

  function CapabilitySlots(n: nat): (names: seq<bytes>)
    ensures |names| == n && forall i | 0 <= i < n :: names[i] == CapabilitySlot(i)
  {
    seq(n, i requires 0 <= i < n => CapabilitySlot(i))
  }

  predicate AssessmentHeadOk(fields: map<bytes, Value>, token: bytes, request: nat) {
    && NumberAt(fields, "schema_version") == Some(SCHEMA_VERSION)
    && TokenUsable(token) && TextAt(fields, "token") == Some(token)
    && TextAt(fields, "kind") == Some("roleplay_assessment")
    && NumberAt(fields, "roleplay_assessment_request_token") == Some(request)
    && TextAt(fields, "assessment_kind").Some? && TextAt(fields, "assessment_kind").value in ASSESSMENT_KINDS
    && NumberWithin(fields, "capability_count", 10)
    && |fields| == 6 + NumberAt(fields, "capability_count").value
  }

  function ReadCapabilities(fields: map<bytes, Value>, n: nat): Option<seq<bytes>> {
    if n == 0 then Some([])
    else
      var front, last := ReadCapabilities(fields, n - 1), TextAt(fields, CapabilitySlot(n - 1));
      if front.None? || last.None? || last.value !in CAPABILITIES then None else Some(front.value + [last.value])
  }

  function ParseAssessmentFields(fields: map<bytes, Value>, token: bytes, request: nat): Option<(bytes, seq<bytes>)> {
    if !AssessmentHeadOk(fields, token, request) then None
    else
      var kind := TextAt(fields, "assessment_kind").value;
      var capabilities := ReadCapabilities(fields, NumberAt(fields, "capability_count").value);
      if capabilities.None? || !AssessmentShape(kind, capabilities.value) then None
      else Some((kind, capabilities.value))
  }

  method ParseRoleplayAssessmentResponsePayload(payload: bytes, token: bytes, request: nat)
    returns (assessment: Option<(bytes, seq<bytes>)>)
    ensures assessment
         == if Parse(payload).None? then None else ParseAssessmentFields(Parse(payload).value, token, request)
  {
    var parser := new FlatJsonParser(payload);
    var parsed := parser.Parse();
    if parsed.None? { return None; }
    var fields := parsed.value;
    if !AssessmentHeadOk(fields, token, request) { return None; }
    var count := fields["capability_count"].n;
    var collected: seq<bytes> := [];
    for index := 0 to count
      invariant ReadCapabilities(fields, index) == Some(collected)
    {
      var name := TextAt(fields, CapabilitySlot(index));
      if name.None? || name.value !in CAPABILITIES {
        RefusedCapabilityStaysRefused(fields, index + 1, count);
        return None;
      }
      collected := collected + [name.value];
    }
    if !AssessmentShape(fields["assessment_kind"].s, collected) { return None; }
    return Some((fields["assessment_kind"].s, collected));
  }

  lemma {:induction false} RefusedCapabilityStaysRefused(fields: map<bytes, Value>, n: nat, count: nat)
    requires n <= count && ReadCapabilities(fields, n).None?
    ensures ReadCapabilities(fields, count).None?
  {
    if n < count { RefusedCapabilityStaysRefused(fields, n, count - 1); }
  }

  lemma {:induction false} ReadCapabilitiesPresent(fields: map<bytes, Value>, n: nat, i: nat)
    requires i < n && ReadCapabilities(fields, n).Some?
    ensures CapabilitySlot(i) in fields
  {
    if i < n - 1 { ReadCapabilitiesPresent(fields, n - 1, i); }
  }

  lemma AssessmentKeysDistinct(n: nat)
    requires n <= 10
    ensures Distinct(ASSESSMENT_HEAD + CapabilitySlots(n))
  {
    var slots := CapabilitySlots(n);
    assert forall i, j | 0 <= i < j < 6 :: Mark(ASSESSMENT_HEAD[i]) != Mark(ASSESSMENT_HEAD[j]);
    forall i | 0 <= i < n ensures Mark(slots[i]) == 12 * 1000 + 'c' as int { assert Decimal(i) == [DigitChar(i)]; }
    assert forall i | 0 <= i < 6 :: Mark(ASSESSMENT_HEAD[i]) != 12 * 1000 + 'c' as int;
    forall i, j | 0 <= i < j < n ensures slots[i] != slots[j] {
      assert slots[i][11..] == Decimal(i) && slots[j][11..] == Decimal(j);
      if slots[i] == slots[j] { DecimalInjective(i, j); }
    }
    DistinctConcat(ASSESSMENT_HEAD, slots);
  }

  /** An accepted assessment carries exactly the six protocol keys and one key a capability. */
  lemma AcceptedAssessmentHasExactlyItsKeys(fields: map<bytes, Value>, token: bytes, request: nat)
    requires ParseAssessmentFields(fields, token, request).Some?
    ensures fields.Keys == set k | k in ASSESSMENT_HEAD + CapabilitySlots(NumberAt(fields, "capability_count").value)
  {
    var n := NumberAt(fields, "capability_count").value;
    var keys := ASSESSMENT_HEAD + CapabilitySlots(n);
    forall i | 0 <= i < |keys| ensures keys[i] in fields {
      if i >= 6 { ReadCapabilitiesPresent(fields, n, i - 6); }
    }
    AssessmentKeysDistinct(n);
    ExactKeys(fields, keys);
  }

  function AssessmentHeadFields(request: nat, kind: bytes, count: nat, token: bytes): seq<Field> {
    [Field("schema_version", Number(SCHEMA_VERSION)), Field("token", Text(token)),
     Field("kind", Text("roleplay_assessment")),
     Field("roleplay_assessment_request_token", Number(request)), Field("assessment_kind", Text(kind)),
     Field("capability_count", Number(count))]
  }

  function CapabilityFields(capabilities: seq<bytes>): (fields: seq<Field>)
    ensures |fields| == |capabilities|
    ensures forall i | 0 <= i < |capabilities| :: fields[i] == Field(CapabilitySlot(i), Text(capabilities[i]))
  {
    seq(|capabilities|, i requires 0 <= i < |capabilities| => Field(CapabilitySlot(i), Text(capabilities[i])))
  }

  lemma {:induction false} CapabilitiesReadBack(m: map<bytes, Value>, capabilities: seq<bytes>, n: nat)
    requires Holds(m, CapabilityFields(capabilities)) && n <= |capabilities|
    requires forall i | 0 <= i < |capabilities| :: capabilities[i] in CAPABILITIES
    ensures ReadCapabilities(m, n) == Some(capabilities[..n])
  {
    if n > 0 {
      CapabilitiesReadBack(m, capabilities, n - 1);
      assert CapabilityFields(capabilities)[n - 1].key == CapabilitySlot(n - 1);
      assert capabilities[..n] == capabilities[..n - 1] + [capabilities[n - 1]];
    }
  }

  lemma AssessmentKeysDiffer(request: nat, kind: bytes, capabilities: seq<bytes>, token: bytes)
    requires |capabilities| <= 10
    ensures KeysDiffer(AssessmentHeadFields(request, kind, |capabilities|, token) + CapabilityFields(capabilities))
  {
    var n := |capabilities|;
    var head := AssessmentHeadFields(request, kind, n, token);
    assert forall i | 0 <= i < 6 :: head[i].key == ASSESSMENT_HEAD[i];
    AssessmentKeysDistinct(n);
    KeysAre(head + CapabilityFields(capabilities), ASSESSMENT_HEAD + CapabilitySlots(n));
  }

  lemma AssessmentHeadReadBack(m: map<bytes, Value>, request: nat, kind: bytes, count: nat, token: bytes)
    requires Holds(m, AssessmentHeadFields(request, kind, count, token)) && TokenUsable(token)
    requires kind in ASSESSMENT_KINDS && count <= 10 && |m| == 6 + count
    ensures AssessmentHeadOk(m, token, request)
    ensures TextAt(m, "assessment_kind") == Some(kind) && NumberAt(m, "capability_count") == Some(count)
  {
    var f := AssessmentHeadFields(request, kind, count, token);
    assert f[0].key == "schema_version" && f[1].key == "token" && f[2].key == "kind";
    assert f[3].key == "roleplay_assessment_request_token" && f[4].key == "assessment_kind";
    assert f[5].key == "capability_count";
  }

  /** Every completion of the shape contract is read back as the kind and capabilities it reported. */
  lemma AssessmentRoundTrip(request: nat, kind: bytes, capabilities: seq<bytes>, token: bytes)
    requires 1 <= request <= UINT64_MAX && TokenUsable(token) && kind in ASSESSMENT_KINDS
    requires |capabilities| <= 10 && AssessmentShape(kind, capabilities)
    requires forall i | 0 <= i < |capabilities| :: capabilities[i] in CAPABILITIES
    ensures var fields := AssessmentHeadFields(request, kind, |capabilities|, token) + CapabilityFields(capabilities);
      var parsed := Parse(WriteObject(fields));
      parsed.Some? && ParseAssessmentFields(parsed.value, token, request) == Some((kind, capabilities))
  {
    hide Quoted, ReadCapabilities, WriteObject, AssessmentHeadOk, CapabilitySlot;
    var n := |capabilities|;
    var head, body := AssessmentHeadFields(request, kind, n, token), CapabilityFields(capabilities);
    var fields := head + body;
    assert NumbersFit(head);
    AssessmentKeysDiffer(request, kind, capabilities, token);
    WrittenObjectIsReadBack(fields);
    MapHoldsItsFields(fields);
    HoldsParts(MapOf(fields), head, body);
    AssessmentHeadReadBack(MapOf(fields), request, kind, n, token);
    CapabilitiesReadBack(MapOf(fields), capabilities, n);
    assert capabilities[..n] == capabilities;
  }
}
